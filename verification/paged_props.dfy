/**
 * Properties of the paged tree's operations: what an insertion may write and
 * allocate, when the root changes, what a delete logs, lookups after an
 * insertion, and the walks' bounds and termination.
 */
module PagedProps {
  import opened Wrappers
  import opened Bytes
  import opened Nodes
  import opened NodeOps
  import opened PagedSearch
  import opened TreeWalk
  import opened PagedTree

  /**
   * From `a` to `b` only page `id` and freshly allocated ids were written:
   * every page of `b` was already there, is `id`, or got its id from the
   * counter in between; no page disappears; the log only grows; the root,
   * the metadata and the free list are untouched.
   */
  predicate WritesOnly(a: Store, b: Store, id: int) {
    && a.nextId <= b.nextId
    && (forall p :: p in b.pages ==> p in a.pages || p == id || a.nextId <= p < b.nextId)
    && (forall p :: p in a.pages ==> p in b.pages)
    && b.root == a.root && b.metaRoot == a.metaRoot && b.freed == a.freed
    && a.log <= b.log
  }

  lemma WritesOnlyTrans(a: Store, b: Store, c: Store, x: int, y: int, z: int)
    requires WritesOnly(a, b, x) && WritesOnly(b, c, y)
    requires x in a.pages || x == z
    requires y in a.pages || y == z || a.nextId <= y < b.nextId
    ensures WritesOnly(a, c, z)
  {
  }

  lemma SaveWritesOnly(st: Store, id: int, n: Node)
    ensures WritesOnly(st, Save(st, id, n), id)
  {
  }

  /** A leaf split allocates the new leaf's page and writes only it and the leaf's own page. */
  lemma {:induction false} LeafInsertFootprint(st: Store, id: int, node: Node, key: int, value: Value, degree: int, fuel: nat)
    requires AllShapeOk(st.pages) && ShapeOk(node) && node.Leaf?
    ensures InsertRec(st, id, node, key, value, degree, fuel).Some?
    ensures var (r, sp) := InsertRec(st, id, node, key, value, degree, fuel).value;
      && WritesOnly(st, r, id) && id in r.pages
      && (sp.Split? ==> st.nextId <= sp.newId < r.nextId && sp.newId in r.pages && r.pages[sp.newId] == sp.newNode)
  {
    var (ks, vs) := Upsert(node.keys, node.values, key, value);
    var leaf := Leaf(ks, vs, node.next);
    if |ks| > degree {
      var (st1, newId) := Allocate(st);
      var (left, right, splitKey) := SplitLeaf(leaf, newId);
      var st2 := Save(st1, id, left);
      SaveWritesOnly(st1, id, left);
      SaveWritesOnly(st2, newId, right);
      WritesOnlyTrans(st, st1, st2, id, id, id);
      WritesOnlyTrans(st, st2, Save(st2, newId, right), id, newId, id);
    }
  }

  /**
   * InsertRecursive writes only the page it was given and pages with freshly
   * allocated ids, keeps every page that existed, only appends to the log and
   * never touches the root, the metadata or the free list. A split hands up
   * a freshly allocated page that holds the new node.
   */
  lemma {:induction false} InsertRecFootprint(st: Store, id: int, node: Node, key: int, value: Value, degree: int, fuel: nat)
    requires AllShapeOk(st.pages) && ShapeOk(node)
    requires InsertRec(st, id, node, key, value, degree, fuel).Some?
    ensures var (r, sp) := InsertRec(st, id, node, key, value, degree, fuel).value;
      && WritesOnly(st, r, id) && id in r.pages
      && (sp.Split? ==> st.nextId <= sp.newId < r.nextId && sp.newId in r.pages && r.pages[sp.newId] == sp.newNode)
    decreases fuel
  {
    if node.Leaf? {
      LeafInsertFootprint(st, id, node, key, value, degree, fuel);
    } else {
      var pos := ChildIndex(node.keys, key);
      var childId := node.children[pos];
      InsertRecFootprint(st, childId, st.pages[childId], key, value, degree, fuel - 1);
      var (st1, sp1) := InsertRec(st, childId, st.pages[childId], key, value, degree, fuel - 1).value;
      InternalInsertFootprint(st, id, node, key, value, degree, fuel, st1, sp1);
    }
  }

  /** The internal case of InsertRecFootprint, given the child's result. */
  lemma InternalInsertFootprint(st: Store, id: int, node: Node, key: int, value: Value, degree: int, fuel: nat,
                                st1: Store, sp1: Split)
    requires AllShapeOk(st.pages) && ShapeOk(node) && node.Internal? && fuel > 0
    requires var childId := node.children[ChildIndex(node.keys, key)];
      && childId in st.pages
      && InsertRec(st, childId, st.pages[childId], key, value, degree, fuel - 1) == Some((st1, sp1))
      && WritesOnly(st, st1, childId) && AllShapeOk(st1.pages)
      && (sp1.Split? ==> st.nextId <= sp1.newId < st1.nextId && ShapeOk(sp1.newNode) && sp1.newNode.Leaf? == st.pages[childId].Leaf?)
    ensures InsertRec(st, id, node, key, value, degree, fuel).Some?
    ensures var (r, sp) := InsertRec(st, id, node, key, value, degree, fuel).value;
      && WritesOnly(st, r, id) && id in r.pages
      && (sp.Split? ==> st.nextId <= sp.newId < r.nextId && sp.newId in r.pages && r.pages[sp.newId] == sp.newNode)
  {
    var pos := ChildIndex(node.keys, key);
    var childId := node.children[pos];
    match sp1
    case NoSplit =>
      SaveWritesOnly(st1, id, node);
      WritesOnlyTrans(st, st1, Save(st1, id, node), childId, id, id);
    case Split(splitKey, newId, newNode) =>
      var grown := InsertChild(node, pos, splitKey, newId);
      if |grown.keys| <= degree {
        var st2 := Save(st1, id, grown);
        SaveWritesOnly(st1, id, grown);
        SaveWritesOnly(st2, newId, newNode);
        WritesOnlyTrans(st, st1, st2, childId, id, id);
        WritesOnlyTrans(st, st2, Save(st2, newId, newNode), id, newId, id);
      } else {
        var (st2, newId2) := Allocate(st1);
        var (left, right, midKey) := SplitInternal(grown);
        var st3 := Save(st2, id, left);
        SaveWritesOnly(st2, id, left);
        SaveWritesOnly(st3, newId2, right);
        WritesOnlyTrans(st, st1, st2, childId, childId, id);
        WritesOnlyTrans(st, st2, st3, id, id, id);
        WritesOnlyTrans(st, st3, Save(st3, newId2, right), id, newId2, id);
      }
  }

  /**
   * Insert raises the height only by a root split: it either leaves the root
   * and the metadata as they were, or makes the last allocated id the root,
   * recorded in the metadata, holding an internal node with one key whose
   * first child is the old root.
   */
  lemma InsertRootChange(st: Store, key: int, value: Value, degree: int)
    requires AllShapeOk(st.pages) && InsertTop(st, key, value, degree).Some?
    ensures var r := InsertTop(st, key, value, degree).value;
      || (r.root == st.root && r.metaRoot == st.metaRoot)
      || (&& r.root == r.nextId - 1 && r.metaRoot == r.root && r.root in r.pages
          && r.pages[r.root].Internal? && |r.pages[r.root].keys| == 1
          && |r.pages[r.root].children| == 2 && r.pages[r.root].children[0] == st.root)
  {
    var (st1, sp) := InsertRec(st, st.root, st.pages[st.root], key, value, degree, |st.pages|).value;
    assert InsertTop(st, key, value, degree).value == GrowRoot(st1, st.root, sp);
  }

  /** Delete of a key the descent does not find changes nothing. */
  lemma DeleteAbsentKey(st: Store, key: int, degree: int)
    requires AllShapeOk(st.pages)
    requires var d := Descend(st.pages, st.root, key, |st.pages|); d.Some? && key !in d.value.1.keys
    ensures DeleteSpec(st, key, degree) == Some(st)
  {
  }

  // ---- deletion ----

  /**
   * From `a` to `b` rebalancing only rewrote pages: no id was allocated or
   * freed, the log only grew, the metadata still follows the root, and a
   * root that changed was logged as deleted on the way.
   */
  predicate Rebalanced(a: Store, b: Store) {
    && b.nextId == a.nextId && b.freed == a.freed && a.log <= b.log
    && (a.metaRoot == a.root ==> b.metaRoot == b.root)
    && (b.root != a.root ==> LogErase(a.root) in b.log[|a.log|..])
  }

  lemma RebalancedTrans(a: Store, b: Store, c: Store)
    requires Rebalanced(a, b) && Rebalanced(b, c)
    ensures Rebalanced(a, c)
  {
    if c.root != a.root {
      if b.root != a.root {
        var i :| |a.log| <= i < |b.log| && b.log[i] == LogErase(a.root);
        assert c.log[i] == LogErase(a.root);
      } else {
        var i :| |b.log| <= i < |c.log| && c.log[i] == LogErase(a.root);
        assert c.log[|a.log|..][i - |a.log|] == LogErase(a.root);
      }
    }
  }

  /** A borrow or merge step keeps the root and the metadata and only rewrites pages and appends to the log. */
  lemma LeafStepKeeps(st: Store, pid: int, parent: Node, index: nat, leafId: int, leaf: Node, degree: int)
    requires AllShapeOk(st.pages) && parent.Internal? && ShapeOk(parent) && index < |parent.children|
    requires leaf.Leaf? && ShapeOk(leaf)
    requires LeafStep(st, pid, parent, index, leafId, leaf, degree).Some?
    ensures var b := LeafStep(st, pid, parent, index, leafId, leaf, degree).value.st;
      Rebalanced(st, b) && b.root == st.root && b.metaRoot == st.metaRoot
  {
  }

  lemma InternalStepKeeps(st: Store, pid: int, parent: Node, index: nat, nodeId: int, node: Node, degree: int)
    requires AllShapeOk(st.pages) && parent.Internal? && ShapeOk(parent) && index < |parent.children|
    requires node.Internal? && ShapeOk(node)
    requires InternalStep(st, pid, parent, index, nodeId, node, degree).Some?
    ensures var b := InternalStep(st, pid, parent, index, nodeId, node, degree).value.st;
      Rebalanced(st, b) && b.root == st.root && b.metaRoot == st.metaRoot
  {
  }

  /**
   * Internal underflow handling neither allocates nor frees ids; the root
   * changes only by the collapse of a one-child root, which logs the old
   * root as deleted and updates the metadata with it.
   */
  lemma {:induction false} InternalUnderflowRebalanced(st: Store, nodeId: int, node: Node, degree: int, fuel: nat)
    requires AllShapeOk(st.pages) && node.Internal? && ShapeOk(node)
    requires HandleInternalUnderflow(st, nodeId, node, degree, fuel).Some?
    ensures Rebalanced(st, HandleInternalUnderflow(st, nodeId, node, degree, fuel).value)
    decreases fuel
  {
    var r := HandleInternalUnderflow(st, nodeId, node, degree, fuel).value;
    if nodeId == st.root {
      if |node.children| == 1 {
        assert r.log[|st.log|..] == [LogErase(nodeId)];
      }
    } else {
      var pid := FindParent(st.pages, st.root, nodeId, |st.pages|).parentId;
      var parent := st.pages[pid];
      var index := IndexOf(parent.children, nodeId);
      InternalStepKeeps(st, pid, parent, index, nodeId, node, degree);
      var o := InternalStep(st, pid, parent, index, nodeId, node, degree).value;
      if !o.borrowed && |o.parent.keys| < CsHalf(degree) - 1 {
        InternalUnderflowRebalanced(o.st, pid, o.parent, degree, fuel - 1);
        RebalancedTrans(st, o.st, r);
      }
    }
  }

  lemma LeafUnderflowRebalanced(st: Store, leafId: int, leaf: Node, degree: int)
    requires AllShapeOk(st.pages) && leaf.Leaf? && ShapeOk(leaf)
    requires HandleLeafUnderflow(st, leafId, leaf, degree).Some?
    ensures Rebalanced(st, HandleLeafUnderflow(st, leafId, leaf, degree).value.0)
  {
    var r := HandleLeafUnderflow(st, leafId, leaf, degree).value.0;
    var f := FindParent(st.pages, st.root, leafId, |st.pages|);
    if f.Found? {
      var parent := st.pages[f.parentId];
      var index := IndexOf(parent.children, leafId);
      LeafStepKeeps(st, f.parentId, parent, index, leafId, leaf, degree);
      var o := LeafStep(st, f.parentId, parent, index, leafId, leaf, degree).value;
      if !o.borrowed && |o.parent.keys| < CeilHalf(degree) - 1 {
        InternalUnderflowRebalanced(o.st, f.parentId, o.parent, degree, |o.st.pages|);
        RebalancedTrans(st, o.st, r);
      }
    }
  }

  /**
   * Delete of a present key first logs a delete of the leaf's page and frees
   * it, and only it: pages merged away are logged as deleted but never
   * freed, and no id is allocated. It ends by writing the leaf object twice,
   * to the log and through PutPage, so the leaf's page holds it again.
   */
  lemma DeleteInLeafLog(st: Store, leafId: int, leaf: Node, key: int, degree: int)
    requires AllShapeOk(st.pages) && leaf.Leaf? && ShapeOk(leaf) && key in leaf.keys
    requires DeleteInLeaf(st, leafId, leaf, key, degree).Some?
    ensures var r := DeleteInLeaf(st, leafId, leaf, key, degree).value;
      && r.freed == st.freed + [leafId] && r.nextId == st.nextId
      && st.log + [LogErase(leafId)] <= r.log
      && |r.log| >= |st.log| + 3 && leafId in r.pages
      && r.log[|r.log| - 1] == r.log[|r.log| - 2] == LogWrite(leafId, r.pages[leafId])
  {
    var shrunk := LeafRemove(leaf, IndexOf(leaf.keys, key));
    var st1 := st.(log := st.log + [LogErase(leafId)], freed := st.freed + [leafId]);
    if |shrunk.keys| < CeilHalf(degree) {
      LeafUnderflowRebalanced(st1, leafId, shrunk, degree);
    }
  }

  /** Delete keeps the metadata's root id equal to the tree's. */
  lemma DeleteKeepsMetaRoot(st: Store, key: int, degree: int)
    requires AllShapeOk(st.pages) && st.metaRoot == st.root
    requires DeleteSpec(st, key, degree).Some?
    ensures DeleteSpec(st, key, degree).value.metaRoot == DeleteSpec(st, key, degree).value.root
  {
    var (leafId, leaf) := Descend(st.pages, st.root, key, |st.pages|).value;
    if key in leaf.keys {
      var shrunk := LeafRemove(leaf, IndexOf(leaf.keys, key));
      var st1 := st.(log := st.log + [LogErase(leafId)], freed := st.freed + [leafId]);
      if |shrunk.keys| < CeilHalf(degree) {
        LeafUnderflowRebalanced(st1, leafId, shrunk, degree);
      }
    }
  }

  /** Insert keeps the metadata's root id equal to the tree's. */
  lemma InsertKeepsMetaRoot(st: Store, key: int, value: Value, degree: int)
    requires AllShapeOk(st.pages) && st.metaRoot == st.root
    requires InsertTop(st, key, value, degree).Some?
    ensures InsertTop(st, key, value, degree).value.metaRoot == InsertTop(st, key, value, degree).value.root
  {
    InsertRootChange(st, key, value, degree);
  }

  // ---- lookups after an update ----

  /**
   * Where the leaf the descent from `id` reaches can take the key without
   * splitting, InsertRecursive rewrites that leaf and nothing else: the
   * internal nodes on the way are saved again unchanged.
   */
  lemma {:induction false} InsertRecNoSplit(st: Store, id: int, key: int, value: Value, degree: int, fuel: nat)
    requires AllShapeOk(st.pages) && id in st.pages
    requires var d := Descend(st.pages, id, key, fuel);
      && d.Some? && |d.value.1.values| == |d.value.1.keys|
      && |Upsert(d.value.1.keys, d.value.1.values, key, value).0| <= degree
    ensures var (leafId, leaf) := Descend(st.pages, id, key, fuel).value;
      var (ks, vs) := Upsert(leaf.keys, leaf.values, key, value);
      var r := InsertRec(st, id, st.pages[id], key, value, degree, fuel);
      && r.Some? && r.value.1 == NoSplit && r.value.0.pages == st.pages[leafId := Leaf(ks, vs, leaf.next)]
      && r.value.0.nextId == st.nextId
    decreases fuel
  {
    ShapeAt(st.pages, id);
    var node := st.pages[id];
    if node.Internal? {
      var childId := node.children[ChildIndex(node.keys, key)];
      InsertRecNoSplit(st, childId, key, value, degree, fuel - 1);
      var (leafId, leaf) := Descend(st.pages, id, key, fuel).value;
      var (ks, vs) := Upsert(leaf.keys, leaf.values, key, value);
      var p1 := st.pages[leafId := Leaf(ks, vs, leaf.next)];
      assert id != leafId;
      assert p1[id := node] == p1;
    }
  }

  /**
   * Where the key's leaf is sorted and has room, Insert followed by Search
   * finds the inserted value, and every other key's answer is what it was;
   * the root stays and no page id is allocated.
   */
  lemma InsertThenSearch(st: Store, key: int, value: Value, degree: int, k: int)
    requires AllShapeOk(st.pages) && st.root in st.pages
    requires var d := Descend(st.pages, st.root, key, |st.pages|);
      && d.Some? && StrictlyAscending(d.value.1.keys) && |d.value.1.values| == |d.value.1.keys|
      && |Upsert(d.value.1.keys, d.value.1.values, key, value).0| <= degree
    ensures InsertTop(st, key, value, degree).Some?
    ensures var r := InsertTop(st, key, value, degree).value;
      && r.root == st.root && r.nextId == st.nextId
      && SearchSpec(r.pages, r.root, key) == Some(Some(value))
      && (k != key ==> SearchSpec(r.pages, r.root, k) == SearchSpec(st.pages, st.root, k))
  {
    var (leafId, leaf) := Descend(st.pages, st.root, key, |st.pages|).value;
    InsertRecNoSplit(st, st.root, key, value, degree, |st.pages|);
    ShapeAt(st.pages, leafId);
    UpsertSpec(leaf.keys, leaf.values, key, value);
    var (ks, vs) := Upsert(leaf.keys, leaf.values, key, value);
    SearchAfterLeafWrite(st.pages, st.root, key, leafId, Leaf(ks, vs, leaf.next));
    SearchAfterLeafWrite(st.pages, st.root, k, leafId, Leaf(ks, vs, leaf.next));
  }

  /**
   * Where the key's sorted leaf keeps at least ceil(degree/2) keys, Delete
   * rewrites only that leaf: Search then returns null for the key, every
   * other key's answer is what it was, and the root stays.
   */
  lemma DeleteThenSearch(st: Store, key: int, degree: int, k: int)
    requires AllShapeOk(st.pages)
    requires var d := Descend(st.pages, st.root, key, |st.pages|);
      && d.Some? && StrictlyAscending(d.value.1.keys) && key in d.value.1.keys
      && |d.value.1.keys| - 1 >= CeilHalf(degree)
    ensures DeleteSpec(st, key, degree).Some?
    ensures var r := DeleteSpec(st, key, degree).value;
      && r.root == st.root && r.nextId == st.nextId
      && SearchSpec(r.pages, r.root, key) == Some(None)
      && (k != key ==> SearchSpec(r.pages, r.root, k) == SearchSpec(st.pages, st.root, k))
  {
    var (leafId, leaf) := Descend(st.pages, st.root, key, |st.pages|).value;
    ShapeAt(st.pages, leafId);
    LeafRemoveSpec(leaf, key);
    var shrunk := LeafRemove(leaf, IndexOf(leaf.keys, key));
    SearchAfterLeafWrite(st.pages, st.root, key, leafId, shrunk);
    SearchAfterLeafWrite(st.pages, st.root, k, leafId, shrunk);
  }
}
