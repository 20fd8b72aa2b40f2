/**
 * Properties of the in-memory tree's operations: lookups after an insert or
 * a delete that needs no restructuring, the delete of an absent key, how
 * the root may change, and what a delete does to the set of handles.
 */
module MemProps {
  import opened Wrappers
  import opened Bytes
  import opened Nodes
  import opened NodeOps
  import opened PagedSearch
  import opened TreeWalk
  import opened MemTree

  /** Delete of a key the leaf FindLeafNode picks does not hold leaves the tree as it was. */
  lemma DeleteAbsentKey(h: Heap, key: int, degree: int)
    requires AllShapeOk(h.nodes)
    requires var d := Descend(h.nodes, h.root, key, |h.nodes|); d.Some? && key !in d.value.1.keys
    ensures DeleteKey(h, key, degree) == Some(h)
  {
  }

  /**
   * Where the key's leaf is sorted and has room, Insert changes only that
   * leaf: Search then finds the new value, and every other key's answer is
   * what it was.
   */
  lemma InsertThenSearch(h: Heap, key: int, value: Value, degree: int, k: int)
    requires AllShapeOk(h.nodes)
    requires var d := Descend(h.nodes, h.root, key, |h.nodes|);
      && d.Some? && StrictlyAscending(d.value.1.keys) && |d.value.1.values| == |d.value.1.keys|
      && |Upsert(d.value.1.keys, d.value.1.values, key, value).0| <= degree
    ensures InsertKey(h, key, value, degree).Some?
    ensures var r := InsertKey(h, key, value, degree).value;
      && r.root == h.root && r.nextHandle == h.nextHandle
      && SearchSpec(r.nodes, r.root, key) == Some(Some(value))
      && (k != key ==> SearchSpec(r.nodes, r.root, k) == SearchSpec(h.nodes, h.root, k))
    ensures LeavesSorted(h.nodes) ==>
      var r := InsertKey(h, key, value, degree).value;
      && BinarySearchSpec(r.nodes, r.root, key) == Some(Some(value))
      && (k != key ==> BinarySearchSpec(r.nodes, r.root, k) == BinarySearchSpec(h.nodes, h.root, k))
  {
    var (leafId, leaf) := Descend(h.nodes, h.root, key, |h.nodes|).value;
    ShapeAt(h.nodes, leafId);
    UpsertSpec(leaf.keys, leaf.values, key, value);
    var (ks, vs) := Upsert(leaf.keys, leaf.values, key, value);
    SearchAfterLeafWrite(h.nodes, h.root, key, leafId, Leaf(ks, vs, leaf.next));
    SearchAfterLeafWrite(h.nodes, h.root, k, leafId, Leaf(ks, vs, leaf.next));
    if LeavesSorted(h.nodes) {
      var after := h.nodes[leafId := Leaf(ks, vs, leaf.next)];
      assert InsertKey(h, key, value, degree).value.nodes == after;
      assert LeavesSorted(after);
      BinarySearchSpecSorted(h.nodes, h.root, key);
      BinarySearchSpecSorted(h.nodes, h.root, k);
      BinarySearchSpecSorted(after, h.root, key);
      BinarySearchSpecSorted(after, h.root, k);
    }
  }

  /**
   * Where the key's leaf is sorted and is the root or keeps at least
   * ceil(degree/2) keys, Delete only removes the entry: Search then returns
   * null for the key, and every other key's answer is what it was.
   */
  lemma DeleteThenSearch(h: Heap, key: int, degree: int, k: int)
    requires AllShapeOk(h.nodes)
    requires var d := Descend(h.nodes, h.root, key, |h.nodes|);
      && d.Some? && StrictlyAscending(d.value.1.keys) && key in d.value.1.keys
      && (d.value.0 == h.root || |d.value.1.keys| - 1 >= CeilHalf(degree))
    ensures DeleteKey(h, key, degree).Some?
    ensures var r := DeleteKey(h, key, degree).value;
      && r.root == h.root && r.nextHandle == h.nextHandle
      && SearchSpec(r.nodes, r.root, key) == Some(None)
      && (k != key ==> SearchSpec(r.nodes, r.root, k) == SearchSpec(h.nodes, h.root, k))
    ensures LeavesSorted(h.nodes) ==>
      var r := DeleteKey(h, key, degree).value;
      && BinarySearchSpec(r.nodes, r.root, key) == Some(None)
      && (k != key ==> BinarySearchSpec(r.nodes, r.root, k) == BinarySearchSpec(h.nodes, h.root, k))
  {
    var (leafId, leaf) := Descend(h.nodes, h.root, key, |h.nodes|).value;
    ShapeAt(h.nodes, leafId);
    LeafRemoveSpec(leaf, key);
    var shrunk := LeafRemove(leaf, IndexOf(leaf.keys, key));
    SearchAfterLeafWrite(h.nodes, h.root, key, leafId, shrunk);
    SearchAfterLeafWrite(h.nodes, h.root, k, leafId, shrunk);
    if LeavesSorted(h.nodes) {
      var after := h.nodes[leafId := shrunk];
      assert DeleteKey(h, key, degree).value.nodes == after;
      assert LeavesSorted(after);
      BinarySearchSpecSorted(h.nodes, h.root, key);
      BinarySearchSpecSorted(h.nodes, h.root, k);
      BinarySearchSpecSorted(after, h.root, key);
      BinarySearchSpecSorted(after, h.root, k);
    }
  }

  // ---- the root ----

  /**
   * The root a split leaves: the old root, or a new internal node at a
   * handle no node had, with one key and the old root as its first of two
   * children.
   */
  predicate GrownFrom(h: Heap, r: Heap) {
    || r.root == h.root
    || (&& r.root !in h.nodes && r.root in r.nodes && r.nodes[r.root].Internal?
        && |r.nodes[r.root].keys| == 1 && |r.nodes[r.root].children| == 2
        && r.nodes[r.root].children[0] == h.root)
  }

  /** InsertInParent and SplitInternalNode change the root only by growing a new one over it. */
  lemma {:induction false} ParentInsertRoot(h: Heap, left: int, key: int, right: int, degree: int, fuel: nat)
    requires AllShapeOk(h.nodes) && Fresh(h)
    requires InsertInParent(h, left, key, right, degree, fuel).Some?
    ensures GrownFrom(h, InsertInParent(h, left, key, right, degree, fuel).value)
    decreases fuel, 1
  {
    if left != h.root {
      var pid := FindParent(h.nodes, h.root, left, |h.nodes|).parentId;
      var parent := h.nodes[pid];
      var grown := InsertChild(parent, IndexOf(parent.children, left), key, right);
      var h1 := h.(nodes := h.nodes[pid := grown]);
      if |grown.keys| > degree {
        SplitInternalRoot(h1, pid, grown, degree, fuel);
      }
    }
  }

  lemma {:induction false} SplitInternalRoot(h: Heap, id: int, node: Node, degree: int, fuel: nat)
    requires AllShapeOk(h.nodes) && Fresh(h) && id in h.nodes
    requires node.Internal? && ShapeOk(node) && |node.keys| >= 1
    requires SplitInternalNode(h, id, node, degree, fuel).Some?
    ensures GrownFrom(h, SplitInternalNode(h, id, node, degree, fuel).value)
    decreases fuel, 0
  {
    var (left, right, midKey) := SplitInternal(node);
    var (h1, newId) := Alloc(h.(nodes := h.nodes[id := left]), right);
    ParentInsertRoot(h1, id, midKey, newId, degree, fuel - 1);
  }

  /** Insert raises the height only by a new root over the old one; no other path changes the root. */
  lemma InsertRootChange(h: Heap, key: int, value: Value, degree: int)
    requires AllShapeOk(h.nodes) && Fresh(h)
    requires InsertKey(h, key, value, degree).Some?
    ensures GrownFrom(h, InsertKey(h, key, value, degree).value)
  {
    var (leafId, leaf) := Descend(h.nodes, h.root, key, |h.nodes|).value;
    ShapeAt(h.nodes, leafId);
    var (ks, vs) := Upsert(leaf.keys, leaf.values, key, value);
    var updated := Leaf(ks, vs, leaf.next);
    var h1 := h.(nodes := h.nodes[leafId := updated]);
    if |ks| > degree {
      var (l, rt, k) := SplitLeaf(updated, h1.nextHandle);
      var (h2, newId) := Alloc(h1.(nodes := h1.nodes[leafId := l]), rt);
      ParentInsertRoot(h2, leafId, k, newId, degree, |h2.nodes|);
    }
  }

  // ---- handles under deletion ----

  /**
   * From `a` to `b` no node was created: the same handles hold nodes, the
   * handle counter is unchanged, and the root is a node that already existed.
   */
  predicate SameHandles(a: Heap, b: Heap) {
    b.nodes.Keys == a.nodes.Keys && b.nextHandle == a.nextHandle && (b.root == a.root || b.root in a.nodes)
  }

  lemma {:induction false} InternalUnderflowHandles(h: Heap, nodeId: int, node: Node, degree: int, fuel: nat)
    requires AllShapeOk(h.nodes) && node.Internal? && ShapeOk(node) && nodeId in h.nodes
    requires HandleInternalUnderflow(h, nodeId, node, degree, fuel).Some?
    ensures SameHandles(h, HandleInternalUnderflow(h, nodeId, node, degree, fuel).value)
    decreases fuel, 1
  {
    if FindParent(h.nodes, h.root, nodeId, |h.nodes|).Found? {
      var pid := FindParent(h.nodes, h.root, nodeId, |h.nodes|).parentId;
      var parent := h.nodes[pid];
      var index := IndexOf(parent.children, nodeId);
      var leftId := if index > 0 then parent.children[index - 1] else nodeId;
      var rightId := if index < |parent.children| - 1 then parent.children[index + 1] else nodeId;
      var hasLeft := index > 0 && IsInternalAt(h, leftId);
      var hasRight := index < |parent.children| - 1 && IsInternalAt(h, rightId);
      if hasLeft && |h.nodes[leftId].keys| > CsHalf(degree) {
      } else if hasRight && |h.nodes[rightId].keys| > CsHalf(degree) {
      } else if hasLeft {
        MergeInternalsHandles(h, pid, parent, index - 1, leftId, h.nodes[leftId], nodeId, node, degree, fuel);
      } else if hasRight {
        MergeInternalsHandles(h, pid, parent, index, nodeId, node, rightId, h.nodes[rightId], degree, fuel);
      }
    }
  }

  lemma {:induction false} MergeInternalsHandles(h: Heap, pid: int, parent: Node, index: nat, leftId: int, left: Node,
                                                 rightId: int, right: Node, degree: int, fuel: nat)
    requires AllShapeOk(h.nodes) && parent.Internal? && ShapeOk(parent) && index < |parent.keys|
    requires left.Internal? && right.Internal? && ShapeOk(left) && ShapeOk(right)
    requires leftId in h.nodes && pid in h.nodes
    requires MergeInternals(h, pid, parent, index, leftId, left, rightId, right, degree, fuel).Some?
    ensures SameHandles(h, MergeInternals(h, pid, parent, index, leftId, left, rightId, right, degree, fuel).value)
    decreases fuel, 0
  {
    var p := Unlink(parent, index);
    var h1 := h.(nodes := h.nodes[leftId := InternalMerge(left, right, parent.keys[index])][pid := p]);
    assert h1.nodes.Keys == h.nodes.Keys;
    if !(pid == h.root && |p.keys| == 0) && |p.keys| < CeilHalf(degree) - 1 {
      InternalUnderflowHandles(h1, pid, p, degree, fuel - 1);
    }
  }

  lemma LeafUnderflowHandles(h: Heap, leafId: int, leaf: Node, degree: int)
    requires AllShapeOk(h.nodes) && leaf.Leaf? && ShapeOk(leaf) && leafId in h.nodes
    requires HandleUnderflow(h, leafId, leaf, degree).Some?
    ensures SameHandles(h, HandleUnderflow(h, leafId, leaf, degree).value)
  {
    if FindParent(h.nodes, h.root, leafId, |h.nodes|).Found? {
      var pid := FindParent(h.nodes, h.root, leafId, |h.nodes|).parentId;
      var parent := h.nodes[pid];
      var index := IndexOf(parent.children, leafId);
      var leftId := if index > 0 then parent.children[index - 1] else leafId;
      var rightId := if index < |parent.children| - 1 then parent.children[index + 1] else leafId;
      var hasLeft := index > 0 && IsLeafAt(h, leftId);
      var hasRight := index < |parent.children| - 1 && IsLeafAt(h, rightId);
      if hasLeft && |h.nodes[leftId].keys| > CsHalf(degree) {
      } else if hasRight && |h.nodes[rightId].keys| > CsHalf(degree) {
      } else if hasLeft {
        MergeLeavesHandles(h, pid, parent, index - 1, leftId, h.nodes[leftId], leafId, leaf, degree);
      } else if hasRight {
        MergeLeavesHandles(h, pid, parent, index, leafId, leaf, rightId, h.nodes[rightId], degree);
      }
    }
  }

  lemma MergeLeavesHandles(h: Heap, pid: int, parent: Node, index: nat, leftId: int, left: Node,
                           rightId: int, right: Node, degree: int)
    requires AllShapeOk(h.nodes) && parent.Internal? && ShapeOk(parent) && index < |parent.keys|
    requires left.Leaf? && right.Leaf? && ShapeOk(left) && ShapeOk(right)
    requires leftId in h.nodes && pid in h.nodes
    requires MergeLeaves(h, pid, parent, index, leftId, left, rightId, right, degree).Some?
    ensures SameHandles(h, MergeLeaves(h, pid, parent, index, leftId, left, rightId, right, degree).value)
  {
    var p := Unlink(parent, index);
    var h1 := h.(nodes := h.nodes[leftId := LeafMerge(left, right)][pid := p]);
    assert h1.nodes.Keys == h.nodes.Keys;
    if !(pid == h.root && |p.keys| == 0) && |p.keys| < CeilHalf(degree) {
      InternalUnderflowHandles(h1, pid, p, degree, |h1.nodes|);
    }
  }

  /**
   * Delete creates no node and drops no handle; merged-away nodes stay in
   * the heap, unreachable. The root only ever becomes a node that already
   * existed (the node a merge kept).
   */
  lemma DeleteKeepsHandles(h: Heap, key: int, degree: int)
    requires AllShapeOk(h.nodes)
    requires DeleteKey(h, key, degree).Some?
    ensures SameHandles(h, DeleteKey(h, key, degree).value)
  {
    var (leafId, leaf) := Descend(h.nodes, h.root, key, |h.nodes|).value;
    ShapeAt(h.nodes, leafId);
    var i := IndexOf(leaf.keys, key);
    if i >= 0 {
      var shrunk := LeafRemove(leaf, i);
      var h1 := h.(nodes := h.nodes[leafId := shrunk]);
      assert h1.nodes.Keys == h.nodes.Keys;
      if !(leafId == h.root || |shrunk.keys| >= CeilHalf(degree)) {
        LeafUnderflowHandles(h1, leafId, shrunk, degree);
      }
    }
  }
}
