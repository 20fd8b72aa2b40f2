/**
 * The in-memory B+ tree (BPlusTree with InsertionService, DeletionService,
 * SearchService and NodeFinderService). Node objects are modelled as a heap
 * from handles to node values: an internal node lists its children's
 * handles and a leaf its Next leaf's handle. `new` hands out a handle no
 * node has yet. NodeFinderService.FindParent compares children by reference
 * and only an internal node can list the child, so it is PagedSearch's
 * FindParent over handles; FindLeafNode is TreeWalk's Descend.
 */
module MemTree {
  import opened Wrappers
  import opened Bytes
  import opened Nodes
  import opened NodeOps
  import opened PagedSearch
  import opened TreeWalk

  /** The nodes, the tree's Root and the next handle `new` returns. */
  datatype Heap = Heap(nodes: map<int, Node>, root: int, nextHandle: int)

  /** Every node's handle was handed out before `nextHandle`. */
  predicate Fresh(h: Heap) {
    forall id :: id in h.nodes ==> id < h.nextHandle
  }

  /** `new`: a node at a handle no node has yet. */
  function Alloc(h: Heap, n: Node): (r: (Heap, int))
    ensures r.1 == h.nextHandle && r.0.nextHandle == h.nextHandle + 1 && r.0.root == h.root
    ensures r.0.nodes == h.nodes[h.nextHandle := n]
    ensures Fresh(h) ==> Fresh(r.0) && r.1 !in h.nodes
  {
    (h.(nodes := h.nodes[h.nextHandle := n], nextHandle := h.nextHandle + 1), h.nextHandle)
  }

  predicate IsLeafAt(h: Heap, id: int) { id in h.nodes && h.nodes[id].Leaf? }
  predicate IsInternalAt(h: Heap, id: int) { id in h.nodes && h.nodes[id].Internal? }

  /** What every step keeps: node shapes, fresh handles, and a root that is a node. */
  predicate Good(h: Heap) {
    AllShapeOk(h.nodes) && Fresh(h) && h.root in h.nodes
  }

  // ---- insertion ----

  /**
   * InsertInParent: at the root, a new internal root with keys [key] and
   * children [left, right]; elsewhere the key goes in at left's index in
   * the parent FindParent returns and `right` just after left, and a parent
   * with more than `degree` keys is split in turn. None where the source
   * dereferences a null parent, or the splits climb more than `fuel` levels.
   */
  function InsertInParent(h: Heap, left: int, key: int, right: int, degree: int, fuel: nat): (r: Option<Heap>)
    requires AllShapeOk(h.nodes)
    ensures r.Some? ==> AllShapeOk(r.value.nodes)
    ensures r.Some? && Good(h) ==> Good(r.value)
    decreases fuel, 1
  {
    if left == h.root then
      var (h1, rootId) := Alloc(h, Internal([key], [left, right]));
      Some(h1.(root := rootId))
    else match FindParent(h.nodes, h.root, left, |h.nodes|)
      case Found(pid) =>
        var parent := h.nodes[pid];
        var grown := InsertChild(parent, IndexOf(parent.children, left), key, right);
        var h1 := h.(nodes := h.nodes[pid := grown]);
        if |grown.keys| > degree then SplitInternalNode(h1, pid, grown, degree, fuel) else Some(h1)
      case _ => None
  }

  /** SplitInternalNode: the node keeps the left half, a new node takes the right, and the middle key goes up. */
  function SplitInternalNode(h: Heap, id: int, node: Node, degree: int, fuel: nat): (r: Option<Heap>)
    requires AllShapeOk(h.nodes) && node.Internal? && ShapeOk(node) && |node.keys| >= 1
    ensures r.Some? ==> AllShapeOk(r.value.nodes)
    ensures r.Some? && Good(h) && id in h.nodes ==> Good(r.value)
    decreases fuel, 0
  {
    var (left, right, midKey) := SplitInternal(node);
    var (h1, newId) := Alloc(h.(nodes := h.nodes[id := left]), right);
    if fuel == 0 then None else InsertInParent(h1, id, midKey, newId, degree, fuel - 1)
  }

  /** SplitLeaf: the leaf keeps [0, count/2), a new leaf after it takes the rest; its first key goes up. */
  function SplitLeafNode(h: Heap, leafId: int, leaf: Node, degree: int): (r: Option<Heap>)
    requires AllShapeOk(h.nodes) && leaf.Leaf? && ShapeOk(leaf) && |leaf.keys| >= 1
    ensures r.Some? ==> AllShapeOk(r.value.nodes)
    ensures r.Some? && Good(h) && leafId in h.nodes ==> Good(r.value)
  {
    var (left, right, key) := SplitLeaf(leaf, h.nextHandle);
    var (h1, newId) := Alloc(h.(nodes := h.nodes[leafId := left]), right);
    InsertInParent(h1, leafId, key, newId, degree, |h1.nodes|)
  }

  /** InsertInLeaf: upsert at the BinarySearch position, then split a leaf holding more than `degree` keys. */
  function InsertInLeaf(h: Heap, leafId: int, leaf: Node, key: int, value: Value, degree: int): (r: Option<Heap>)
    requires AllShapeOk(h.nodes) && leaf.Leaf? && ShapeOk(leaf)
    ensures r.Some? ==> AllShapeOk(r.value.nodes)
    ensures r.Some? && Good(h) && leafId in h.nodes ==> Good(r.value)
  {
    var (ks, vs) := Upsert(leaf.keys, leaf.values, key, value);
    var updated := Leaf(ks, vs, leaf.next);
    var h1 := h.(nodes := h.nodes[leafId := updated]);
    if |ks| > degree then SplitLeafNode(h1, leafId, updated, degree) else Some(h1)
  }

  /** Insert: FindLeafNode, then InsertInLeaf. */
  function InsertKey(h: Heap, key: int, value: Value, degree: int): (r: Option<Heap>)
    requires AllShapeOk(h.nodes)
    ensures r.Some? ==> AllShapeOk(r.value.nodes)
    ensures r.Some? && Good(h) ==> Good(r.value)
  {
    match Descend(h.nodes, h.root, key, |h.nodes|)
    case None => None
    case Some((leafId, leaf)) => InsertInLeaf(h, leafId, leaf, key, value, degree)
  }

  // ---- deletion ----

  /** The parent after a merge: the separator at `index` and the child after it are gone. */
  function Unlink(parent: Node, index: nat): (r: Node)
    requires parent.Internal? && ShapeOk(parent) && index < |parent.keys|
    ensures r.Internal? && ShapeOk(r) && |r.keys| == |parent.keys| - 1
  {
    Internal(RemoveAt(parent.keys, index), RemoveAt(parent.children, index + 1))
  }

  /**
   * Delete: FindLeafNode; an absent key changes nothing; otherwise the entry
   * is removed, and a leaf that is not the root and is left with fewer than
   * ceil(degree/2) keys is repaired. None where the source throws.
   */
  function DeleteKey(h: Heap, key: int, degree: int): (r: Option<Heap>)
    requires AllShapeOk(h.nodes)
    ensures r.Some? ==> AllShapeOk(r.value.nodes)
    ensures r.Some? && Good(h) ==> Good(r.value)
  {
    match Descend(h.nodes, h.root, key, |h.nodes|)
    case None => None
    case Some((leafId, leaf)) =>
      var i := IndexOf(leaf.keys, key);
      if i < 0 then Some(h)
      else
        var shrunk := LeafRemove(leaf, i);
        var h1 := h.(nodes := h.nodes[leafId := shrunk]);
        if leafId == h.root || |shrunk.keys| >= CeilHalf(degree) then Some(h1)
        else HandleUnderflow(h1, leafId, shrunk, degree)
  }

  /**
   * HandleUnderflow for a leaf: no parent, nothing to do. Otherwise, in
   * this order: borrow from a left sibling that is a leaf with more than
   * degree/2 keys, the same from the right, merge into a left leaf sibling,
   * merge a right leaf sibling in, or nothing. None where the source throws:
   * a borrow from an empty sibling, or a right borrow that empties it.
   */
  function HandleUnderflow(h: Heap, leafId: int, leaf: Node, degree: int): (r: Option<Heap>)
    requires AllShapeOk(h.nodes) && leaf.Leaf? && ShapeOk(leaf)
    ensures r.Some? ==> AllShapeOk(r.value.nodes)
    ensures r.Some? && Good(h) && leafId in h.nodes ==> Good(r.value)
  {
    match FindParent(h.nodes, h.root, leafId, |h.nodes|)
    case Broken => None
    case Absent => Some(h)
    case Found(pid) =>
      var parent := h.nodes[pid];
      var index := IndexOf(parent.children, leafId);
      var leftId := if index > 0 then parent.children[index - 1] else leafId;
      var rightId := if index < |parent.children| - 1 then parent.children[index + 1] else leafId;
      var hasLeft := index > 0 && IsLeafAt(h, leftId);
      var hasRight := index < |parent.children| - 1 && IsLeafAt(h, rightId);
      if hasLeft && |h.nodes[leftId].keys| > CsHalf(degree) then
        var left := h.nodes[leftId];
        if |left.keys| == 0 then None
        else
          var (l, t) := LeafBorrowLeft(left, leaf);
          var p := Internal(parent.keys[index - 1 := t.keys[0]], parent.children);
          Some(h.(nodes := h.nodes[leftId := l][leafId := t][pid := p]))
      else if hasRight && |h.nodes[rightId].keys| > CsHalf(degree) then
        var right := h.nodes[rightId];
        if |right.keys| == 0 then None
        else
          var (t, rt) := LeafBorrowRight(leaf, right);
          if |rt.keys| == 0 then None
          else
            var p := Internal(parent.keys[index := rt.keys[0]], parent.children);
            Some(h.(nodes := h.nodes[rightId := rt][leafId := t][pid := p]))
      else if hasLeft then MergeLeaves(h, pid, parent, index - 1, leftId, h.nodes[leftId], leafId, leaf, degree)
      else if hasRight then MergeLeaves(h, pid, parent, index, leafId, leaf, rightId, h.nodes[rightId], degree)
      else Some(h)
  }

  /**
   * MergeLeafNodes: `right` is appended to `left`, which takes its Next;
   * the parent loses the separator at `index` and the child after it. A
   * root parent left without keys is replaced by the merged leaf; otherwise
   * a parent with fewer than ceil(degree/2) keys is repaired.
   */
  function MergeLeaves(h: Heap, pid: int, parent: Node, index: nat, leftId: int, left: Node,
                       rightId: int, right: Node, degree: int): (r: Option<Heap>)
    requires AllShapeOk(h.nodes) && parent.Internal? && ShapeOk(parent) && index < |parent.keys|
    requires left.Leaf? && right.Leaf? && ShapeOk(left) && ShapeOk(right)
    ensures r.Some? ==> AllShapeOk(r.value.nodes)
    ensures r.Some? && Good(h) && leftId in h.nodes && pid in h.nodes ==> Good(r.value)
  {
    var p := Unlink(parent, index);
    var h1 := h.(nodes := h.nodes[leftId := LeafMerge(left, right)][pid := p]);
    if pid == h.root && |p.keys| == 0 then Some(h1.(root := leftId))
    else if |p.keys| < CeilHalf(degree) then HandleInternalUnderflow(h1, pid, p, degree, |h1.nodes|)
    else Some(h1)
  }

  /**
   * HandleInternalUnderflow: the same order as for leaves over internal
   * siblings, with the same degree/2 borrow threshold and separator
   * rotation. A node without a parent (the root) is left alone.
   */
  function HandleInternalUnderflow(h: Heap, nodeId: int, node: Node, degree: int, fuel: nat): (r: Option<Heap>)
    requires AllShapeOk(h.nodes) && node.Internal? && ShapeOk(node)
    ensures r.Some? ==> AllShapeOk(r.value.nodes)
    ensures r.Some? && Good(h) && nodeId in h.nodes ==> Good(r.value)
    decreases fuel, 1
  {
    match FindParent(h.nodes, h.root, nodeId, |h.nodes|)
    case Broken => None
    case Absent => Some(h)
    case Found(pid) =>
      var parent := h.nodes[pid];
      var index := IndexOf(parent.children, nodeId);
      var leftId := if index > 0 then parent.children[index - 1] else nodeId;
      var rightId := if index < |parent.children| - 1 then parent.children[index + 1] else nodeId;
      var hasLeft := index > 0 && IsInternalAt(h, leftId);
      var hasRight := index < |parent.children| - 1 && IsInternalAt(h, rightId);
      if hasLeft && |h.nodes[leftId].keys| > CsHalf(degree) then
        var left := h.nodes[leftId];
        if |left.keys| == 0 then None
        else
          var (l, t, up) := InternalBorrowLeft(left, node, parent.keys[index - 1]);
          var p := Internal(parent.keys[index - 1 := up], parent.children);
          Some(h.(nodes := h.nodes[leftId := l][nodeId := t][pid := p]))
      else if hasRight && |h.nodes[rightId].keys| > CsHalf(degree) then
        var right := h.nodes[rightId];
        if |right.keys| == 0 then None
        else
          var (t, rt, up) := InternalBorrowRight(node, right, parent.keys[index]);
          var p := Internal(parent.keys[index := up], parent.children);
          Some(h.(nodes := h.nodes[rightId := rt][nodeId := t][pid := p]))
      else if hasLeft then
        MergeInternals(h, pid, parent, index - 1, leftId, h.nodes[leftId], nodeId, node, degree, fuel)
      else if hasRight then
        MergeInternals(h, pid, parent, index, nodeId, node, rightId, h.nodes[rightId], degree, fuel)
      else Some(h)
  }

  /**
   * MergeInternalNodes: the separator comes down between left's and right's
   * keys, right's children follow left's; the parent loses the separator and
   * the right child. A root parent left without keys is replaced by the
   * merged node; otherwise a parent with fewer than ceil(degree/2) - 1 keys
   * is repaired.
   */
  function MergeInternals(h: Heap, pid: int, parent: Node, index: nat, leftId: int, left: Node,
                          rightId: int, right: Node, degree: int, fuel: nat): (r: Option<Heap>)
    requires AllShapeOk(h.nodes) && parent.Internal? && ShapeOk(parent) && index < |parent.keys|
    requires left.Internal? && right.Internal? && ShapeOk(left) && ShapeOk(right)
    ensures r.Some? ==> AllShapeOk(r.value.nodes)
    ensures r.Some? && Good(h) && leftId in h.nodes && pid in h.nodes ==> Good(r.value)
    decreases fuel, 0
  {
    var p := Unlink(parent, index);
    var h1 := h.(nodes := h.nodes[leftId := InternalMerge(left, right, parent.keys[index])][pid := p]);
    if pid == h.root && |p.keys| == 0 then Some(h1.(root := leftId))
    else if |p.keys| < CeilHalf(degree) - 1 then
      if fuel == 0 then None else HandleInternalUnderflow(h1, pid, p, degree, fuel - 1)
    else Some(h1)
  }

  // ---- the tree object ----

  /** BPlusTree with its services: the node heap, Root and Degree. */
  class BPlusTree {
    var nodes: map<int, Node>
    var root: int
    var nextHandle: int
    const degree: int

    ghost predicate Valid()
      reads this
    {
      Good(State())
    }

    function State(): Heap
      reads this
    {
      Heap(nodes, root, nextHandle)
    }

    method SetState(h: Heap)
      modifies this
      ensures State() == h
    {
      nodes, root, nextHandle := h.nodes, h.root, h.nextHandle;
    }

    /** A new tree is one empty leaf, which is the root. */
    constructor (d: int)
      ensures Valid() && degree == d
      ensures nodes == map[0 := EmptyLeaf] && root == 0 && nextHandle == 1
    {
      degree := d;
      nodes := map[0 := EmptyLeaf];
      root := 0;
      nextHandle := 1;
    }

    /** Insert; `ok` is false where the source throws or never returns, and the state is then unspecified. */
    method Insert(key: int, value: Value) returns (ok: bool)
      requires Valid()
      modifies this
      ensures ok <==> InsertKey(old(State()), key, value, degree).Some?
      ensures ok ==> Valid() && State() == InsertKey(old(State()), key, value, degree).value
    {
      var r := InsertKey(State(), key, value, degree);
      if r.None? {
        return false;
      }
      SetState(r.value);
      ok := true;
    }

    /** Delete; `ok` as for Insert. */
    method Delete(key: int) returns (ok: bool)
      requires Valid()
      modifies this
      ensures ok <==> DeleteKey(old(State()), key, degree).Some?
      ensures ok ==> Valid() && State() == DeleteKey(old(State()), key, degree).value
    {
      var r := DeleteKey(State(), key, degree);
      if r.None? {
        return false;
      }
      SetState(r.value);
      ok := true;
    }

    /** Search: FindLeafNode, then the key's value in that leaf or null. */
    method Search(key: int) returns (r: Option<Option<Value>>)
      requires Valid()
      ensures r == BinarySearchSpec(nodes, root, key)
    {
      var found := Descend(nodes, root, key, |nodes|);
      if found.None? {
        return None;
      }
      var leaf := found.value.1;
      ShapeAt(nodes, found.value.0);
      var idx := BinarySearch(leaf.keys, key);
      r := Some(if idx >= 0 then Some(leaf.values[idx]) else None);
    }

    /**
     * RangeSearch: from the leaf FindLeafNode picks for `start`, collect the
     * pairs with start <= k along the Next chain, returning at the first key
     * above `end` or the end of the chain.
     */
    method RangeSearch(start: int, end: int) returns (r: Option<seq<(int, Value)>>)
      requires Valid()
      ensures r == RangeSpec(nodes, root, start, end)
    {
      var found := Descend(nodes, root, start, |nodes|);
      if found.None? {
        return None;
      }
      ShapeAt(nodes, found.value.0);
      var first := found.value.1;
      var results: seq<(int, Value)> := [];
      var leaf := first;
      var fuel: nat := |nodes|;
      assert Prepend(results, ChainRange(nodes, leaf, start, end, fuel)) == ChainRange(nodes, first, start, end, |nodes|) by {
        var c := ChainRange(nodes, leaf, start, end, fuel);
        if c.Some? { assert [] + c.value == c.value; }
      }
      while true
        invariant leaf.Leaf? && ShapeOk(leaf)
        invariant ChainRange(nodes, first, start, end, |nodes|) == Prepend(results, ChainRange(nodes, leaf, start, end, fuel))
        decreases fuel
      {
        ghost var acc := results;
        var i := 0;
        while i < |leaf.keys|
          invariant 0 <= i <= |leaf.keys| && i <= ChildIndex(leaf.keys, end)
          invariant results == acc + Matching(leaf.keys, leaf.values, start, i)
        {
          var k := leaf.keys[i];
          if k > end {
            ChainStops(nodes, leaf, start, end, fuel);
            return Some(results);
          }
          if k >= start {
            results := results + [(k, leaf.values[i])];
          }
          i := i + 1;
        }
        if leaf.next.None? {
          ChainStops(nodes, leaf, start, end, fuel);
          return Some(results);
        }
        if fuel == 0 || !(leaf.next.value in nodes && nodes[leaf.next.value].Leaf?) {
          return None;
        }
        ChainContinues(nodes, leaf, start, end, fuel, acc);
        leaf := nodes[leaf.next.value];
        fuel := fuel - 1;
      }
    }
  }
}
