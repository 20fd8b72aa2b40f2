/**
 * PagedBPlusTree: a B+ tree whose nodes live one per page and refer to each
 * other by page id. The buffered page store (LoadNode / SaveNode through the
 * buffer manager and the node codec) is a map from page id to node; the
 * write-ahead log is the sequence of records the tree causes; the page
 * manager contributes the id counter and the free-id list; the metadata
 * page's root id is a field of its own.
 */
module PagedTree {
  import opened Wrappers
  import opened Bytes
  import opened Nodes
  import opened NodeOps
  import opened PagedSearch
  import opened TreeWalk

  /** A log record the tree causes: a page write (PutPage or a direct LogInsert) or a LogDelete. */
  datatype LogOp = LogWrite(pageId: int, node: Node) | LogErase(pageId: int)

  /** Everything an operation may change. */
  datatype Store = Store(
    pages: map<int, Node>,
    nextId: int,
    log: seq<LogOp>,
    freed: seq<int>,
    root: int,
    metaRoot: int)

  /** InsertResult: no split, or the promoted key and the new right sibling with its page id. */
  datatype Split = NoSplit | Split(key: int, newId: int, newNode: Node)

  /** SaveNode: the page now holds the node, and PutPage logged a write record of it. */
  function Save(st: Store, id: int, n: Node): (r: Store)
    ensures r.pages == st.pages[id := n] && r.log == st.log + [LogWrite(id, n)]
    ensures r.nextId == st.nextId && r.freed == st.freed && r.root == st.root && r.metaRoot == st.metaRoot
  {
    st.(pages := st.pages[id := n], log := st.log + [LogWrite(id, n)])
  }

  /** AllocatePageId: the current counter, which is then incremented. */
  function Allocate(st: Store): (r: (Store, int))
    ensures r.1 == st.nextId && r.0 == st.(nextId := st.nextId + 1)
  {
    (st.(nextId := st.nextId + 1), st.nextId)
  }

  // ---- insertion ----

  /**
   * InsertRecursive on the node loaded from page `id`. A leaf is upserted and
   * saved, or split when it holds more than `degree` keys. An internal node
   * descends at the first separator greater than the key; a child split is
   * inserted into it, which is saved together with the new child page, or
   * split in turn. None where the source throws (a child page that cannot be
   * loaded) or the descent exceeds `fuel` levels.
   */
  function InsertRec(st: Store, id: int, node: Node, key: int, value: Value, degree: int, fuel: nat): (r: Option<(Store, Split)>)
    requires AllShapeOk(st.pages) && ShapeOk(node)
    ensures r.Some? ==> AllShapeOk(r.value.0.pages)
    ensures r.Some? && r.value.1.Split? ==> ShapeOk(r.value.1.newNode) && r.value.1.newNode.Leaf? == node.Leaf?
    ensures r.Some? ==> r.value.0.root == st.root && r.value.0.metaRoot == st.metaRoot
    decreases fuel
  {
    match node
    case Leaf(keys, values, next) =>
      var (ks, vs) := Upsert(keys, values, key, value);
      var leaf := Leaf(ks, vs, next);
      if |ks| <= degree then Some((Save(st, id, leaf), NoSplit))
      else
        var (st1, newId) := Allocate(st);
        var (left, right, splitKey) := SplitLeaf(leaf, newId);
        Some((Save(Save(st1, id, left), newId, right), Split(splitKey, newId, right)))
    case Internal(keys, children) =>
      var pos := ChildIndex(keys, key);
      var childId := children[pos];
      if childId !in st.pages || fuel == 0 then None
      else match InsertRec(st, childId, st.pages[childId], key, value, degree, fuel - 1)
        case None => None
        case Some((st1, NoSplit)) => Some((Save(st1, id, node), NoSplit))
        case Some((st1, Split(splitKey, newId, newNode))) =>
          var grown := InsertChild(node, pos, splitKey, newId);
          if |grown.keys| <= degree then Some((Save(Save(st1, id, grown), newId, newNode), NoSplit))
          else
            var (st2, newId2) := Allocate(st1);
            var (left, right, midKey) := SplitInternal(grown);
            Some((Save(Save(st2, id, left), newId2, right), Split(midKey, newId2, right)))
  }

  /**
   * Insert: InsertRecursive from the root; a root split allocates a new
   * internal root with keys [splitKey] and children [old root, new page],
   * saves the new page and the new root, and records the new root id in the
   * tree and in the metadata.
   */
  function InsertTop(st: Store, key: int, value: Value, degree: int): (r: Option<Store>)
    requires AllShapeOk(st.pages)
    ensures r.Some? ==> AllShapeOk(r.value.pages)
  {
    if st.root !in st.pages then None
    else match InsertRec(st, st.root, st.pages[st.root], key, value, degree, |st.pages|)
      case None => None
      case Some((st1, sp)) => Some(GrowRoot(st1, st.root, sp))
  }

  /** The root-split branch of Insert; without a split the state is kept. */
  function GrowRoot(st: Store, oldRoot: int, sp: Split): (r: Store)
    requires AllShapeOk(st.pages) && (sp.Split? ==> ShapeOk(sp.newNode))
    ensures AllShapeOk(r.pages)
  {
    match sp
    case NoSplit => st
    case Split(splitKey, newId, newNode) =>
      var (st1, rootId) := Allocate(st);
      var newRoot := Internal([splitKey], [oldRoot, newId]);
      var st2 := Save(Save(st1, newId, newNode), rootId, newRoot);
      st2.(root := rootId, metaRoot := rootId)
  }

  // ---- deletion ----

  /** The state after one rebalancing step: the node under repair and its parent as the step left them. */
  datatype Outcome = Outcome(st: Store, target: Node, parent: Node, borrowed: bool)

  /** A loaded sibling the cast accepts. */
  predicate IsLeafPage(st: Store, id: int) { id in st.pages && st.pages[id].Leaf? }
  predicate IsInternalPage(st: Store, id: int) { id in st.pages && st.pages[id].Internal? }

  /** The parent with its children list and separators as a step leaves them. */
  function WithKeys(parent: Node, keys: seq<int>): (r: Node)
    requires parent.Internal?
  {
    Internal(keys, parent.children)
  }

  function DropChild(parent: Node, keyIndex: nat, childIndex: nat): (r: Node)
    requires parent.Internal? && keyIndex < |parent.keys| && childIndex < |parent.children|
    ensures r.Internal? && |r.keys| == |parent.keys| - 1 && |r.children| == |parent.children| - 1
  {
    Internal(RemoveAt(parent.keys, keyIndex), RemoveAt(parent.children, childIndex))
  }

  /**
   * One HandleLeafUnderflow step for the leaf at position `index` of the
   * parent at page `pid`: borrow from the left sibling if it has more than
   * degree/2 keys, else from the right sibling likewise, else merge into the
   * left sibling, else merge the right sibling in. None where the source
   * throws: a sibling page that is missing or not a leaf, or a borrow that
   * empties the sibling it reads a key from.
   */
  function LeafStep(st: Store, pid: int, parent: Node, index: nat, leafId: int, leaf: Node, degree: int): (r: Option<Outcome>)
    requires AllShapeOk(st.pages) && parent.Internal? && ShapeOk(parent) && index < |parent.children|
    requires leaf.Leaf? && ShapeOk(leaf)
    ensures r.Some? ==> AllShapeOk(r.value.st.pages) && r.value.parent.Internal? && ShapeOk(r.value.parent)
    ensures r.Some? ==> r.value.target.Leaf? && ShapeOk(r.value.target)
  {
    var hasLeft := index > 0;
    var hasRight := index < |parent.children| - 1;
    var leftId := if hasLeft then parent.children[index - 1] else 0;
    var rightId := if hasRight then parent.children[index + 1] else 0;
    if hasLeft && !IsLeafPage(st, leftId) then None
    else if hasLeft && |st.pages[leftId].keys| > CsHalf(degree) then
      var left := st.pages[leftId];
      if |left.keys| == 0 then None
      else
        var (l, t) := LeafBorrowLeft(left, leaf);
        var p := WithKeys(parent, parent.keys[index - 1 := t.keys[0]]);
        Some(Outcome(Save(Save(Save(st, leftId, l), leafId, t), pid, p), t, p, true))
    else if hasRight && !IsLeafPage(st, rightId) then None
    else if hasRight && |st.pages[rightId].keys| > CsHalf(degree) then
      var right := st.pages[rightId];
      if |right.keys| == 0 then None
      else
        var (t, rt) := LeafBorrowRight(leaf, right);
        if |rt.keys| == 0 then None
        else
          var p := WithKeys(parent, parent.keys[index := rt.keys[0]]);
          Some(Outcome(Save(Save(Save(st, rightId, rt), leafId, t), pid, p), t, p, true))
    else if hasLeft then
      var merged := LeafMerge(st.pages[leftId], leaf);
      var p := DropChild(parent, index - 1, index);
      var st1 := Save(Save(st, leftId, merged), pid, p);
      Some(Outcome(st1.(log := st1.log + [LogErase(leafId)]), leaf, p, false))
    else if hasRight then
      var t := LeafMerge(leaf, st.pages[rightId]);
      var p := DropChild(parent, index, index + 1);
      var st1 := Save(Save(st, leafId, t), pid, p);
      Some(Outcome(st1.(log := st1.log + [LogErase(rightId)]), t, p, false))
    else Some(Outcome(st, leaf, parent, false))
  }

  /**
   * One HandleInternalUnderflow step for a non-root internal node: the same
   * order of borrow left, borrow right, merge left, merge right, with the
   * internal threshold degree/2 - 1 and separator rotation.
   */
  function InternalStep(st: Store, pid: int, parent: Node, index: nat, nodeId: int, node: Node, degree: int): (r: Option<Outcome>)
    requires AllShapeOk(st.pages) && parent.Internal? && ShapeOk(parent) && index < |parent.children|
    requires node.Internal? && ShapeOk(node)
    ensures r.Some? ==> AllShapeOk(r.value.st.pages) && r.value.parent.Internal? && ShapeOk(r.value.parent)
  {
    var hasLeft := index > 0;
    var hasRight := index < |parent.children| - 1;
    var leftId := if hasLeft then parent.children[index - 1] else 0;
    var rightId := if hasRight then parent.children[index + 1] else 0;
    if hasLeft && !IsInternalPage(st, leftId) then None
    else if hasLeft && |st.pages[leftId].keys| > CsHalf(degree) - 1 then
      var left := st.pages[leftId];
      if |left.keys| == 0 then None
      else
        var (l, t, up) := InternalBorrowLeft(left, node, parent.keys[index - 1]);
        var p := WithKeys(parent, parent.keys[index - 1 := up]);
        Some(Outcome(Save(Save(Save(st, leftId, l), nodeId, t), pid, p), t, p, true))
    else if hasRight && !IsInternalPage(st, rightId) then None
    else if hasRight && |st.pages[rightId].keys| > CsHalf(degree) - 1 then
      var right := st.pages[rightId];
      if |right.keys| == 0 then None
      else
        var (t, rt, up) := InternalBorrowRight(node, right, parent.keys[index]);
        var p := WithKeys(parent, parent.keys[index := up]);
        Some(Outcome(Save(Save(Save(st, rightId, rt), nodeId, t), pid, p), t, p, true))
    else if hasLeft then
      var merged := InternalMerge(st.pages[leftId], node, parent.keys[index - 1]);
      var p := DropChild(parent, index - 1, index);
      var st1 := Save(Save(st, leftId, merged), pid, p);
      Some(Outcome(st1.(log := st1.log + [LogErase(nodeId)]), node, p, false))
    else if hasRight then
      var t := InternalMerge(node, st.pages[rightId], parent.keys[index]);
      var p := DropChild(parent, index, index + 1);
      var st1 := Save(Save(st, nodeId, t), pid, p);
      Some(Outcome(st1.(log := st1.log + [LogErase(rightId)]), t, p, false))
    else Some(Outcome(st, node, parent, false))
  }

  /**
   * HandleInternalUnderflow. At the root: a root with exactly one child is
   * replaced by that child, the metadata updated and the old root logged as
   * deleted; any other root is left alone. Elsewhere: find the parent (a
   * missing parent is the source's null dereference), take one step, and
   * recurse on the parent if it has fewer than degree/2 - 1 keys.
   */
  function HandleInternalUnderflow(st: Store, nodeId: int, node: Node, degree: int, fuel: nat): (r: Option<Store>)
    requires AllShapeOk(st.pages) && node.Internal? && ShapeOk(node)
    ensures r.Some? ==> AllShapeOk(r.value.pages)
    decreases fuel
  {
    if nodeId == st.root then
      if |node.children| == 1 then
        Some(st.(root := node.children[0], metaRoot := node.children[0], log := st.log + [LogErase(nodeId)]))
      else Some(st)
    else match FindParent(st.pages, st.root, nodeId, |st.pages|)
      case Broken => None
      case Absent => None
      case Found(pid) =>
        var parent := st.pages[pid];
        match InternalStep(st, pid, parent, IndexOf(parent.children, nodeId), nodeId, node, degree)
        case None => None
        case Some(o) =>
          if o.borrowed then Some(o.st)
          else if |o.parent.keys| < CsHalf(degree) - 1 then
            if fuel == 0 then None else HandleInternalUnderflow(o.st, pid, o.parent, degree, fuel - 1)
          else Some(o.st)
  }

  /**
   * HandleLeafUnderflow: a leaf without a parent (the root) is left alone;
   * otherwise one step, then the parent's underflow check against
   * ceil(degree/2) - 1 when the step merged. Returns the store and the leaf
   * object as the step left it.
   */
  function HandleLeafUnderflow(st: Store, leafId: int, leaf: Node, degree: int): (r: Option<(Store, Node)>)
    requires AllShapeOk(st.pages) && leaf.Leaf? && ShapeOk(leaf)
    ensures r.Some? ==> AllShapeOk(r.value.0.pages) && r.value.1.Leaf? && ShapeOk(r.value.1)
  {
    match FindParent(st.pages, st.root, leafId, |st.pages|)
    case Broken => None
    case Absent => Some((st, leaf))
    case Found(pid) =>
      var parent := st.pages[pid];
      match LeafStep(st, pid, parent, IndexOf(parent.children, leafId), leafId, leaf, degree)
      case None => None
      case Some(o) =>
        if !o.borrowed && |o.parent.keys| < CeilHalf(degree) - 1 then
          match HandleInternalUnderflow(o.st, pid, o.parent, degree, |o.st.pages|)
          case None => None
          case Some(st1) => Some((st1, o.target))
        else Some((o.st, o.target))
  }

  /**
   * Delete after the descent found `key` in the leaf at `leafId`: remove the
   * entry, log a delete of the leaf and free its page while it is still in
   * use, repair an underflow below ceil(degree/2) keys, then log the leaf
   * object and put it back, even when it was just merged into its sibling.
   */
  function DeleteInLeaf(st: Store, leafId: int, leaf: Node, key: int, degree: int): (r: Option<Store>)
    requires AllShapeOk(st.pages) && leaf.Leaf? && ShapeOk(leaf) && key in leaf.keys
    ensures r.Some? ==> AllShapeOk(r.value.pages)
  {
    var shrunk := LeafRemove(leaf, IndexOf(leaf.keys, key));
    var st1 := st.(log := st.log + [LogErase(leafId)], freed := st.freed + [leafId]);
    var repaired :=
      if |shrunk.keys| < CeilHalf(degree) then HandleLeafUnderflow(st1, leafId, shrunk, degree)
      else Some((st1, shrunk));
    match repaired
    case None => None
    case Some((st2, l)) => Some(Save(st2.(log := st2.log + [LogWrite(leafId, l)]), leafId, l))
  }

  /** Delete: descend; an absent key changes nothing; otherwise DeleteInLeaf. */
  function DeleteSpec(st: Store, key: int, degree: int): (r: Option<Store>)
    requires AllShapeOk(st.pages)
    ensures r.Some? ==> AllShapeOk(r.value.pages)
  {
    match Descend(st.pages, st.root, key, |st.pages|)
    case None => None
    case Some((leafId, leaf)) =>
      if key !in leaf.keys then Some(st) else DeleteInLeaf(st, leafId, leaf, key, degree)
  }

  // ---- the tree object ----

  class PagedBPlusTree {
    /** The buffered page store as the tree loads and saves nodes. */
    var pages: map<int, Node>
    /** PageManager's id counter. */
    var nextPageId: int
    /** The log records the tree's writes and deletes add. */
    var log: seq<LogOp>
    /** The ids handed to PageManager.FreePage. */
    var freed: seq<int>
    /** _rootPageId. */
    var rootPageId: int
    /** The root id recorded in the metadata page. */
    var metaRoot: int
    const degree: int

    ghost predicate Valid()
      reads this
    {
      AllShapeOk(pages)
    }

    function State(): Store
      reads this
    {
      Store(pages, nextPageId, log, freed, rootPageId, metaRoot)
    }

    method SetState(st: Store)
      modifies this
      ensures State() == st
    {
      pages, nextPageId, log, freed, rootPageId, metaRoot := st.pages, st.nextId, st.log, st.freed, st.root, st.metaRoot;
    }

    /**
     * The store as recovery left it, the metadata page's root id if it could
     * be read, and the page manager's counter. Without metadata the root is a
     * new empty leaf saved at page 1 and the metadata records it.
     */
    constructor (initial: map<int, Node>, metadata: Option<int>, counter: int, d: int)
      requires AllShapeOk(initial)
      ensures Valid() && degree == d && nextPageId == counter && freed == []
      ensures metadata.None? ==>
        pages == initial[1 := EmptyLeaf] && log == [LogWrite(1, EmptyLeaf)] && rootPageId == 1 && metaRoot == 1
      ensures metadata.Some? ==>
        pages == initial && log == [] && rootPageId == metadata.value && metaRoot == metadata.value
    {
      degree := d;
      nextPageId := counter;
      freed := [];
      if metadata.None? {
        pages := initial[1 := EmptyLeaf];
        log := [LogWrite(1, EmptyLeaf)];
        metaRoot := 1;
      } else {
        pages := initial;
        log := [];
        metaRoot := metadata.value;
      }
      rootPageId := metaRoot;
    }

    /** Insert; `ok` is false where the source throws, and the state is then unspecified. */
    method Insert(key: int, value: Value) returns (ok: bool)
      requires Valid()
      modifies this
      ensures ok <==> InsertTop(old(State()), key, value, degree).Some?
      ensures ok ==> Valid() && State() == InsertTop(old(State()), key, value, degree).value
    {
      var r := InsertTop(State(), key, value, degree);
      if r.None? {
        return false;
      }
      SetState(r.value);
      ok := true;
    }

    /**
     * Delete: descend to the leaf; an absent key returns at once; otherwise
     * DeleteInLeaf. `ok` is false where the source throws or never returns.
     */
    method Delete(key: int) returns (ok: bool)
      requires Valid()
      modifies this
      ensures ok <==> DeleteSpec(old(State()), key, degree).Some?
      ensures ok ==> Valid() && State() == DeleteSpec(old(State()), key, degree).value
    {
      var found := FindLeaf(key);
      if found.None? {
        return false;
      }
      var (leafId, leaf) := found.value;
      ShapeAt(pages, leafId);
      if IndexOf(leaf.keys, key) < 0 {
        return true;
      }
      var r := DeleteInLeaf(State(), leafId, leaf, key, degree);
      if r.None? {
        return false;
      }
      SetState(r.value);
      ok := true;
    }

    /**
     * The descent loop Search, Delete and RangeSearch each run: from the root,
     * `while (i < Keys.Count && key >= Keys[i]) i++` picks the child to load,
     * until a leaf is loaded.
     */
    method FindLeaf(key: int) returns (r: Option<(int, Node)>)
      requires Valid()
      ensures r == Descend(pages, rootPageId, key, |pages|)
    {
      var id := rootPageId;
      var fuel: nat := |pages|;
      if id !in pages {
        return None;
      }
      var node := pages[id];
      while node.Internal?
        invariant id in pages && node == pages[id]
        invariant Descend(pages, rootPageId, key, |pages|) == Descend(pages, id, key, fuel)
        decreases fuel
      {
        if fuel == 0 {
          return None;
        }
        var i := 0;
        while i < |node.keys| && key >= node.keys[i]
          invariant 0 <= i <= |node.keys|
          invariant forall j :: 0 <= j < i ==> node.keys[j] <= key
        {
          i := i + 1;
        }
        assert i == ChildIndex(node.keys, key);
        id := node.children[i];
        if id !in pages {
          return None;
        }
        node := pages[id];
        fuel := fuel - 1;
      }
      r := Some((id, node));
    }

    /** Search: descend, then IndexOf in the leaf; the value there or null. */
    method Search(key: int) returns (r: Option<Option<Value>>)
      requires Valid()
      ensures r == SearchSpec(pages, rootPageId, key)
    {
      var found := FindLeaf(key);
      if found.None? {
        return None;
      }
      var leaf := found.value.1;
      ShapeAt(pages, found.value.0);
      var idx := IndexOf(leaf.keys, key);
      r := Some(if idx >= 0 then Some(leaf.values[idx]) else None);
    }

    /** RangeSearch: descend for `start`, then walk the leaf chain. */
    method RangeSearch(start: int, end: int) returns (r: Option<seq<(int, Value)>>)
      requires Valid()
      ensures r == RangeSpec(pages, rootPageId, start, end)
    {
      var found := FindLeaf(start);
      if found.None? {
        return None;
      }
      ShapeAt(pages, found.value.0);
      r := WalkChain(found.value.1, start, end);
    }

    /** The leaf-chain loop of RangeSearch: collect pairs until a key exceeds `end` or the chain ends. */
    method WalkChain(first: Node, start: int, end: int) returns (r: Option<seq<(int, Value)>>)
      requires Valid() && first.Leaf? && ShapeOk(first)
      ensures r == ChainRange(pages, first, start, end, |pages|)
    {
      var results: seq<(int, Value)> := [];
      var leaf := first;
      var fuel: nat := |pages|;
      assert Prepend(results, ChainRange(pages, leaf, start, end, fuel)) == ChainRange(pages, first, start, end, |pages|) by {
        var c := ChainRange(pages, leaf, start, end, fuel);
        if c.Some? { assert [] + c.value == c.value; }
      }
      while true
        invariant leaf.Leaf? && ShapeOk(leaf)
        invariant ChainRange(pages, first, start, end, |pages|) == Prepend(results, ChainRange(pages, leaf, start, end, fuel))
        decreases fuel
      {
        ghost var acc := results;
        var i := 0;
        while i < |leaf.keys|
          invariant 0 <= i <= |leaf.keys| && i <= ChildIndex(leaf.keys, end)
          invariant results == acc + Matching(leaf.keys, leaf.values, start, i)
        {
          var k := leaf.keys[i];
          if k > end {
            ChainStops(pages, leaf, start, end, fuel);
            return Some(results);
          }
          if k >= start {
            results := results + [(k, leaf.values[i])];
          }
          i := i + 1;
        }
        if leaf.next.None? {
          ChainStops(pages, leaf, start, end, fuel);
          return Some(results);
        }
        if fuel == 0 || !(leaf.next.value in pages && pages[leaf.next.value].Leaf?) {
          return None;
        }
        ChainContinues(pages, leaf, start, end, fuel, acc);
        leaf := pages[leaf.next.value];
        fuel := fuel - 1;
      }
    }
  }
}
