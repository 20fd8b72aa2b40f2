/**
 * The descent and the leaf-chain walk both trees share, over a store that
 * maps node ids (page ids, or object handles in the in-memory tree) to
 * nodes: NodeFinderService.FindLeafNode and the paged tree's descent loop
 * take the same child, and both RangeSearch loops walk the same chain.
 */
module TreeWalk {
  import opened Wrappers
  import opened Bytes
  import opened Nodes
  import opened NodeOps
  import opened PagedSearch

  predicate AllShapeOk(pages: map<int, Node>) {
    forall id :: id in pages ==> ShapeOk(pages[id])
  }

  lemma ShapeAt(pages: map<int, Node>, id: int)
    requires AllShapeOk(pages) && id in pages
    ensures ShapeOk(pages[id])
  {
  }

  /** C#'s `degree / 2` on int, which truncates toward zero. */
  function CsHalf(d: int): int {
    if d >= 0 then d / 2 else -((-d) / 2)
  }

  /** `Math.Ceiling(degree / 2.0)`. */
  function CeilHalf(d: int): (r: int)
    ensures 2 * r - 1 <= d <= 2 * r
  {
    (d + 1) / 2
  }

  /**
   * The descent loop of Search, Delete and RangeSearch: from page `id`, take
   * child ChildIndex(keys, key) until a leaf; its page id and node. None where
   * a page cannot be loaded or the descent exceeds `fuel` levels.
   */
  function Descend(pages: map<int, Node>, id: int, key: int, fuel: nat): (r: Option<(int, Node)>)
    requires AllShapeOk(pages)
    ensures r.Some? ==> r.value.0 in pages && pages[r.value.0] == r.value.1 && r.value.1.Leaf?
    decreases fuel
  {
    if id !in pages then None
    else if pages[id].Leaf? then Some((id, pages[id]))
    else if fuel == 0 then None
    else Descend(pages, pages[id].children[ChildIndex(pages[id].keys, key)], key, fuel - 1)
  }

  /** Search: Some(value or null) for the leaf the descent reaches; None where the source throws or never returns. */
  function SearchSpec(pages: map<int, Node>, root: int, key: int): (r: Option<Option<Value>>)
    requires AllShapeOk(pages)
  {
    match Descend(pages, root, key, |pages|)
    case None => None
    case Some((_, leaf)) => Some(Get(leaf.keys, leaf.values, key))
  }

  /** The pairs of the first `n` entries of a leaf whose key is at least `start`, in leaf order. */
  function Matching(keys: seq<int>, values: seq<Value>, start: int, n: nat): (r: seq<(int, Value)>)
    requires |values| == |keys| && n <= |keys|
    ensures forall j :: 0 <= j < |r| ==> start <= r[j].0
  {
    if n == 0 then []
    else Matching(keys, values, start, n - 1) + (if start <= keys[n - 1] then [(keys[n - 1], values[n - 1])] else [])
  }

  /**
   * The leaf-chain walk of RangeSearch from `leaf`: the matching pairs of each
   * leaf up to its first key above `end`, where the walk stops; otherwise on
   * to the next leaf. None where a next page is missing or not a leaf, or the
   * chain is longer than `fuel`.
   */
  function ChainRange(pages: map<int, Node>, leaf: Node, start: int, end: int, fuel: nat): (r: Option<seq<(int, Value)>>)
    requires AllShapeOk(pages) && leaf.Leaf? && ShapeOk(leaf)
    decreases fuel
  {
    var n := ChildIndex(leaf.keys, end);
    var here := Matching(leaf.keys, leaf.values, start, n);
    if n < |leaf.keys| || leaf.next.None? then Some(here)
    else if fuel == 0 || !(leaf.next.value in pages && pages[leaf.next.value].Leaf?) then None
    else
      ShapeAt(pages, leaf.next.value);
      match ChainRange(pages, pages[leaf.next.value], start, end, fuel - 1)
      case None => None
      case Some(rest) => Some(here + rest)
  }

  function RangeSpec(pages: map<int, Node>, root: int, start: int, end: int): (r: Option<seq<(int, Value)>>)
    requires AllShapeOk(pages)
  {
    match Descend(pages, root, start, |pages|)
    case None => None
    case Some((_, leaf)) => ChainRange(pages, leaf, start, end, |pages|)
  }

  function Prepend(acc: seq<(int, Value)>, r: Option<seq<(int, Value)>>): Option<seq<(int, Value)>> {
    if r.None? then None else Some(acc + r.value)
  }

  /** Where the walk stops in a leaf, the result is that leaf's matching pairs. */
  lemma ChainStops(pages: map<int, Node>, leaf: Node, start: int, end: int, fuel: nat)
    requires AllShapeOk(pages) && leaf.Leaf? && ShapeOk(leaf)
    requires ChildIndex(leaf.keys, end) < |leaf.keys| || leaf.next.None?
    ensures ChainRange(pages, leaf, start, end, fuel) == Some(Matching(leaf.keys, leaf.values, start, ChildIndex(leaf.keys, end)))
  {
  }

  /** Where the walk moves on, the pairs collected so far prefix the rest of the walk. */
  lemma ChainContinues(pages: map<int, Node>, leaf: Node, start: int, end: int, fuel: nat, acc: seq<(int, Value)>)
    requires AllShapeOk(pages) && leaf.Leaf? && ShapeOk(leaf)
    requires ChildIndex(leaf.keys, end) == |leaf.keys| && leaf.next.Some? && fuel > 0
    requires leaf.next.value in pages && pages[leaf.next.value].Leaf?
    ensures ShapeOk(pages[leaf.next.value])
    ensures Prepend(acc, ChainRange(pages, leaf, start, end, fuel)) ==
            Prepend(acc + Matching(leaf.keys, leaf.values, start, |leaf.keys|),
                    ChainRange(pages, pages[leaf.next.value], start, end, fuel - 1))
  {
    ShapeAt(pages, leaf.next.value);
    var nx := ChainRange(pages, pages[leaf.next.value], start, end, fuel - 1);
    var here := Matching(leaf.keys, leaf.values, start, |leaf.keys|);
    if nx.Some? {
      assert acc + (here + nx.value) == acc + here + nx.value;
    }
  }

  // ---- lookups ----

  /** On a ranked store the descent from a present page always reaches a leaf. */
  lemma {:induction false} DescendTerminates(pages: map<int, Node>, height: map<int, nat>, id: int, key: int, fuel: nat)
    requires AllShapeOk(pages) && Ranked(pages, height) && id in pages && height[id] <= fuel
    ensures Descend(pages, id, key, fuel).Some?
    decreases fuel
  {
    if pages[id].Internal? {
      ShapeAt(pages, id);
      var c := pages[id].children[ChildIndex(pages[id].keys, key)];
      DescendTerminates(pages, height, c, key, fuel - 1);
    }
  }

  /** Search and RangeSearch on a ranked store with its root present return. */
  lemma LookupsReturn(pages: map<int, Node>, height: map<int, nat>, root: int, key: int)
    requires AllShapeOk(pages) && Ranked(pages, height) && root in pages
    ensures SearchSpec(pages, root, key).Some?
  {
    DescendTerminates(pages, height, root, key, |pages|);
  }

  /** Search's answer is the leaf's value for the key, and null exactly when the leaf lacks it. */
  lemma SearchAnswer(pages: map<int, Node>, root: int, key: int)
    requires AllShapeOk(pages) && SearchSpec(pages, root, key).Some?
    ensures var (id, leaf) := Descend(pages, root, key, |pages|).value;
      && (SearchSpec(pages, root, key).value.None? <==> key !in leaf.keys)
      && (SearchSpec(pages, root, key).value.Some? ==>
            exists i :: 0 <= i < |leaf.keys| && leaf.keys[i] == key && leaf.values[i] == SearchSpec(pages, root, key).value.value)
  {
    var (id, leaf) := Descend(pages, root, key, |pages|).value;
    ShapeAt(pages, id);
    var i := IndexOf(leaf.keys, key);
    if i >= 0 {
      assert leaf.keys[i] == key;
    }
  }

  /**
   * SearchService.Search: the same descent, but the leaf lookup is
   * List.BinarySearch. A hit always names a stored entry for the key.
   */
  function BinarySearchSpec(pages: map<int, Node>, root: int, key: int): (r: Option<Option<Value>>)
    requires AllShapeOk(pages)
    ensures r.None? <==> Descend(pages, root, key, |pages|).None?
    ensures r.Some? && r.value.Some? ==>
      var leaf := Descend(pages, root, key, |pages|).value.1;
      exists i :: 0 <= i < |leaf.keys| && i < |leaf.values| && leaf.keys[i] == key && leaf.values[i] == r.value.value
  {
    match Descend(pages, root, key, |pages|)
    case None => None
    case Some((id, leaf)) =>
      ShapeAt(pages, id);
      var i := BinarySearch(leaf.keys, key);
      Some(if i >= 0 then Some(leaf.values[i]) else None)
  }

  predicate LeavesSorted(pages: map<int, Node>) {
    forall id :: id in pages && pages[id].Leaf? ==> StrictlyAscending(pages[id].keys)
  }

  /** Where every leaf is sorted, the BinarySearch lookup and the IndexOf lookup give the same answer. */
  lemma BinarySearchSpecSorted(pages: map<int, Node>, root: int, key: int)
    requires AllShapeOk(pages) && LeavesSorted(pages)
    ensures BinarySearchSpec(pages, root, key) == SearchSpec(pages, root, key)
  {
    match Descend(pages, root, key, |pages|)
    case None =>
    case Some((id, leaf)) =>
      ShapeAt(pages, id);
      BinarySearchSorted(leaf.keys, key);
      var i := BinarySearch(leaf.keys, key);
      if i >= 0 {
        LowerBoundFinds(leaf.keys, key);
        IndexOfSorted(leaf.keys, i);
      }
  }

  /** The pairs a leaf contributes are its entries among the first `n` whose key is at least `start`, and all of them. */
  lemma {:induction false} MatchingExact(keys: seq<int>, values: seq<Value>, start: int, n: nat)
    requires |values| == |keys| && n <= |keys|
    ensures forall p :: p in Matching(keys, values, start, n) ==>
      exists i :: 0 <= i < n && p == (keys[i], values[i])
    ensures forall i :: 0 <= i < n && start <= keys[i] ==> (keys[i], values[i]) in Matching(keys, values, start, n)
  {
    if n > 0 {
      MatchingExact(keys, values, start, n - 1);
      var m := Matching(keys, values, start, n);
      forall p | p in m
        ensures exists i :: 0 <= i < n && p == (keys[i], values[i])
      {
        if p !in Matching(keys, values, start, n - 1) {
          assert p == (keys[n - 1], values[n - 1]);
        }
      }
    }
  }

  /** Every pair the leaf-chain walk returns has start <= key <= end. */
  lemma {:induction false} ChainBounds(pages: map<int, Node>, leaf: Node, start: int, end: int, fuel: nat)
    requires AllShapeOk(pages) && leaf.Leaf? && ShapeOk(leaf)
    requires ChainRange(pages, leaf, start, end, fuel).Some?
    ensures forall p :: p in ChainRange(pages, leaf, start, end, fuel).value ==> start <= p.0 <= end
    decreases fuel
  {
    var n := ChildIndex(leaf.keys, end);
    var here := Matching(leaf.keys, leaf.values, start, n);
    MatchingExact(leaf.keys, leaf.values, start, n);
    assert forall p :: p in here ==> start <= p.0 <= end;
    if !(n < |leaf.keys| || leaf.next.None?) {
      ShapeAt(pages, leaf.next.value);
      ChainBounds(pages, pages[leaf.next.value], start, end, fuel - 1);
    }
  }

  /** RangeSearch returns only pairs with start <= key <= end, and nothing when start > end. */
  lemma RangeBounds(pages: map<int, Node>, root: int, start: int, end: int)
    requires AllShapeOk(pages) && RangeSpec(pages, root, start, end).Some?
    ensures forall p :: p in RangeSpec(pages, root, start, end).value ==> start <= p.0 <= end
    ensures start > end ==> RangeSpec(pages, root, start, end).value == []
  {
    var (id, leaf) := Descend(pages, root, start, |pages|).value;
    ShapeAt(pages, id);
    ChainBounds(pages, leaf, start, end, |pages|);
    var r := RangeSpec(pages, root, start, end).value;
    assert |r| > 0 ==> r[0] in r;
  }

  // ---- chain order ----

  /** Keys strictly increase along a result list. */
  predicate Ascending(r: seq<(int, Value)>) {
    forall i, j :: 0 <= i < j < |r| ==> r[i].0 < r[j].0
  }

  /** A leaf with a successor holds keys, all below every key of that successor. */
  predicate LinkedBelow(a: Node, b: Node) {
    a.keys != [] && forall i, j :: 0 <= i < |a.keys| && 0 <= j < |b.keys| ==> a.keys[i] < b.keys[j]
  }

  /** Every leaf is sorted and lies below the leaf its Next link names. */
  predicate ChainSorted(pages: map<int, Node>) {
    forall id :: id in pages && pages[id].Leaf? ==>
      && StrictlyAscending(pages[id].keys)
      && (pages[id].next.Some? && pages[id].next.value in pages ==> LinkedBelow(pages[id], pages[pages[id].next.value]))
  }

  /** The pairs a sorted leaf contributes ascend and lie between its first key and the last key scanned. */
  lemma {:induction false} MatchingAscending(keys: seq<int>, values: seq<Value>, start: int, n: nat)
    requires |values| == |keys| && n <= |keys| && StrictlyAscending(keys)
    ensures var m := Matching(keys, values, start, n);
      && Ascending(m)
      && forall i :: 0 <= i < |m| ==> 0 < n && keys[0] <= m[i].0 <= keys[n - 1]
  {
    if n > 0 {
      MatchingAscending(keys, values, start, n - 1);
      var prev := Matching(keys, values, start, n - 1);
      var tail: seq<(int, Value)> := if start <= keys[n - 1] then [(keys[n - 1], values[n - 1])] else [];
      assert forall i :: 0 <= i < |prev| ==> prev[i].0 < keys[n - 1] by {
        forall i | 0 <= i < |prev|
          ensures prev[i].0 < keys[n - 1]
        {
          assert prev[i].0 <= keys[n - 2];
        }
      }
      AscendingConcat(prev, tail);
    }
  }

  lemma AscendingConcat(a: seq<(int, Value)>, b: seq<(int, Value)>)
    requires Ascending(a) && Ascending(b)
    requires forall i, j :: 0 <= i < |a| && 0 <= j < |b| ==> a[i].0 < b[j].0
    ensures Ascending(a + b)
  {
    var c := a + b;
    forall i, j | 0 <= i < j < |c|
      ensures c[i].0 < c[j].0
    {
      if j < |a| {
        assert c[i] == a[i] && c[j] == a[j];
      } else if i >= |a| {
        assert c[i] == b[i - |a|] && c[j] == b[j - |a|];
      } else {
        assert c[i] == a[i] && c[j] == b[j - |a|];
      }
    }
  }

  /**
   * On a sorted chain, the walk from a leaf returns strictly ascending keys,
   * none below the leaf's first key.
   */
  lemma {:induction false} ChainAscending(pages: map<int, Node>, leaf: Node, start: int, end: int, fuel: nat)
    requires AllShapeOk(pages) && ChainSorted(pages) && leaf.Leaf? && ShapeOk(leaf) && StrictlyAscending(leaf.keys)
    requires leaf.next.Some? && leaf.next.value in pages ==> LinkedBelow(leaf, pages[leaf.next.value])
    ensures ChainRange(pages, leaf, start, end, fuel).Some? ==>
      var r := ChainRange(pages, leaf, start, end, fuel).value;
      && Ascending(r)
      && forall i :: 0 <= i < |r| ==> leaf.keys != [] && leaf.keys[0] <= r[i].0
    decreases fuel
  {
    var n := ChildIndex(leaf.keys, end);
    var here := Matching(leaf.keys, leaf.values, start, n);
    MatchingAscending(leaf.keys, leaf.values, start, n);
    if !(n < |leaf.keys| || leaf.next.None?) && fuel > 0 && leaf.next.value in pages && pages[leaf.next.value].Leaf? {
      var nextId := leaf.next.value;
      var nx := pages[nextId];
      ShapeAt(pages, nextId);
      assert StrictlyAscending(nx.keys) && (nx.next.Some? && nx.next.value in pages ==> LinkedBelow(nx, pages[nx.next.value]));
      ChainAscending(pages, nx, start, end, fuel - 1);
      var rest := ChainRange(pages, nx, start, end, fuel - 1);
      if rest.Some? {
        var tail := rest.value;
        assert forall i, j :: 0 <= i < |here| && 0 <= j < |tail| ==> here[i].0 < tail[j].0 by {
          forall i, j | 0 <= i < |here| && 0 <= j < |tail|
            ensures here[i].0 < tail[j].0
          {
            assert here[i].0 <= leaf.keys[n - 1] < nx.keys[0] <= tail[j].0;
          }
        }
        AscendingConcat(here, tail);
        assert ChainRange(pages, leaf, start, end, fuel).value == here + tail;
        assert forall j :: 0 <= j < |tail| ==> leaf.keys[0] < tail[j].0 by {
          forall j | 0 <= j < |tail|
            ensures leaf.keys[0] < tail[j].0
          {
            assert leaf.keys[0] < nx.keys[0] <= tail[j].0;
          }
        }
      }
    }
  }

  /** On a sorted chain, RangeSearch returns its pairs in strictly ascending key order. */
  lemma RangeAscending(pages: map<int, Node>, root: int, start: int, end: int)
    requires AllShapeOk(pages) && ChainSorted(pages) && RangeSpec(pages, root, start, end).Some?
    ensures Ascending(RangeSpec(pages, root, start, end).value)
  {
    var (id, leaf) := Descend(pages, root, start, |pages|).value;
    ShapeAt(pages, id);
    ChainAscending(pages, leaf, start, end, |pages|);
  }


  /** The leaf a descent reaches, with the node at `leafId` replaced by `newLeaf`. */
  function Rewritten(d: Option<(int, Node)>, leafId: int, newLeaf: Node): Option<(int, Node)> {
    if d.Some? && d.value.0 == leafId then Some((leafId, newLeaf)) else d
  }

  /**
   * Replacing one leaf by another changes no descent: every descent reaches
   * the leaf it reached before, and finds the new node where it reaches the
   * replaced one.
   */
  lemma {:induction false} DescendAfterLeafWrite(pages: map<int, Node>, id: int, key: int, fuel: nat, leafId: int, newLeaf: Node)
    requires AllShapeOk(pages) && leafId in pages && pages[leafId].Leaf? && newLeaf.Leaf? && ShapeOk(newLeaf)
    ensures AllShapeOk(pages[leafId := newLeaf])
    ensures Descend(pages[leafId := newLeaf], id, key, fuel) == Rewritten(Descend(pages, id, key, fuel), leafId, newLeaf)
    decreases fuel
  {
    var p2 := pages[leafId := newLeaf];
    if id in pages && pages[id].Internal? && fuel > 0 {
      assert p2[id] == pages[id];
      DescendAfterLeafWrite(pages, pages[id].children[ChildIndex(pages[id].keys, key)], key, fuel - 1, leafId, newLeaf);
    }
  }

  /**
   * After one leaf is replaced, Search answers from the new leaf for every
   * key whose descent reaches it, and as before for every other key.
   */
  lemma SearchAfterLeafWrite(pages: map<int, Node>, root: int, k: int, leafId: int, newLeaf: Node)
    requires AllShapeOk(pages) && leafId in pages && pages[leafId].Leaf? && newLeaf.Leaf? && ShapeOk(newLeaf)
    ensures AllShapeOk(pages[leafId := newLeaf])
    ensures var d := Descend(pages, root, k, |pages|);
      SearchSpec(pages[leafId := newLeaf], root, k) ==
        if d.Some? && d.value.0 == leafId then Some(Get(newLeaf.keys, newLeaf.values, k))
        else SearchSpec(pages, root, k)
  {
    assert |pages[leafId := newLeaf]| == |pages|;
    DescendAfterLeafWrite(pages, root, k, |pages|, leafId, newLeaf);
  }
}
