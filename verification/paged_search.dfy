/**
 * PagedSearchService.FindParent: a depth-first, left-to-right re-descent from
 * a page id, comparing child ids and recursing only into internal children,
 * that returns the first internal node listing the child. The node is
 * returned by its page id; a page that cannot be loaded is `Broken` (the
 * source throws). The recursion is bounded by `fuel`; running out is also
 * `Broken` (on a store with a cycle of internal pages the source recurses
 * without end).
 */
module PagedSearch {
  import opened Nodes

  datatype Lookup = Found(parentId: int) | Absent | Broken

  function FindParent(pages: map<int, Node>, nodeId: int, child: int, fuel: nat): (r: Lookup)
    ensures r.Found? ==>
      r.parentId in pages && pages[r.parentId].Internal? && child in pages[r.parentId].children
    decreases fuel, 1, 0
  {
    if nodeId !in pages then Broken
    else match pages[nodeId]
      case Leaf(_, _, _) => Absent
      case Internal(_, children) => ScanChildren(pages, nodeId, children, child, fuel)
  }

  /** The foreach over a parent's children, from the given position on. */
  function ScanChildren(pages: map<int, Node>, parentId: int, children: seq<int>, child: int, fuel: nat): (r: Lookup)
    ensures r.Found? ==>
      (r.parentId == parentId && child in children) ||
      (r.parentId in pages && pages[r.parentId].Internal? && child in pages[r.parentId].children)
    decreases fuel, 0, |children|
  {
    if children == [] then Absent
    else if children[0] == child then Found(parentId)
    else if children[0] !in pages then Broken
    else if pages[children[0]].Leaf? then ScanChildren(pages, parentId, children[1..], child, fuel)
    else if fuel == 0 then Broken
    else match FindParent(pages, children[0], child, fuel - 1)
      case Found(p) => Found(p)
      case Broken => Broken
      case Absent => ScanChildren(pages, parentId, children[1..], child, fuel)
  }

  /**
   * The order-free reference: some internal node reachable from `nodeId`
   * through internal nodes (within `fuel` levels) lists `child`.
   */
  predicate Lists(pages: map<int, Node>, nodeId: int, child: int, fuel: nat)
    decreases fuel, 1, 0
  {
    nodeId in pages && pages[nodeId].Internal? && AnyLists(pages, pages[nodeId].children, child, fuel)
  }

  predicate AnyLists(pages: map<int, Node>, children: seq<int>, child: int, fuel: nat)
    decreases fuel, 0, |children|
  {
    children != [] &&
    (|| children[0] == child
     || (children[0] in pages && pages[children[0]].Internal? && fuel > 0 && Lists(pages, children[0], child, fuel - 1))
     || AnyLists(pages, children[1..], child, fuel))
  }

  /** Unless a page is missing, FindParent finds a parent exactly when some reachable internal node lists the child. */
  lemma {:induction false} FindParentComplete(pages: map<int, Node>, nodeId: int, child: int, fuel: nat)
    requires FindParent(pages, nodeId, child, fuel) != Broken
    ensures FindParent(pages, nodeId, child, fuel).Found? <==> Lists(pages, nodeId, child, fuel)
    decreases fuel, 1, 0
  {
    if nodeId in pages && pages[nodeId].Internal? {
      ScanComplete(pages, nodeId, pages[nodeId].children, child, fuel);
    }
  }

  lemma {:induction false} ScanComplete(pages: map<int, Node>, parentId: int, children: seq<int>, child: int, fuel: nat)
    requires ScanChildren(pages, parentId, children, child, fuel) != Broken
    ensures ScanChildren(pages, parentId, children, child, fuel).Found? <==> AnyLists(pages, children, child, fuel)
    decreases fuel, 0, |children|
  {
    if children != [] && children[0] != child && children[0] in pages {
      if pages[children[0]].Leaf? {
        ScanComplete(pages, parentId, children[1..], child, fuel);
      } else if fuel > 0 {
        FindParentComplete(pages, children[0], child, fuel - 1);
        if FindParent(pages, children[0], child, fuel - 1).Absent? {
          ScanComplete(pages, parentId, children[1..], child, fuel);
        }
      }
    }
  }

  /** A child the scan moves past: not the sought id, loadable, and if internal its subtree came back empty. */
  predicate Passed(pages: map<int, Node>, c: int, child: int, fuel: nat) {
    c != child && c in pages && (pages[c].Internal? ==> fuel > 0 && FindParent(pages, c, child, fuel - 1) == Absent)
  }

  /** The scan's result is decided at child `c`: it is the sought id, or its subtree gave the result. */
  predicate DecidedAt(pages: map<int, Node>, parentId: int, c: int, child: int, fuel: nat, r: Lookup) {
    (c == child && r == Found(parentId)) || (fuel > 0 && r == FindParent(pages, c, child, fuel - 1))
  }

  /**
   * First match wins: a result found while scanning comes from the first
   * child that is either the sought id or roots a subtree where the search
   * succeeds; every earlier child was passed over.
   */
  lemma {:induction false} ScanFirstMatch(pages: map<int, Node>, parentId: int, children: seq<int>, child: int, fuel: nat)
    requires ScanChildren(pages, parentId, children, child, fuel).Found?
    ensures exists j ::
      && 0 <= j < |children|
      && (forall i :: 0 <= i < j ==> Passed(pages, children[i], child, fuel))
      && DecidedAt(pages, parentId, children[j], child, fuel, ScanChildren(pages, parentId, children, child, fuel))
    decreases |children|
  {
    var r := ScanChildren(pages, parentId, children, child, fuel);
    if children[0] == child || (pages[children[0]].Internal? && FindParent(pages, children[0], child, fuel - 1).Found?) {
      assert DecidedAt(pages, parentId, children[0], child, fuel, r);
    } else {
      var rest := children[1..];
      assert Passed(pages, children[0], child, fuel);
      ScanFirstMatch(pages, parentId, rest, child, fuel);
      var j :| 0 <= j < |rest|
        && (forall i :: 0 <= i < j ==> Passed(pages, rest[i], child, fuel))
        && DecidedAt(pages, parentId, rest[j], child, fuel, ScanChildren(pages, parentId, rest, child, fuel));
      assert r == ScanChildren(pages, parentId, rest, child, fuel);
      forall i | 0 <= i < j + 1
        ensures Passed(pages, children[i], child, fuel)
      {
        if i > 0 { assert children[i] == rest[i - 1]; }
      }
      assert children[j + 1] == rest[j];
    }
  }

  // ---- when the fuel suffices ----

  /**
   * The store is a well-founded tree of pages: every child of an internal
   * page is present and has a smaller height, and heights stay below the
   * page count.
   */
  predicate Ranked(pages: map<int, Node>, height: map<int, nat>) {
    forall id :: id in pages ==>
      && id in height && height[id] < |pages|
      && (pages[id].Internal? ==> forall j :: 0 <= j < |pages[id].children| ==>
            pages[id].children[j] in pages && pages[id].children[j] in height &&
            height[pages[id].children[j]] < height[id])
  }

  /** On a ranked store FindParent never fails once the fuel covers the height. */
  lemma {:induction false} FindParentTerminates(pages: map<int, Node>, height: map<int, nat>, nodeId: int, child: int, fuel: nat)
    requires Ranked(pages, height) && nodeId in pages && height[nodeId] <= fuel
    ensures FindParent(pages, nodeId, child, fuel) != Broken
    decreases fuel, 1, 0
  {
    if pages[nodeId].Internal? {
      ScanTerminates(pages, height, nodeId, pages[nodeId].children, child, fuel, height[nodeId]);
    }
  }

  lemma {:induction false} ScanTerminates(pages: map<int, Node>, height: map<int, nat>, parentId: int,
                                           children: seq<int>, child: int, fuel: nat, bound: nat)
    requires Ranked(pages, height) && bound <= fuel
    requires forall j :: 0 <= j < |children| ==>
      children[j] in pages && children[j] in height && height[children[j]] < bound
    ensures ScanChildren(pages, parentId, children, child, fuel) != Broken
    decreases fuel, 0, |children|
  {
    if children != [] && children[0] != child {
      if pages[children[0]].Internal? {
        FindParentTerminates(pages, height, children[0], child, fuel - 1);
      }
      ScanTerminates(pages, height, parentId, children[1..], child, fuel, bound);
    }
  }
}
