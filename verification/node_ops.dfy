/**
 * The node-local steps both trees perform on a loaded node: choosing a child,
 * finding a key, the leaf upsert, leaf and internal splits, and the
 * borrow/merge rotations of deletion. Each is a function of the node values
 * it touches; the trees decide where the results are stored.
 */
module NodeOps {
  import opened Wrappers
  import opened Bytes
  import opened Nodes

  // ---- choosing a child ----

  /**
   * The descent index: the first i with key < keys[i], or |keys| when there
   * is none. It is what the `while (i < Keys.Count && key >= Keys[i]) i++`
   * loops compute and what `Keys.FindIndex(k => key < k)` (with -1 mapped to
   * Count) returns.
   */
  function ChildIndex(keys: seq<int>, key: int): (i: nat)
    ensures i <= |keys|
    ensures forall j :: 0 <= j < i ==> keys[j] <= key
    ensures i < |keys| ==> key < keys[i]
  {
    if keys == [] || key < keys[0] then 0 else 1 + ChildIndex(keys[1..], key)
  }

  /** The number of separators that are at most `key`. */
  function CountAtMost(keys: seq<int>, key: int): nat {
    if keys == [] then 0 else (if keys[0] <= key then 1 else 0) + CountAtMost(keys[1..], key)
  }

  /** On sorted separators the descent index is the number of separators ≤ key. */
  lemma {:induction false} ChildIndexCounts(keys: seq<int>, key: int)
    requires StrictlyAscending(keys)
    ensures ChildIndex(keys, key) == CountAtMost(keys, key)
  {
    if keys == [] {
    } else if key < keys[0] {
      NoneAtMost(keys, key);
    } else {
      ChildIndexCounts(keys[1..], key);
    }
  }

  lemma {:induction false} NoneAtMost(keys: seq<int>, key: int)
    requires StrictlyAscending(keys) && keys != [] && key < keys[0]
    ensures CountAtMost(keys, key) == 0
    decreases |keys|
  {
    if |keys| > 1 {
      NoneAtMost(keys[1..], key);
    }
  }

  // ---- finding a key ----

  /** List.IndexOf: the first position holding `key`, or -1. */
  function IndexOf(keys: seq<int>, key: int): (r: int)
    ensures -1 <= r < |keys|
    ensures r == -1 <==> key !in keys
    ensures r >= 0 ==> keys[r] == key && key !in keys[..r]
  {
    if keys == [] then -1
    else if keys[0] == key then 0
    else
      var r := IndexOf(keys[1..], key);
      assert keys[1..][..if r < 0 then 0 else r] == keys[1..if r < 0 then 1 else r + 1];
      if r < 0 then -1 else r + 1
  }

  /** In sorted keys every key sits at the position IndexOf finds. */
  lemma IndexOfSorted(keys: seq<int>, j: int)
    requires StrictlyAscending(keys) && 0 <= j < |keys|
    ensures IndexOf(keys, keys[j]) == j
  {
    var r := IndexOf(keys, keys[j]);
    assert keys[r] == keys[j];
  }

  /** The value a leaf holds for `key`: the value at IndexOf(key), as Search reads it. */
  function Get(keys: seq<int>, values: seq<Value>, key: int): (r: Option<Value>)
    requires |values| == |keys|
    ensures r.None? <==> key !in keys
  {
    var i := IndexOf(keys, key);
    if i < 0 then None else Some(values[i])
  }

  /**
   * List<int>.BinarySearch over keys[lo..hi]: probes the middle, returns its
   * index on a hit, narrows to the half the comparison points at, and returns
   * the complement ~lo of the insertion point once the range is empty.
   */
  function BinarySearchIn(keys: seq<int>, key: int, lo: int, hi: int): (r: int)
    requires 0 <= lo <= hi + 1 <= |keys|
    ensures r >= 0 ==> lo <= r <= hi && keys[r] == key
    ensures r < 0 ==> lo <= -r - 1 <= hi + 1
    decreases hi - lo + 1
  {
    if lo > hi then -lo - 1
    else
      var mid := lo + (hi - lo) / 2;
      if keys[mid] == key then mid
      else if keys[mid] < key then BinarySearchIn(keys, key, mid + 1, hi)
      else BinarySearchIn(keys, key, lo, mid - 1)
  }

  /** A non-negative result is a position holding the key; a negative one is ~(insertion point). */
  function BinarySearch(keys: seq<int>, key: int): (r: int)
    ensures r >= 0 ==> r < |keys| && keys[r] == key
    ensures r < 0 ==> -r - 1 <= |keys|
  {
    BinarySearchIn(keys, key, 0, |keys| - 1)
  }

  /**
   * The reference insertion point for sorted keys: the first position whose
   * key is at least `key` (the key's own position when present).
   */
  function LowerBound(keys: seq<int>, key: int): (i: nat)
    ensures i <= |keys|
    ensures forall j :: 0 <= j < i ==> keys[j] < key
    ensures i < |keys| ==> key <= keys[i]
  {
    if keys == [] || key <= keys[0] then 0 else 1 + LowerBound(keys[1..], key)
  }

  lemma LowerBoundFinds(keys: seq<int>, key: int)
    requires StrictlyAscending(keys) && key in keys
    ensures LowerBound(keys, key) < |keys| && keys[LowerBound(keys, key)] == key
  {
    var i := LowerBound(keys, key);
    var m :| 0 <= m < |keys| && keys[m] == key;
    assert i <= m;
    assert keys[i] <= keys[m];
  }

  /** An empty search range at lo that separates smaller keys from larger ones is the insertion point. */
  lemma EmptyRangeIsLowerBound(keys: seq<int>, key: int, lo: int)
    requires 0 <= lo <= |keys|
    requires forall j :: 0 <= j < lo ==> keys[j] < key
    requires forall j :: lo <= j < |keys| ==> key < keys[j]
    ensures key !in keys && LowerBound(keys, key) == lo
  {
    var i := LowerBound(keys, key);
    if lo < |keys| {
      assert !(keys[lo] < key);
    }
    assert i <= lo;
    assert i >= lo;
  }

  lemma BelowProbe(keys: seq<int>, key: int, mid: int)
    requires StrictlyAscending(keys) && 0 <= mid < |keys| && keys[mid] < key
    ensures forall j :: 0 <= j <= mid ==> keys[j] < key
  {
  }

  lemma AboveProbe(keys: seq<int>, key: int, mid: int)
    requires StrictlyAscending(keys) && 0 <= mid < |keys| && key < keys[mid]
    ensures forall j :: mid <= j < |keys| ==> key < keys[j]
  {
  }

  lemma {:induction false} BinarySearchInSorted(keys: seq<int>, key: int, lo: int, hi: int)
    requires StrictlyAscending(keys) && 0 <= lo <= hi + 1 <= |keys|
    requires forall j :: 0 <= j < lo ==> keys[j] < key
    requires forall j :: hi < j < |keys| ==> key < keys[j]
    ensures var r := BinarySearchIn(keys, key, lo, hi);
      && (r >= 0 <==> key in keys)
      && (r < 0 ==> -r - 1 == LowerBound(keys, key))
    decreases hi - lo + 1
  {
    if lo > hi {
      EmptyRangeIsLowerBound(keys, key, lo);
    } else {
      var mid := lo + (hi - lo) / 2;
      if keys[mid] < key {
        BelowProbe(keys, key, mid);
        BinarySearchInSorted(keys, key, mid + 1, hi);
      } else if key < keys[mid] {
        AboveProbe(keys, key, mid);
        BinarySearchInSorted(keys, key, lo, mid - 1);
      }
    }
  }

  /**
   * On strictly ascending keys, BinarySearch finds exactly the keys present,
   * at their own position, and otherwise reports the LowerBound insertion point.
   */
  lemma BinarySearchSorted(keys: seq<int>, key: int)
    requires StrictlyAscending(keys)
    ensures var r := BinarySearch(keys, key);
      && (r >= 0 <==> key in keys)
      && (r >= 0 ==> r == LowerBound(keys, key))
      && (r < 0 ==> -r - 1 == LowerBound(keys, key))
  {
    BinarySearchInSorted(keys, key, 0, |keys| - 1);
    var r := BinarySearch(keys, key);
    if r >= 0 {
      LowerBoundFinds(keys, key);
      assert keys[r] == keys[LowerBound(keys, key)];
    }
  }

  /**
   * On keys that are not sorted BinarySearch need not find a present key nor
   * give the first larger position: for [30, 10, 20] and 15 it probes 10,
   * then 20, and reports insertion point 2.
   */
  lemma BinarySearchUnsorted()
    ensures BinarySearch([30, 10, 20], 15) == -3
    ensures BinarySearch([30, 10, 20], 30) == -4
    ensures LowerBound([30, 10, 20], 15) == 0
  {
    assert BinarySearchIn([30, 10, 20], 15, 2, 2) == -3;
    assert BinarySearchIn([30, 10, 20], 30, 2, 2) == -4;
  }

  // ---- leaf upsert ----

  function InsertAt<T>(s: seq<T>, i: nat, x: T): (r: seq<T>)
    requires i <= |s|
    ensures |r| == |s| + 1 && r[i] == x
    ensures forall j :: 0 <= j < i ==> r[j] == s[j]
    ensures forall j :: i < j < |r| ==> r[j] == s[j - 1]
  {
    s[..i] + [x] + s[i..]
  }

  /**
   * The leaf step of InsertRecursive / InsertInLeaf: an existing key keeps its
   * position and gets the new value; a new key and its value go in at the
   * BinarySearch insertion point.
   */
  function Upsert(keys: seq<int>, values: seq<Value>, key: int, value: Value): (r: (seq<int>, seq<Value>))
    requires |values| == |keys|
    ensures |r.1| == |r.0| && key in r.0
  {
    var i := BinarySearch(keys, key);
    if i >= 0 then (keys, values[i := value])
    else (InsertAt(keys, -i - 1, key), InsertAt(values, -i - 1, value))
  }

  /** On sorted keys, Upsert overwrites or inserts at the LowerBound position. */
  lemma UpsertAtLowerBound(keys: seq<int>, values: seq<Value>, key: int, value: Value)
    requires |values| == |keys| && StrictlyAscending(keys)
    ensures var i := LowerBound(keys, key);
      Upsert(keys, values, key, value) ==
        if key in keys then (keys, values[i := value]) else (InsertAt(keys, i, key), InsertAt(values, i, value))
  {
    BinarySearchSorted(keys, key);
  }

  /** Inserting an absent key at its LowerBound position keeps the keys sorted. */
  lemma InsertNewKeySorted(keys: seq<int>, key: int)
    requires StrictlyAscending(keys) && key !in keys
    ensures StrictlyAscending(InsertAt(keys, LowerBound(keys, key), key))
  {
    var i := LowerBound(keys, key);
    var ks := InsertAt(keys, i, key);
    assert !(i < |keys| && keys[i] == key);
    forall a, b | 0 <= a < b < |ks|
      ensures ks[a] < ks[b]
    {
      if a < i && b > i { assert ks[b] == keys[b - 1]; }
    }
  }

  /** After that insert, a key other than the new one is looked up as before. */
  lemma InsertNewKeyOther(keys: seq<int>, values: seq<Value>, key: int, value: Value, k: int)
    requires |values| == |keys| && StrictlyAscending(keys) && key !in keys && k != key
    requires StrictlyAscending(InsertAt(keys, LowerBound(keys, key), key))
    ensures var i := LowerBound(keys, key);
      Get(InsertAt(keys, i, key), InsertAt(values, i, value), k) == Get(keys, values, k)
  {
    var i := LowerBound(keys, key);
    var ks := InsertAt(keys, i, key);
    if k in keys {
      var j := IndexOf(keys, k);
      var j' := if j < i then j else j + 1;
      assert ks[j'] == k;
      IndexOfSorted(ks, j');
    } else {
      forall m | 0 <= m < |ks|
        ensures ks[m] != k
      {
        if m < i { assert ks[m] == keys[m]; }
        else if m > i { assert ks[m] == keys[m - 1]; }
      }
    }
  }

  /** Inserting an absent key at its LowerBound position keeps the keys sorted and every other lookup. */
  lemma InsertNewKey(keys: seq<int>, values: seq<Value>, key: int, value: Value)
    requires |values| == |keys| && StrictlyAscending(keys) && key !in keys
    ensures var i := LowerBound(keys, key);
      var ks := InsertAt(keys, i, key);
      var vs := InsertAt(values, i, value);
      && StrictlyAscending(ks)
      && Get(ks, vs, key) == Some(value)
      && (forall k :: k != key ==> Get(ks, vs, k) == Get(keys, values, k))
  {
    var i := LowerBound(keys, key);
    InsertNewKeySorted(keys, key);
    IndexOfSorted(InsertAt(keys, i, key), i);
    forall k | k != key
      ensures Get(InsertAt(keys, i, key), InsertAt(values, i, value), k) == Get(keys, values, k)
    {
      InsertNewKeyOther(keys, values, key, value, k);
    }
  }

  /**
   * On a sorted leaf, Upsert keeps the keys strictly ascending, maps `key` to
   * `value`, leaves every other key's value as it was, and adds one entry
   * exactly when the key was absent.
   */
  lemma UpsertSpec(keys: seq<int>, values: seq<Value>, key: int, value: Value)
    requires |values| == |keys| && StrictlyAscending(keys)
    ensures var r := Upsert(keys, values, key, value);
      && StrictlyAscending(r.0)
      && Get(r.0, r.1, key) == Some(value)
      && (forall k :: k != key ==> Get(r.0, r.1, k) == Get(keys, values, k))
      && (key in keys ==> r.0 == keys)
      && (key !in keys ==> |r.0| == |keys| + 1)
  {
    var i := LowerBound(keys, key);
    UpsertAtLowerBound(keys, values, key, value);
    if key in keys {
      LowerBoundFinds(keys, key);
      IndexOfSorted(keys, i);
    } else {
      InsertNewKey(keys, values, key, value);
    }
  }

  // ---- splits ----

  /** The separator order a node's keys satisfy relative to a split key. */
  predicate AllBelow(keys: seq<int>, k: int) { forall j :: 0 <= j < |keys| ==> keys[j] < k }
  predicate AllFrom(keys: seq<int>, k: int) { forall j :: 0 <= j < |keys| ==> k <= keys[j] }

  /**
   * The leaf split: the old leaf keeps [0, mid) and links to the new page;
   * the new leaf takes [mid, count) and inherits the old next link; the
   * promoted key is the new leaf's first key. mid = count / 2.
   */
  function SplitLeaf(leaf: Node, newId: int): (r: (Node, Node, int))
    requires leaf.Leaf? && ShapeOk(leaf) && |leaf.keys| >= 1
    ensures r.0.Leaf? && r.1.Leaf? && ShapeOk(r.0) && ShapeOk(r.1)
  {
    var mid := |leaf.keys| / 2;
    (Leaf(leaf.keys[..mid], leaf.values[..mid], Some(newId)),
     Leaf(leaf.keys[mid..], leaf.values[mid..], leaf.next),
     leaf.keys[mid])
  }

  /** The halves of a leaf split put back together give the leaf; nothing is lost or reordered. */
  lemma SplitLeafSpec(leaf: Node, newId: int)
    requires leaf.Leaf? && ShapeOk(leaf) && |leaf.keys| >= 1
    ensures var (l, r, k) := SplitLeaf(leaf, newId);
      && l.Leaf? && r.Leaf? && ShapeOk(l) && ShapeOk(r)
      && l.keys + r.keys == leaf.keys && l.values + r.values == leaf.values
      && |l.keys| == |leaf.keys| / 2 && |r.keys| >= 1 && k == r.keys[0]
      && l.next == Some(newId) && r.next == leaf.next
      && (StrictlyAscending(leaf.keys) ==>
            StrictlyAscending(l.keys) && StrictlyAscending(r.keys) && AllBelow(l.keys, k) && AllFrom(r.keys, k))
  {
    var mid := |leaf.keys| / 2;
    assert leaf.keys[..mid] + leaf.keys[mid..] == leaf.keys;
    assert leaf.values[..mid] + leaf.values[mid..] == leaf.values;
  }

  /**
   * The internal split at midIdx = count / 2: keys [0, midIdx) and children
   * [0, midIdx] stay, keys (midIdx, count) and the remaining children move;
   * keys[midIdx] is promoted and kept in neither half.
   */
  function SplitInternal(node: Node): (r: (Node, Node, int))
    requires node.Internal? && ShapeOk(node) && |node.keys| >= 1
    ensures r.0.Internal? && r.1.Internal? && ShapeOk(r.0) && ShapeOk(r.1)
  {
    var mid := |node.keys| / 2;
    (Internal(node.keys[..mid], node.children[..mid + 1]),
     Internal(node.keys[mid + 1..], node.children[mid + 1..]),
     node.keys[mid])
  }

  lemma SplitInternalSpec(node: Node)
    requires node.Internal? && ShapeOk(node) && |node.keys| >= 1
    ensures var (l, r, k) := SplitInternal(node);
      && l.Internal? && r.Internal? && ShapeOk(l) && ShapeOk(r)
      && l.keys + [k] + r.keys == node.keys
      && l.children + r.children == node.children
      && |l.keys| == |node.keys| / 2
      && (StrictlyAscending(node.keys) ==>
            StrictlyAscending(l.keys) && StrictlyAscending(r.keys) && AllBelow(l.keys, k) && k !in r.keys
            && (forall j :: 0 <= j < |r.keys| ==> k < r.keys[j]))
  {
    var mid := |node.keys| / 2;
    assert node.keys[..mid] + [node.keys[mid]] + node.keys[mid + 1..] == node.keys;
    assert node.children[..mid + 1] + node.children[mid + 1..] == node.children;
  }

  /** Parent insertion: the key at `pos` and the new child right after the child it came from. */
  function InsertChild(node: Node, pos: nat, key: int, child: int): (r: Node)
    requires node.Internal? && ShapeOk(node) && pos <= |node.keys|
    ensures r.Internal? && ShapeOk(r) && |r.keys| == |node.keys| + 1
  {
    Internal(InsertAt(node.keys, pos, key), InsertAt(node.children, pos + 1, child))
  }

  lemma InsertChildSpec(node: Node, pos: nat, key: int, child: int)
    requires node.Internal? && ShapeOk(node) && pos <= |node.keys|
    ensures var r := InsertChild(node, pos, key, child);
      && ShapeOk(r) && r.keys[pos] == key && r.children[pos + 1] == child
      && r.children[pos] == node.children[pos]
      && r.keys[..pos] == node.keys[..pos] && r.keys[pos + 1..] == node.keys[pos..]
      && r.children[..pos + 1] == node.children[..pos + 1] && r.children[pos + 2..] == node.children[pos + 1..]
  {
  }

  // ---- deletion steps ----

  /** List.RemoveAt. */
  function RemoveAt<T>(s: seq<T>, i: nat): (r: seq<T>)
    requires i < |s|
    ensures |r| == |s| - 1
    ensures forall j :: 0 <= j < i ==> r[j] == s[j]
    ensures forall j :: i <= j < |r| ==> r[j] == s[j + 1]
  {
    s[..i] + s[i + 1..]
  }

  /** Removing a key from a leaf: the entry at `i` goes, the rest keep their order. */
  function LeafRemove(leaf: Node, i: nat): (r: Node)
    requires leaf.Leaf? && ShapeOk(leaf) && i < |leaf.keys|
  {
    Leaf(RemoveAt(leaf.keys, i), RemoveAt(leaf.values, i), leaf.next)
  }

  lemma RemoveAtSorted(keys: seq<int>, i: nat)
    requires StrictlyAscending(keys) && i < |keys|
    ensures StrictlyAscending(RemoveAt(keys, i)) && keys[i] !in RemoveAt(keys, i)
  {
    var r := RemoveAt(keys, i);
    forall a, b | 0 <= a < b < |r|
      ensures r[a] < r[b]
    {
      assert r[a] == keys[if a < i then a else a + 1];
      assert r[b] == keys[if b < i then b else b + 1];
    }
    forall m | 0 <= m < |r|
      ensures r[m] != keys[i]
    {
      assert r[m] == keys[if m < i then m else m + 1];
    }
  }

  lemma LeafRemoveSpec(leaf: Node, key: int)
    requires leaf.Leaf? && ShapeOk(leaf) && StrictlyAscending(leaf.keys) && key in leaf.keys
    ensures var r := LeafRemove(leaf, IndexOf(leaf.keys, key));
      && ShapeOk(r) && StrictlyAscending(r.keys) && key !in r.keys && r.next == leaf.next
      && |r.keys| == |leaf.keys| - 1
      && (forall k :: k != key ==> Get(r.keys, r.values, k) == Get(leaf.keys, leaf.values, k))
  {
    var i := IndexOf(leaf.keys, key);
    var r := LeafRemove(leaf, i);
    RemoveAtSorted(leaf.keys, i);
    forall k | k != key
      ensures Get(r.keys, r.values, k) == Get(leaf.keys, leaf.values, k)
    {
      RemoveAtGet(leaf, i, k);
    }
  }

  lemma RemoveAtGet(leaf: Node, i: nat, k: int)
    requires leaf.Leaf? && ShapeOk(leaf) && StrictlyAscending(leaf.keys) && i < |leaf.keys| && k != leaf.keys[i]
    ensures var r := LeafRemove(leaf, i); Get(r.keys, r.values, k) == Get(leaf.keys, leaf.values, k)
  {
    var r := LeafRemove(leaf, i);
    RemoveAtSorted(leaf.keys, i);
    if k in leaf.keys {
      var j := IndexOf(leaf.keys, k);
      var j' := if j < i then j else j - 1;
      assert r.keys[j'] == k;
      IndexOfSorted(r.keys, j');
    } else {
      forall m | 0 <= m < |r.keys|
        ensures r.keys[m] != k
      {
        assert r.keys[m] == leaf.keys[if m < i then m else m + 1];
      }
    }
  }

  /** Leaf borrow from the left: the left sibling's last entry becomes the leaf's first. */
  function LeafBorrowLeft(left: Node, leaf: Node): (r: (Node, Node))
    requires left.Leaf? && leaf.Leaf? && ShapeOk(left) && ShapeOk(leaf) && |left.keys| >= 1
    ensures r.0.Leaf? && r.1.Leaf? && ShapeOk(r.0) && ShapeOk(r.1)
  {
    var n := |left.keys|;
    (Leaf(left.keys[..n - 1], left.values[..n - 1], left.next),
     Leaf([left.keys[n - 1]] + leaf.keys, [left.values[n - 1]] + leaf.values, leaf.next))
  }

  /** Leaf borrow from the right: the right sibling's first entry becomes the leaf's last. */
  function LeafBorrowRight(leaf: Node, right: Node): (r: (Node, Node))
    requires right.Leaf? && leaf.Leaf? && ShapeOk(right) && ShapeOk(leaf) && |right.keys| >= 1
    ensures r.0.Leaf? && r.1.Leaf? && ShapeOk(r.0) && ShapeOk(r.1)
  {
    (Leaf(leaf.keys + [right.keys[0]], leaf.values + [right.values[0]], leaf.next),
     Leaf(right.keys[1..], right.values[1..], right.next))
  }

  /** Leaf merge: the right node's entries are appended to the left and its next link passed on. */
  function LeafMerge(left: Node, right: Node): (r: Node)
    requires left.Leaf? && right.Leaf?
    ensures r.Leaf? && (ShapeOk(left) && ShapeOk(right) ==> ShapeOk(r))
  {
    Leaf(left.keys + right.keys, left.values + right.values, right.next)
  }

  /** IndexOf over a concatenation: a hit in the first part wins, else the second part's position, shifted. */
  lemma {:induction false} IndexOfAppend(a: seq<int>, b: seq<int>, key: int)
    ensures IndexOf(a + b, key) ==
      if key in a then IndexOf(a, key) else if key in b then |a| + IndexOf(b, key) else -1
  {
    if a == [] {
      assert a + b == b;
    } else {
      assert (a + b)[1..] == a[1..] + b;
      IndexOfAppend(a[1..], b, key);
      assert key in a <==> a[0] == key || key in a[1..];
    }
  }

  /**
   * A leaf merge answers every lookup as the left node does for its own keys
   * and as the right node does for the rest, and takes over the right node's
   * next link.
   */
  lemma LeafMergeSpec(left: Node, right: Node)
    requires left.Leaf? && right.Leaf? && ShapeOk(left) && ShapeOk(right)
    ensures var m := LeafMerge(left, right);
      && ShapeOk(m) && m.next == right.next
      && forall k :: Get(m.keys, m.values, k) ==
           if k in left.keys then Get(left.keys, left.values, k) else Get(right.keys, right.values, k)
  {
    var m := LeafMerge(left, right);
    forall k
      ensures Get(m.keys, m.values, k) ==
        if k in left.keys then Get(left.keys, left.values, k) else Get(right.keys, right.values, k)
    {
      IndexOfAppend(left.keys, right.keys, k);
    }
  }

  /**
   * A leaf borrow moves exactly one boundary entry: read left to right, the
   * two siblings hold the same entries before and after, the receiving node
   * gains one and the giving node loses one, and next links stay put.
   */
  lemma LeafBorrowSpec(left: Node, right: Node)
    requires left.Leaf? && right.Leaf? && ShapeOk(left) && ShapeOk(right)
    ensures |left.keys| >= 1 ==>
      var (l, r) := LeafBorrowLeft(left, right);
      && ShapeOk(l) && ShapeOk(r) && l.keys + r.keys == left.keys + right.keys
      && l.values + r.values == left.values + right.values
      && |r.keys| == |right.keys| + 1 && r.keys[0] == left.keys[|left.keys| - 1]
      && l.next == left.next && r.next == right.next
    ensures |right.keys| >= 1 ==>
      var (l, r) := LeafBorrowRight(left, right);
      && ShapeOk(l) && ShapeOk(r) && l.keys + r.keys == left.keys + right.keys
      && l.values + r.values == left.values + right.values
      && |l.keys| == |left.keys| + 1 && l.keys[|l.keys| - 1] == right.keys[0]
      && l.next == left.next && r.next == right.next
  {
    if |left.keys| >= 1 {
      var n := |left.keys|;
      assert left.keys[..n - 1] + ([left.keys[n - 1]] + right.keys) == left.keys + right.keys;
      assert left.values[..n - 1] + ([left.values[n - 1]] + right.values) == left.values + right.values;
    }
    if |right.keys| >= 1 {
      assert left.keys + [right.keys[0]] + right.keys[1..] == left.keys + right.keys;
      assert left.values + [right.values[0]] + right.values[1..] == left.values + right.values;
    }
  }

  /** Internal borrow from the left: the separator comes down in front, the left's last key goes up. */
  function InternalBorrowLeft(left: Node, node: Node, separator: int): (r: (Node, Node, int))
    requires left.Internal? && node.Internal? && ShapeOk(left) && ShapeOk(node) && |left.keys| >= 1
    ensures r.0.Internal? && r.1.Internal? && ShapeOk(r.0) && ShapeOk(r.1)
  {
    var n := |left.keys|;
    (Internal(left.keys[..n - 1], left.children[..n]),
     Internal([separator] + node.keys, [left.children[n]] + node.children),
     left.keys[n - 1])
  }

  /** Internal borrow from the right: the separator comes down at the end, the right's first key goes up. */
  function InternalBorrowRight(node: Node, right: Node, separator: int): (r: (Node, Node, int))
    requires right.Internal? && node.Internal? && ShapeOk(right) && ShapeOk(node) && |right.keys| >= 1
    ensures r.0.Internal? && r.1.Internal? && ShapeOk(r.0) && ShapeOk(r.1)
  {
    (Internal(node.keys + [separator], node.children + [right.children[0]]),
     Internal(right.keys[1..], right.children[1..]),
     right.keys[0])
  }

  /** Internal merge: left keys, the separator, right keys; left children then right children. */
  function InternalMerge(left: Node, right: Node, separator: int): (r: Node)
    requires left.Internal? && right.Internal?
    ensures r.Internal? && (ShapeOk(left) && ShapeOk(right) ==> ShapeOk(r))
  {
    Internal(left.keys + [separator] + right.keys, left.children + right.children)
  }

  /**
   * The rotations keep children = keys + 1 on both sides, and read in order
   * (left keys, separator, right keys; left children, right children) the two
   * siblings and their separator are the same before and after; the merge
   * keeps that same in-order sequence in one node.
   */
  lemma InternalStepsSpec(left: Node, right: Node, separator: int)
    requires left.Internal? && right.Internal? && ShapeOk(left) && ShapeOk(right)
    ensures |left.keys| >= 1 ==>
      var (l, r, s) := InternalBorrowLeft(left, right, separator);
      && ShapeOk(l) && ShapeOk(r) && |r.keys| == |right.keys| + 1
      && l.keys + [s] + r.keys == left.keys + [separator] + right.keys
      && l.children + r.children == left.children + right.children
    ensures |right.keys| >= 1 ==>
      var (l, r, s) := InternalBorrowRight(left, right, separator);
      && ShapeOk(l) && ShapeOk(r) && |l.keys| == |left.keys| + 1
      && l.keys + [s] + r.keys == left.keys + [separator] + right.keys
      && l.children + r.children == left.children + right.children
    ensures ShapeOk(InternalMerge(left, right, separator))
  {
    if |left.keys| >= 1 {
      var n := |left.keys|;
      assert left.keys[..n - 1] + [left.keys[n - 1]] + ([separator] + right.keys) == left.keys + [separator] + right.keys;
      assert left.children[..n] + ([left.children[n]] + right.children) == left.children + right.children;
    }
    if |right.keys| >= 1 {
      assert left.keys + [separator] + [right.keys[0]] + right.keys[1..] == left.keys + [separator] + right.keys;
      assert left.children + [right.children[0]] + right.children[1..] == left.children + right.children;
    }
  }
}
