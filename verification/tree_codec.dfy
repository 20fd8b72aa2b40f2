/**
 * The binary half of TreeSerializationService for the in-memory tree.
 * WriteNode writes a node in pre-order: a type byte (0 for a leaf, 1 for an
 * internal node), the int32 key count and keys, then for a leaf the int32
 * value count and the length-prefixed values, and for an internal node the
 * int32 child count and each child in turn. Next links are not written:
 * LoadFromBinary collects the leaves in the order ReadNode meets them and
 * LinkLeafNodes chains them afterwards.
 */
module TreeCodec {
  import opened Wrappers
  import opened Bytes
  import opened Nodes

  /** A node as WriteNode sees it: its keys and its values or its children, without the Next link. */
  datatype Tree =
    | TLeaf(keys: seq<int>, values: seq<Value>)
    | TInternal(keys: seq<int>, children: seq<Tree>)

  const LeafTag: byte := 0
  const InternalTag: byte := 1

  function WriteNode(t: Tree): (b: seq<byte>)
    decreases t
  {
    [if t.TLeaf? then LeafTag else InternalTag] + Int32Bytes(|t.keys|) + Int32sBytes(t.keys) +
    match t
    case TLeaf(_, values) => Int32Bytes(|values|) + StringsBytes(values)
    case TInternal(_, children) => Int32Bytes(|children|) + WriteNodes(children)
  }

  /** The children one after another, each with its whole subtree. */
  function WriteNodes(ts: seq<Tree>): (b: seq<byte>)
    decreases ts
  {
    if ts == [] then [] else WriteNode(ts[0]) + WriteNodes(ts[1..])
  }

  /** BinaryReader.ReadByte. */
  function ReadByte(s: seq<byte>): (r: Option<(byte, seq<byte>)>)
    ensures r.Some? <==> |s| >= 1
    ensures r.Some? ==> r.value == (s[0], s[1..])
  {
    if |s| == 0 then None else Some((s[0], s[1..]))
  }

  /**
   * ReadNode: the node, the leaves it added to the leaf list (in the order
   * it read them) and the bytes after it. Type 0 reads a leaf; any other
   * type byte reads an internal node. None where a BinaryReader would
   * throw at the end of the stream.
   */
  function ReadNode(s: seq<byte>): (r: Option<(Tree, seq<Tree>, seq<byte>)>)
    ensures r.Some? ==> |r.value.2| < |s|
    decreases |s|, 0
  {
    match ReadByte(s)
    case None => None
    case Some((tag, s1)) =>
      match ReadInt32(s1)
      case None => None
      case Some((keyCount, s2)) =>
        match ReadInt32s(s2, keyCount)
        case None => None
        case Some((keys, s3)) =>
          match ReadInt32(s3)
          case None => None
          case Some((count, s4)) =>
            if tag == LeafTag then
              match ReadStrings(s4, count)
              case None => None
              case Some((values, s5)) => Some((TLeaf(keys, values), [TLeaf(keys, values)], s5))
            else
              match ReadChildren(s4, count)
              case None => None
              case Some((children, leaves, s5)) => Some((TInternal(keys, children), leaves, s5))
  }

  /** The `for (i = 0; i < childCount; i++) children.Add(ReadNode(...))` loop. */
  function ReadChildren(s: seq<byte>, count: int): (r: Option<(seq<Tree>, seq<Tree>, seq<byte>)>)
    ensures r.Some? ==> |r.value.2| <= |s|
    decreases |s|, 1, count
  {
    if count <= 0 then Some(([], [], s))
    else match ReadNode(s)
      case None => None
      case Some((t, leaves, s1)) =>
        match ReadChildren(s1, count - 1)
        case None => None
        case Some((ts, moreLeaves, s2)) => Some(([t] + ts, leaves + moreLeaves, s2))
  }

  /** The leaves of a tree from left to right. */
  function Leaves(t: Tree): (r: seq<Tree>)
    decreases t
  {
    match t
    case TLeaf(_, _) => [t]
    case TInternal(_, children) => LeavesOf(children)
  }

  function LeavesOf(ts: seq<Tree>): (r: seq<Tree>)
    decreases ts
  {
    if ts == [] then [] else Leaves(ts[0]) + LeavesOf(ts[1..])
  }

  /** What a tree must satisfy for its int32 counts and strings to be written faithfully. */
  predicate Encodable(t: Tree)
    decreases t
  {
    && |t.keys| < TwoTo31 && AllInt32(t.keys)
    && match t
       case TLeaf(_, values) => |values| < TwoTo31 && AllWritable(values)
       case TInternal(_, children) =>
         |children| < TwoTo31 && forall i :: 0 <= i < |children| ==> Encodable(children[i])
  }

  /** The first byte written is 0 exactly for a leaf. */
  lemma WriteTag(t: Tree)
    ensures |WriteNode(t)| > 0 && (WriteNode(t)[0] == LeafTag <==> t.TLeaf?)
  {
  }

  /**
   * ReadNode(WriteNode(t)) rebuilds t with the same shape, keys and values,
   * lists t's leaves from left to right, and stops exactly at the end of
   * t's bytes.
   */
  lemma {:induction false} RoundTrip(t: Tree, rest: seq<byte>)
    requires Encodable(t)
    ensures ReadNode(WriteNode(t) + rest) == Some((t, Leaves(t), rest))
    decreases t, 2
  {
    match t
    case TLeaf(keys, values) => LeafRoundTrip(keys, values, rest);
    case TInternal(keys, children) => InternalRoundTrip(keys, children, rest);
  }

  /** The bytes after the type byte: what both kinds of node start with. */
  lemma KeysRead(tag: byte, keys: seq<int>, body: seq<byte>)
    requires |keys| < TwoTo31 && AllInt32(keys)
    ensures var s := [tag] + Int32Bytes(|keys|) + Int32sBytes(keys) + body;
      && ReadByte(s) == Some((tag, Int32Bytes(|keys|) + (Int32sBytes(keys) + body)))
      && ReadInt32(Int32Bytes(|keys|) + (Int32sBytes(keys) + body)) == Some((|keys|, Int32sBytes(keys) + body))
      && ReadInt32s(Int32sBytes(keys) + body, |keys|) == Some((keys, body))
  {
    var s := [tag] + Int32Bytes(|keys|) + Int32sBytes(keys) + body;
    assert s[1..] == Int32Bytes(|keys|) + (Int32sBytes(keys) + body);
    ReadInt32Bytes(|keys|, Int32sBytes(keys) + body);
    ReadInt32sBytes(keys, body);
  }

  lemma LeafRoundTrip(keys: seq<int>, values: seq<Value>, rest: seq<byte>)
    requires Encodable(TLeaf(keys, values))
    ensures ReadNode(WriteNode(TLeaf(keys, values)) + rest) == Some((TLeaf(keys, values), [TLeaf(keys, values)], rest))
  {
    var body := Int32Bytes(|values|) + (StringsBytes(values) + rest);
    assert WriteNode(TLeaf(keys, values)) + rest == [LeafTag] + Int32Bytes(|keys|) + Int32sBytes(keys) + body;
    KeysRead(LeafTag, keys, body);
    ReadInt32Bytes(|values|, StringsBytes(values) + rest);
    ReadStringsBytes(values, rest);
  }

  lemma {:induction false} InternalRoundTrip(keys: seq<int>, children: seq<Tree>, rest: seq<byte>)
    requires Encodable(TInternal(keys, children))
    ensures ReadNode(WriteNode(TInternal(keys, children)) + rest) ==
            Some((TInternal(keys, children), LeavesOf(children), rest))
    decreases TInternal(keys, children), 1
  {
    var body := Int32Bytes(|children|) + (WriteNodes(children) + rest);
    assert WriteNode(TInternal(keys, children)) + rest == [InternalTag] + Int32Bytes(|keys|) + Int32sBytes(keys) + body;
    KeysRead(InternalTag, keys, body);
    ReadInt32Bytes(|children|, WriteNodes(children) + rest);
    ChildrenRoundTrip(children, rest);
  }

  lemma {:induction false} ChildrenRoundTrip(ts: seq<Tree>, rest: seq<byte>)
    requires forall i :: 0 <= i < |ts| ==> Encodable(ts[i])
    ensures ReadChildren(WriteNodes(ts) + rest, |ts|) == Some((ts, LeavesOf(ts), rest))
    decreases ts, 0
  {
    if ts != [] {
      assert WriteNodes(ts) + rest == WriteNode(ts[0]) + (WriteNodes(ts[1..]) + rest);
      RoundTrip(ts[0], WriteNodes(ts[1..]) + rest);
      ChildrenRoundTrip(ts[1..], rest);
      assert [ts[0]] + ts[1..] == ts;
      assert LeavesOf(ts) == Leaves(ts[0]) + LeavesOf(ts[1..]);
      assert ReadNode(WriteNodes(ts) + rest) == Some((ts[0], Leaves(ts[0]), WriteNodes(ts[1..]) + rest));
    } else {
      assert WriteNodes(ts) + rest == rest;
    }
  }

  /** Any type byte other than 0 reads the node as internal. */
  lemma NonZeroTagIsInternal(s: seq<byte>)
    requires |s| > 0 && s[0] != LeafTag
    ensures ReadNode(s).Some? ==> ReadNode(s).value.0.TInternal?
  {
  }

  /** A leaf read adds exactly itself to the leaf list. */
  lemma LeafAddsItself(s: seq<byte>)
    requires |s| > 0 && s[0] == LeafTag && ReadNode(s).Some?
    ensures ReadNode(s).value.1 == [ReadNode(s).value.0] && ReadNode(s).value.0.TLeaf?
  {
  }

  // ---- LinkLeafNodes ----

  /**
   * The heap after `leaves[i].Next = leaves[i + 1]` for i = 0 .. n - 1, in
   * that order; a handle that is not a leaf's is left alone.
   */
  function LinkedUpTo(nodes: map<int, Node>, leaves: seq<int>, n: nat): (r: map<int, Node>)
    requires n < |leaves| || (n == 0 && leaves == [])
    ensures r.Keys == nodes.Keys
  {
    if n == 0 then nodes
    else
      var prev := LinkedUpTo(nodes, leaves, n - 1);
      var id := leaves[n - 1];
      if id in prev && prev[id].Leaf? then prev[id := prev[id].(next := Some(leaves[n]))] else prev
  }

  function LastIndex(leaves: seq<int>): nat {
    if leaves == [] then 0 else |leaves| - 1
  }

  /** LinkLeafNodes: each leaf's Next becomes the leaf after it; the last leaf's Next is not touched. */
  method LinkLeafNodes(nodes: map<int, Node>, leaves: seq<int>) returns (r: map<int, Node>)
    ensures r == LinkedUpTo(nodes, leaves, LastIndex(leaves))
  {
    r := nodes;
    if leaves == [] {
      return;
    }
    var i := 0;
    while i < |leaves| - 1
      invariant 0 <= i <= |leaves| - 1
      invariant r == LinkedUpTo(nodes, leaves, i)
    {
      var id := leaves[i];
      if id in r && r[id].Leaf? {
        r := r[id := r[id].(next := Some(leaves[i + 1]))];
      }
      i := i + 1;
    }
  }

  /** Handles listed at most once. */
  predicate Distinct(leaves: seq<int>) {
    forall i, j :: 0 <= i < j < |leaves| ==> leaves[i] != leaves[j]
  }

  /** Nodes not among the first `n` listed handles are left as they were. */
  lemma {:induction false} LinkedKeeps(nodes: map<int, Node>, leaves: seq<int>, n: nat)
    requires n < |leaves|
    ensures forall id :: id in nodes && id !in leaves[..n] ==> LinkedUpTo(nodes, leaves, n)[id] == nodes[id]
  {
    if n > 0 {
      LinkedKeeps(nodes, leaves, n - 1);
      assert leaves[..n] == leaves[..n - 1] + [leaves[n - 1]];
    }
  }

  /**
   * For a leaf list without repeats, every listed leaf before position `n`
   * now links to the one after it and keeps its keys and values.
   */
  lemma {:induction false} LinkedLinks(nodes: map<int, Node>, leaves: seq<int>, n: nat)
    requires n < |leaves| && Distinct(leaves)
    requires forall i :: 0 <= i < |leaves| ==> leaves[i] in nodes && nodes[leaves[i]].Leaf?
    ensures forall i :: 0 <= i < n ==> LinkedUpTo(nodes, leaves, n)[leaves[i]] == nodes[leaves[i]].(next := Some(leaves[i + 1]))
  {
    if n > 0 {
      var prev := LinkedUpTo(nodes, leaves, n - 1);
      var id := leaves[n - 1];
      var linked := nodes[id].(next := Some(leaves[n]));
      assert LinkedUpTo(nodes, leaves, n) == prev[id := linked] by {
        LinkedKeeps(nodes, leaves, n - 1);
        assert id !in leaves[..n - 1];
      }
      LinkedLinks(nodes, leaves, n - 1);
      forall i | 0 <= i < n
        ensures prev[id := linked][leaves[i]] == nodes[leaves[i]].(next := Some(leaves[i + 1]))
      {
        if i < n - 1 {
          assert leaves[i] != id;
        }
      }
    }
  }
}
