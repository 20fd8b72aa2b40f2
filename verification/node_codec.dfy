/**
 * PagedNodeSerializer: a node's page payload is the int32 key count and keys,
 * then for a leaf the value count, the length-prefixed values and the next
 * leaf id (-1 for none), and for an internal node the child count and child
 * ids. The payload does not say which kind it is: Deserialize takes that from
 * the page header, and any type byte other than Leaf decodes as internal.
 */
module NodeCodec {
  import opened Wrappers
  import opened Bytes
  import opened Nodes

  const NoNext: int := -1

  function Serialize(n: Node): (data: seq<byte>)
  {
    Int32Bytes(|n.keys|) + Int32sBytes(n.keys) +
    match n
    case Leaf(_, values, next) =>
      Int32Bytes(|values|) + StringsBytes(values) + Int32Bytes(if next.Some? then next.value else NoNext)
    case Internal(_, children) =>
      Int32Bytes(|children|) + Int32sBytes(children)
  }

  /** Reads a node back; the result carries the page's id as its PageId. Fails where a BinaryReader would. */
  function Deserialize(page: Page): Option<(int, Node)> {
    match ReadInt32(page.data)
    case None => None
    case Some((keyCount, s1)) =>
      match ReadInt32s(s1, keyCount)
      case None => None
      case Some((keys, s2)) =>
        if page.kind == LeafType then
          match ReadInt32(s2)
          case None => None
          case Some((valCount, s3)) =>
            match ReadStrings(s3, valCount)
            case None => None
            case Some((values, s4)) =>
              match ReadInt32(s4)
              case None => None
              case Some((nextId, _)) =>
                Some((page.pageId, Leaf(keys, values, if nextId == NoNext then None else Some(nextId))))
        else
          match ReadInt32(s2)
          case None => None
          case Some((childCount, s3)) =>
            match ReadInt32s(s3, childCount)
            case None => None
            case Some((children, _)) => Some((page.pageId, Internal(keys, children)))
  }

  /** What a node must satisfy to survive the int32 fields of its encoding. */
  predicate Encodable(n: Node) {
    && |n.keys| < TwoTo31 && AllInt32(n.keys)
    && match n
       case Leaf(_, values, next) =>
         |values| < TwoTo31 && AllWritable(values)
         && (next.Some? ==> IsInt32(next.value) && next.value != NoNext)
       case Internal(_, children) =>
         |children| < TwoTo31 && AllInt32(children)
  }

  /** The key count and keys come first, whatever the kind of node. */
  lemma SerializeHead(n: Node)
    ensures Serialize(n)[..4 + 4 * |n.keys|] == Int32Bytes(|n.keys|) + Int32sBytes(n.keys)
  {
  }

  /** An internal payload is 8 + 4·|keys| + 4·|children| bytes long. */
  lemma InternalPayloadLength(keys: seq<int>, children: seq<int>)
    ensures |Serialize(Internal(keys, children))| == 8 + 4 * |keys| + 4 * |children|
  {
  }

  /** Deserialize(Page{id, n.Type, Serialize(n)}) gives back n, with PageId id. */
  lemma RoundTrip(id: int, n: Node)
    requires Encodable(n)
    ensures Deserialize(Page(id, TypeOf(n), Serialize(n))) == Some((id, n))
  {
    match n
    case Leaf(keys, values, next) => LeafRoundTrip(id, keys, values, next);
    case Internal(keys, children) => InternalRoundTrip(id, keys, children);
  }

  lemma LeafRoundTrip(id: int, keys: seq<int>, values: seq<Value>, next: Option<int>)
    requires Encodable(Leaf(keys, values, next))
    ensures Deserialize(Page(id, LeafType, Serialize(Leaf(keys, values, next)))) == Some((id, Leaf(keys, values, next)))
  {
    var nextId := if next.Some? then next.value else NoNext;
    var tail := Int32Bytes(|values|) + (StringsBytes(values) + Int32Bytes(nextId));
    assert Serialize(Leaf(keys, values, next)) == Int32Bytes(|keys|) + (Int32sBytes(keys) + tail);
    ReadInt32Bytes(|keys|, Int32sBytes(keys) + tail);
    ReadInt32sBytes(keys, tail);
    ValuesRead(values, nextId);
  }

  /** What a leaf payload holds after its keys: the values and the next id. */
  lemma ValuesRead(values: seq<Value>, nextId: int)
    requires |values| < TwoTo31 && AllWritable(values) && IsInt32(nextId)
    ensures var tail := Int32Bytes(|values|) + (StringsBytes(values) + Int32Bytes(nextId));
      && ReadInt32(tail) == Some((|values|, StringsBytes(values) + Int32Bytes(nextId)))
      && ReadStrings(StringsBytes(values) + Int32Bytes(nextId), |values|) == Some((values, Int32Bytes(nextId)))
      && ReadInt32(Int32Bytes(nextId)) == Some((nextId, []))
  {
    ReadInt32Bytes(|values|, StringsBytes(values) + Int32Bytes(nextId));
    ReadStringsBytes(values, Int32Bytes(nextId));
    ReadInt32Bytes(nextId, []);
    assert Int32Bytes(nextId) + [] == Int32Bytes(nextId);
  }

  lemma InternalRoundTrip(id: int, keys: seq<int>, children: seq<int>)
    requires Encodable(Internal(keys, children))
    ensures Deserialize(Page(id, InternalType, Serialize(Internal(keys, children)))) == Some((id, Internal(keys, children)))
  {
    var tail := Int32Bytes(|children|) + Int32sBytes(children);
    assert Serialize(Internal(keys, children)) == Int32Bytes(|keys|) + (Int32sBytes(keys) + tail);
    ReadInt32Bytes(|keys|, Int32sBytes(keys) + tail);
    ReadInt32sBytes(keys, tail);
    ReadInt32Bytes(|children|, Int32sBytes(children));
    ReadInt32sBytes(children, []);
    assert Int32sBytes(children) + [] == Int32sBytes(children);
  }

  /** A stored next id of -1 reads as "no next leaf". */
  lemma MinusOneIsNoNext(id: int, keys: seq<int>, values: seq<Value>)
    requires |keys| < TwoTo31 && AllInt32(keys) && |values| < TwoTo31 && AllWritable(values)
    ensures Deserialize(Page(id, LeafType, Serialize(Leaf(keys, values, Some(NoNext))))) ==
            Some((id, Leaf(keys, values, None)))
  {
    var n := Leaf(keys, values, None);
    RoundTrip(id, n);
    assert Serialize(Leaf(keys, values, Some(NoNext))) == Serialize(n);
  }

  /** Any type byte other than Leaf decodes the payload as an internal node. */
  lemma NonLeafTypeIsInternal(page: Page)
    requires page.kind != LeafType
    ensures Deserialize(page).Some? ==> Deserialize(page).value.1.Internal?
  {
  }
}
