/**
 * The fixed-place records of the page file: the metadata record (root page id)
 * at page 0, the free-page list at page 1 and the table schema at page 2.
 */
module Records {
  import opened Wrappers
  import opened Bytes

  // ---- MetadataPage ----

  const MetadataPageId: int := 0

  /** MetadataPage.Serialize: the root page id as one int32. */
  function MetadataSerialize(rootPageId: int): (data: seq<byte>)
    ensures |data| == 4
  {
    Int32Bytes(rootPageId)
  }

  /** MetadataPage.Deserialize: reads the first four bytes; fails on a shorter payload. */
  function MetadataDeserialize(data: seq<byte>): (r: Option<int>)
    ensures r.Some? <==> |data| >= 4
  {
    match ReadInt32(data)
    case None => None
    case Some((root, _)) => Some(root)
  }

  lemma MetadataRoundTrip(rootPageId: int, trailing: seq<byte>)
    requires IsInt32(rootPageId)
    ensures MetadataDeserialize(MetadataSerialize(rootPageId) + trailing) == Some(rootPageId)
  {
    ReadInt32Bytes(rootPageId, trailing);
  }

  /** Only the first four bytes matter. */
  lemma MetadataIgnoresTrailing(data: seq<byte>, trailing: seq<byte>)
    requires |data| == 4
    ensures MetadataDeserialize(data + trailing) == MetadataDeserialize(data)
  {
    assert (data + trailing)[..4] == data[..4];
  }

  // ---- PageFreeList ----

  const FreeListPageId: int := 1

  /** PageFreeList.Serialize: int32 count, then each id. */
  function FreeListSerialize(ids: seq<int>): (data: seq<byte>)
    ensures |data| == 4 + 4 * |ids|
  {
    Int32Bytes(|ids|) + Int32sBytes(ids)
  }

  /** PageFreeList.Deserialize: reads exactly `count` ids and ignores what follows. */
  function FreeListDeserialize(data: seq<byte>): Option<seq<int>> {
    match ReadInt32(data)
    case None => None
    case Some((count, s)) =>
      match ReadInt32s(s, count)
      case None => None
      case Some((ids, _)) => Some(ids)
  }

  lemma FreeListRoundTrip(ids: seq<int>, trailing: seq<byte>)
    requires |ids| < TwoTo31 && AllInt32(ids)
    ensures FreeListDeserialize(FreeListSerialize(ids) + trailing) == Some(ids)
  {
    assert FreeListSerialize(ids) + trailing == Int32Bytes(|ids|) + (Int32sBytes(ids) + trailing);
    ReadInt32Bytes(|ids|, Int32sBytes(ids) + trailing);
    ReadInt32sBytes(ids, trailing);
  }

  lemma EmptyFreeList()
    ensures FreeListSerialize([]) == [0, 0, 0, 0]
  {
  }

  // ---- SchemaPage ----

  const SchemaPageId: int := 2

  /** TableDefinition; its MetadataPageId is not part of the serialized form. */
  datatype TableDefinition = TableDefinition(tableId: int, name: Value, rootPageId: int, metadataPageId: int)

  function TableBytes(t: TableDefinition): seq<byte> {
    Int32Bytes(t.tableId) + StringBytes(t.name) + Int32Bytes(t.rootPageId)
  }

  function TablesBytes(ts: seq<TableDefinition>): seq<byte> {
    if ts == [] then [] else TableBytes(ts[0]) + TablesBytes(ts[1..])
  }

  /** SchemaPage.Serialize: int32 count, then TableId, Name, RootPageId of each table in list order. */
  function SchemaSerialize(ts: seq<TableDefinition>): seq<byte> {
    Int32Bytes(|ts|) + TablesBytes(ts)
  }

  function ReadTable(s: seq<byte>): Option<(TableDefinition, seq<byte>)> {
    match ReadInt32(s)
    case None => None
    case Some((id, s1)) =>
      match ReadString(s1)
      case None => None
      case Some((name, s2)) =>
        match ReadInt32(s2)
        case None => None
        case Some((root, s3)) => Some((TableDefinition(id, name, root, 0), s3))
  }

  function ReadTables(s: seq<byte>, count: int): Option<(seq<TableDefinition>, seq<byte>)>
    decreases count
  {
    if count <= 0 then Some(([], s))
    else match ReadTable(s)
      case None => None
      case Some((t, s1)) =>
        match ReadTables(s1, count - 1)
        case None => None
        case Some((ts, s2)) => Some(([t] + ts, s2))
  }

  /** SchemaPage.Deserialize; MetadataPageId keeps its default, 0. */
  function SchemaDeserialize(data: seq<byte>): Option<seq<TableDefinition>> {
    match ReadInt32(data)
    case None => None
    case Some((count, s)) =>
      match ReadTables(s, count)
      case None => None
      case Some((ts, _)) => Some(ts)
  }

  predicate TableWritable(t: TableDefinition) {
    IsInt32(t.tableId) && IsInt32(t.rootPageId) && IsWritableValue(t.name)
  }

  /** What survives a schema round trip: everything but MetadataPageId. */
  function Stored(t: TableDefinition): TableDefinition {
    t.(metadataPageId := 0)
  }

  function AllStored(ts: seq<TableDefinition>): (r: seq<TableDefinition>)
    ensures |r| == |ts|
    ensures forall i :: 0 <= i < |ts| ==> r[i] == Stored(ts[i])
  {
    if ts == [] then [] else [Stored(ts[0])] + AllStored(ts[1..])
  }

  lemma {:induction false} ReadTablesBytes(ts: seq<TableDefinition>, rest: seq<byte>)
    requires forall i :: 0 <= i < |ts| ==> TableWritable(ts[i])
    ensures ReadTables(TablesBytes(ts) + rest, |ts|) == Some((AllStored(ts), rest))
  {
    if ts == [] {
      assert TablesBytes(ts) + rest == rest;
    } else {
      var t := ts[0];
      var tail := TablesBytes(ts[1..]) + rest;
      Regroup(TableBytes(t), TablesBytes(ts[1..]), rest);
      ReadTableBytes(t, tail);
      ReadTablesBytes(ts[1..], rest);
      assert |ts[1..]| == |ts| - 1;
      assert AllStored(ts) == [Stored(t)] + AllStored(ts[1..]);
    }
  }

  lemma ReadTableBytes(t: TableDefinition, rest: seq<byte>)
    requires TableWritable(t)
    ensures ReadTable(TableBytes(t) + rest) == Some((Stored(t), rest))
  {
    assert TableBytes(t) + rest == Int32Bytes(t.tableId) + (StringBytes(t.name) + (Int32Bytes(t.rootPageId) + rest));
    ReadInt32Bytes(t.tableId, StringBytes(t.name) + (Int32Bytes(t.rootPageId) + rest));
    ReadStringBytes(t.name, Int32Bytes(t.rootPageId) + rest);
    ReadInt32Bytes(t.rootPageId, rest);
  }

  /** The schema round trip keeps TableId, Name and RootPageId, in order. */
  lemma SchemaRoundTrip(ts: seq<TableDefinition>, trailing: seq<byte>)
    requires |ts| < TwoTo31 && forall i :: 0 <= i < |ts| ==> TableWritable(ts[i])
    ensures SchemaDeserialize(SchemaSerialize(ts) + trailing) == Some(AllStored(ts))
  {
    var body := TablesBytes(ts) + trailing;
    var data := SchemaSerialize(ts) + trailing;
    Regroup(Int32Bytes(|ts|), TablesBytes(ts), trailing);
    ReadInt32Bytes(|ts|, body);
    assert ReadInt32(data) == Some((|ts|, body));
    ReadTablesBytes(ts, trailing);
    SchemaDeserializeOf(data, body, |ts|, AllStored(ts), trailing);
  }

  lemma Regroup(a: seq<byte>, b: seq<byte>, c: seq<byte>)
    ensures (a + b) + c == a + (b + c)
  {
  }

  lemma SchemaDeserializeOf(data: seq<byte>, body: seq<byte>, count: int, ts: seq<TableDefinition>, rest: seq<byte>)
    requires ReadInt32(data) == Some((count, body)) && ReadTables(body, count) == Some((ts, rest))
    ensures SchemaDeserialize(data) == Some(ts)
  {
  }

  /** MetadataPageId does not survive: a table whose MetadataPageId is not 0 comes back changed. */
  lemma SchemaLosesMetadataPageId(t: TableDefinition)
    requires TableWritable(t) && t.metadataPageId != 0
    ensures SchemaDeserialize(SchemaSerialize([t])) != Some([t])
  {
    SchemaRoundTrip([t], []);
    assert SchemaSerialize([t]) + [] == SchemaSerialize([t]);
    assert AllStored([t])[0] != t;
  }

  lemma EmptySchema()
    ensures SchemaSerialize([]) == [0, 0, 0, 0]
  {
  }
}
