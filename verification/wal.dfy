/**
 * WALLog: an append-only byte log of redo records. An insert (page written)
 * record is [1][page id:4][length:4][payload]; a delete record is [2][page id:4].
 * ReadAll parses the whole log from the start and changes nothing.
 */
module Wal {
  import opened Wrappers
  import opened Bytes

  const InsertTag: byte := 1
  const DeleteTag: byte := 2

  datatype EntryKind = InsertEntry | DeleteEntry

  /** LogEntry; a delete entry carries no payload (null in the source, empty here). */
  datatype LogEntry = LogEntry(kind: EntryKind, pageId: int, data: seq<byte>)

  /**
   * The entries ReadAll yields, whether it reached the end without the reader
   * throwing, and whether every insert record held all its declared bytes (a
   * last record cut short still yields an entry with the bytes that are there).
   */
  datatype Parsed = Parsed(entries: seq<LogEntry>, complete: bool, whole: bool)

  function InsertRecord(pageId: int, data: seq<byte>): (r: seq<byte>)
    ensures |r| == 9 + |data|
  {
    [InsertTag] + Int32Bytes(pageId) + Int32Bytes(|data|) + data
  }

  function DeleteRecord(pageId: int): (r: seq<byte>)
    ensures |r| == 5
  {
    [DeleteTag] + Int32Bytes(pageId)
  }

  /**
   * ReadAll: while bytes remain, read the tag and the page id; tag 1 reads a
   * length and at most that many bytes (fewer if the log ends), tag 2 yields a
   * delete, any other tag yields nothing. A short header or a negative length
   * makes the reader throw: the entries yielded so far stand, `complete` is false.
   */
  function ReadAll(s: seq<byte>): (p: Parsed)
    decreases |s|
  {
    if |s| == 0 then Parsed([], true, true)
    else if |s| < 5 then Parsed([], false, false)
    else
      var tag, pageId, r := s[0], Int32At(s[1..5]), s[5..];
      if tag == InsertTag then
        if |r| < 4 then Parsed([], false, false)
        else
          var len := Int32At(r[..4]);
          if len < 0 then Parsed([], false, false)
          else
            var stop := if 4 + len <= |r| then 4 + len else |r|;
            var tail := ReadAll(r[stop..]);
            Parsed([LogEntry(InsertEntry, pageId, r[4..stop])] + tail.entries, tail.complete, tail.whole && stop == 4 + len)
      else if tag == DeleteTag then
        var tail := ReadAll(r);
        Parsed([LogEntry(DeleteEntry, pageId, [])] + tail.entries, tail.complete, tail.whole)
      else ReadAll(r)
  }

  /** A log whose records are all whole can be followed by anything: its entries come first. */
  lemma {:induction false} ReadAllAppend(s: seq<byte>, t: seq<byte>)
    requires ReadAll(s).whole
    ensures ReadAll(s + t) == Parsed(ReadAll(s).entries + ReadAll(t).entries, ReadAll(t).complete, ReadAll(t).whole)
    decreases |s|
  {
    if |s| == 0 {
      assert s + t == t;
    } else {
      var st := s + t;
      assert st[0] == s[0] && st[1..5] == s[1..5];
      var r := s[5..];
      assert st[5..] == r + t;
      if s[0] == InsertTag {
        var len := Int32At(r[..4]);
        assert (r + t)[..4] == r[..4];
        var stop := if 4 + len <= |r| then 4 + len else |r|;
        assert (r + t)[4..stop] == r[4..stop];
        assert (r + t)[stop..] == r[stop..] + t;
        ReadAllAppend(r[stop..], t);
      } else if s[0] == DeleteTag {
        ReadAllAppend(r, t);
      } else {
        ReadAllAppend(r, t);
      }
    }
  }

  lemma ReadInsertRecord(pageId: int, data: seq<byte>)
    requires IsInt32(pageId) && |data| < TwoTo31
    ensures ReadAll(InsertRecord(pageId, data)) == Parsed([LogEntry(InsertEntry, pageId, data)], true, true)
  {
    var s := InsertRecord(pageId, data);
    assert s[1..5] == Int32Bytes(pageId);
    Int32AtBytes(pageId);
    var r := s[5..];
    assert r[..4] == Int32Bytes(|data|);
    Int32AtBytes(|data|);
    assert r[4..4 + |data|] == data;
    assert r[4 + |data|..] == [];
  }

  lemma ReadDeleteRecord(pageId: int)
    requires IsInt32(pageId)
    ensures ReadAll(DeleteRecord(pageId)) == Parsed([LogEntry(DeleteEntry, pageId, [])], true, true)
  {
    var s := DeleteRecord(pageId);
    assert s[1..5] == Int32Bytes(pageId);
    Int32AtBytes(pageId);
    assert s[5..] == [];
  }

  /** A record with an unknown tag consumes its tag and page id and yields nothing. */
  lemma UnknownTagSkipped(tag: byte, pageId: int, rest: seq<byte>)
    requires tag != InsertTag && tag != DeleteTag
    ensures ReadAll([tag] + Int32Bytes(pageId) + rest) == ReadAll(rest)
  {
    var s := [tag] + Int32Bytes(pageId) + rest;
    assert s[5..] == rest;
  }

  /** An append operation on the log. */
  datatype Append = LogInsertOp(pageId: int, data: seq<byte>) | LogDeleteOp(pageId: int)

  function AppendBytes(a: Append): seq<byte> {
    match a
    case LogInsertOp(id, data) => InsertRecord(id, data)
    case LogDeleteOp(id) => DeleteRecord(id)
  }

  function AppendsBytes(ops: seq<Append>): seq<byte> {
    if ops == [] then [] else AppendsBytes(ops[..|ops| - 1]) + AppendBytes(ops[|ops| - 1])
  }

  function EntryOf(a: Append): LogEntry {
    match a
    case LogInsertOp(id, data) => LogEntry(InsertEntry, id, data)
    case LogDeleteOp(id) => LogEntry(DeleteEntry, id, [])
  }

  predicate Loggable(a: Append) {
    IsInt32(a.pageId) && (a.LogInsertOp? ==> |a.data| < TwoTo31)
  }

  /** ReadAll over a log built by appends yields one entry per append, in append order. */
  lemma {:induction false} ReadAllOfAppends(ops: seq<Append>)
    requires forall i :: 0 <= i < |ops| ==> Loggable(ops[i])
    ensures ReadAll(AppendsBytes(ops)) == Parsed(seq(|ops|, i requires 0 <= i < |ops| => EntryOf(ops[i])), true, true)
  {
    if ops != [] {
      var init, last := ops[..|ops| - 1], ops[|ops| - 1];
      ReadAllOfAppends(init);
      ReadAllAppend(AppendsBytes(init), AppendBytes(last));
      match last {
        case LogInsertOp(id, data) => ReadInsertRecord(id, data);
        case LogDeleteOp(id) => ReadDeleteRecord(id);
      }
      assert seq(|ops|, i requires 0 <= i < |ops| => EntryOf(ops[i])) ==
             seq(|init|, i requires 0 <= i < |init| => EntryOf(init[i])) + [EntryOf(last)];
    }
  }

  class WalLog {
    /** The log file's bytes. */
    var bytes: seq<byte>

    constructor (initial: seq<byte>)
      ensures bytes == initial
    {
      bytes := initial;
    }

    method LogInsert(pageId: int, data: seq<byte>)
      modifies this
      ensures bytes == old(bytes) + InsertRecord(pageId, data)
    {
      bytes := bytes + [InsertTag] + Int32Bytes(pageId) + Int32Bytes(|data|) + data;
    }

    method LogDelete(pageId: int)
      modifies this
      ensures bytes == old(bytes) + DeleteRecord(pageId)
    {
      bytes := bytes + [DeleteTag] + Int32Bytes(pageId);
    }

    /** A read-only parse of the current bytes; calling it again gives the same entries. */
    function ReadAllEntries(): Parsed
      reads this
    {
      ReadAll(bytes)
    }

    method Truncate()
      modifies this
      ensures bytes == [] && ReadAllEntries() == Parsed([], true, true)
    {
      bytes := [];
    }
  }
}
