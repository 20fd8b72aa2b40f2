/**
 * PageManager: the page file as a byte sequence of 4096-byte frames. A frame
 * is the type byte, the int32 payload length, the payload and zero padding,
 * stored at offset pageId * 4096. Page ids come from a counter that starts at
 * file length / 4096; freed ids are collected in a list.
 */
module PageStore {
  import opened Wrappers
  import opened Bytes
  import opened Nodes
  import opened Records

  function Zeros(n: nat): (z: seq<byte>)
    ensures |z| == n && forall i :: 0 <= i < n ==> z[i] == 0
  {
    seq(n, _ => 0)
  }

  /** The 4096 bytes WritePage writes for a page whose payload fits. */
  function Frame(p: Page): (f: seq<byte>)
    requires |p.data| <= MaxPayload
    ensures |f| == PageSize
  {
    [p.kind] + Int32Bytes(|p.data|) + p.data + Zeros(MaxPayload - |p.data|)
  }

  /** WritePage's effect on the file; None where it throws (oversized payload, negative offset). */
  function WriteFrame(file: seq<byte>, p: Page): (r: Option<seq<byte>>)
    ensures r.Some? <==> |p.data| <= MaxPayload && p.pageId >= 0
  {
    if |p.data| > MaxPayload || p.pageId < 0 then None
    else
      var offset := p.pageId * PageSize;
      var padded := if |file| < offset then file + Zeros(offset - |file|) else file;
      Some(padded[..offset] + Frame(p) + (if |padded| > offset + PageSize then padded[offset + PageSize..] else []))
  }

  /**
   * ReadPage: the type byte, the int32 length and then up to `length` bytes
   * (fewer if the file ends first). Fails where the reader throws: negative
   * offset, fewer than five header bytes, negative length.
   */
  function ReadFrame(file: seq<byte>, pageId: int): (r: Option<Page>)
    ensures r.Some? ==> r.value.pageId == pageId
  {
    var offset := pageId * PageSize;
    if pageId < 0 || |file| < offset + 5 then None
    else
      var length := Int32At(file[offset + 1..offset + 5]);
      if length < 0 then None
      else
        var stop := if offset + 5 + length <= |file| then offset + 5 + length else |file|;
        Some(Page(pageId, file[offset], file[offset + 5..stop]))
  }

  /** WritePage writes exactly the frame at offset id·4096 and changes no other byte. */
  lemma WriteFrameLayout(file: seq<byte>, p: Page)
    requires WriteFrame(file, p).Some?
    ensures var f := WriteFrame(file, p).value; var offset := p.pageId * PageSize;
      && |f| == (if |file| > offset + PageSize then |file| else offset + PageSize)
      && f[offset..offset + PageSize] == Frame(p)
      && (forall j :: 0 <= j < offset && j < |file| ==> f[j] == file[j])
      && (forall j :: offset + PageSize <= j < |file| ==> f[j] == file[j])
      && (forall j :: |file| <= j < offset ==> f[j] == 0)
  {
  }

  /** A page written can be read back: same type and payload. */
  lemma ReadAfterWrite(file: seq<byte>, p: Page)
    requires WriteFrame(file, p).Some?
    ensures ReadFrame(WriteFrame(file, p).value, p.pageId) == Some(p)
  {
    WriteHoldsFrames(file, p, p);
    HoldsFrameReads(WriteFrame(file, p).value, p);
  }

  /** Frames are disjoint: writing page p leaves another page's frame bytes as they were. */
  lemma WriteKeepsOtherFrames(file: seq<byte>, p: Page, q: int)
    requires WriteFrame(file, p).Some? && q >= 0 && q != p.pageId
    requires q * PageSize + PageSize <= |file|
    ensures WriteFrame(file, p).value[q * PageSize..q * PageSize + PageSize] == file[q * PageSize..q * PageSize + PageSize]
  {
    var f := WriteFrame(file, p).value;
    var offset := p.pageId * PageSize;
    WriteFrameLayout(file, p);
    var lo := q * PageSize;
    if q < p.pageId {
      assert lo + PageSize <= offset by {
        assert q + 1 <= p.pageId;
      }
    } else {
      assert offset + PageSize <= lo by {
        assert p.pageId + 1 <= q;
      }
    }
  }

  /** Page p's frame is wholly in the file and holds p. */
  predicate HoldsFrame(file: seq<byte>, p: Page) {
    && p.pageId >= 0 && |p.data| <= MaxPayload
    && p.pageId * PageSize + PageSize <= |file|
    && file[p.pageId * PageSize..p.pageId * PageSize + PageSize] == Frame(p)
  }

  lemma FrameParts(p: Page)
    requires |p.data| <= MaxPayload
    ensures Frame(p)[0] == p.kind
    ensures Frame(p)[1..5] == Int32Bytes(|p.data|)
    ensures Frame(p)[5..5 + |p.data|] == p.data
  {
    var fr := Frame(p);
    assert fr == ([p.kind] + Int32Bytes(|p.data|)) + p.data + Zeros(MaxPayload - |p.data|);
  }

  /** A file that holds p's frame reads back p. */
  lemma HoldsFrameReads(file: seq<byte>, p: Page)
    requires HoldsFrame(file, p)
    ensures ReadFrame(file, p.pageId) == Some(p)
  {
    var lo := p.pageId * PageSize;
    var region := file[lo..lo + PageSize];
    FrameParts(p);
    assert lo + PageSize <= |file|;
    assert forall k :: 0 <= k < PageSize ==> file[lo + k] == region[k];
    assert file[lo] == region[0];
    assert file[lo + 1..lo + 5] == region[1..5];
    Int32AtBytes(|p.data|);
    assert file[lo + 5..lo + 5 + |p.data|] == region[5..5 + |p.data|];
  }

  /** After a write the file holds the written frame, and still holds every other page's frame. */
  lemma WriteHoldsFrames(file: seq<byte>, p: Page, q: Page)
    requires WriteFrame(file, p).Some?
    ensures HoldsFrame(WriteFrame(file, p).value, p)
    ensures q.pageId != p.pageId && HoldsFrame(file, q) ==> HoldsFrame(WriteFrame(file, p).value, q)
  {
    WriteFrameLayout(file, p);
    if q.pageId != p.pageId && HoldsFrame(file, q) {
      WriteKeepsOtherFrames(file, p, q.pageId);
    }
  }

  class PageManager {
    /** The page file's bytes. */
    var file: seq<byte>
    /** _nextPageId. */
    var nextPageId: int
    /** The in-memory free-page list that FreePage appends to. */
    var freeIds: seq<int>

    /** Opening a file: the counter starts at file length / 4096. */
    constructor (initial: seq<byte>)
      ensures file == initial && nextPageId == |initial| / PageSize && freeIds == []
    {
      file := initial;
      nextPageId := |initial| / PageSize;
      freeIds := [];
    }

    /** Returns the counter and increments it. */
    method AllocatePageId() returns (id: int)
      modifies this`nextPageId
      ensures id == old(nextPageId) && nextPageId == id + 1
    {
      id := nextPageId;
      nextPageId := nextPageId + 1;
    }

    /** Fails on a payload over 4091 bytes (or a negative id) and then writes nothing. */
    method WritePage(p: Page) returns (ok: bool)
      modifies this`file
      ensures ok <==> WriteFrame(old(file), p).Some?
      ensures file == if ok then WriteFrame(old(file), p).value else old(file)
    {
      var w := WriteFrame(file, p);
      ok := w.Some?;
      if ok {
        file := w.value;
      }
    }

    function ReadPage(pageId: int): Option<Page>
      reads this
    {
      ReadFrame(file, pageId)
    }

    /** Writes the root id as page 0 with type Internal. */
    method WriteMetadata(rootPageId: int)
      modifies this`file
      ensures file == WriteFrame(old(file), Page(MetadataPageId, InternalType, MetadataSerialize(rootPageId))).value
    {
      var ok := WritePage(Page(MetadataPageId, InternalType, MetadataSerialize(rootPageId)));
    }

    /** Null (None) when page 0 cannot be read or decoded. */
    function ReadMetadata(): Option<int>
      reads this
    {
      match ReadPage(MetadataPageId)
      case None => None
      case Some(p) => MetadataDeserialize(p.data)
    }

    /** PageManager.cs defines no FreePage, although PagedBPlusTree.cs calls it; modelled as an append to the free list. */
    method FreePage(pageId: int)
      modifies this`freeIds
      ensures freeIds == old(freeIds) + [pageId]
    {
      freeIds := freeIds + [pageId];
    }
  }

  /** WriteMetadata then ReadMetadata returns the same root id. */
  lemma MetadataWriteRead(file: seq<byte>, rootPageId: int)
    requires IsInt32(rootPageId)
    ensures var p := Page(MetadataPageId, InternalType, MetadataSerialize(rootPageId));
      && WriteFrame(file, p).Some?
      && var r := ReadFrame(WriteFrame(file, p).value, MetadataPageId);
         r.Some? && MetadataDeserialize(r.value.data) == Some(rootPageId)
  {
    var p := Page(MetadataPageId, InternalType, MetadataSerialize(rootPageId));
    ReadAfterWrite(file, p);
    MetadataRoundTrip(rootPageId, []);
    assert MetadataSerialize(rootPageId) + [] == MetadataSerialize(rootPageId);
  }

  /** An empty file has no metadata. */
  lemma NoMetadataInEmptyFile()
    ensures ReadFrame([], MetadataPageId) == None
  {
  }

  /** A page-0 tombstone (empty Leaf payload) reads as no metadata rather than failing. */
  lemma NoMetadataInTombstone(file: seq<byte>)
    ensures var t := Page(MetadataPageId, LeafType, []);
      && WriteFrame(file, t).Some?
      && var r := ReadFrame(WriteFrame(file, t).value, MetadataPageId);
         r.Some? && MetadataDeserialize(r.value.data) == None
  {
    ReadAfterWrite(file, Page(MetadataPageId, LeafType, []));
  }
}
