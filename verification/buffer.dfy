/**
 * BufferManager: a bounded page cache (page id -> page) with a dirty set and
 * an LRU list whose front is the most recently used id. Writes go through
 * PutPage, which caches the page, marks it dirty and logs it; eviction writes
 * a dirty victim back first; Flush writes the resident dirty pages and
 * truncates the log; Recover replays the log straight into the page file.
 */
module Buffer {
  import opened Wrappers
  import opened Bytes
  import opened Nodes
  import opened PageStore
  import opened Wal
  import opened NodeCodec

  predicate Distinct(s: seq<int>) {
    forall i, j :: 0 <= i < j < |s| ==> s[i] != s[j]
  }

  /** LinkedList.Remove(value): drops the first occurrence, if any. */
  function RemoveFirst(s: seq<int>, x: int): (r: seq<int>)
    ensures x !in s ==> r == s
  {
    if s == [] then [] else if s[0] == x then s[1..] else [s[0]] + RemoveFirst(s[1..], x)
  }

  lemma {:induction false} RemoveFirstDistinct(s: seq<int>, x: int)
    requires Distinct(s)
    ensures Distinct(RemoveFirst(s, x))
    ensures forall y :: y in RemoveFirst(s, x) <==> y in s && y != x
    ensures |RemoveFirst(s, x)| == if x in s then |s| - 1 else |s|
  {
    if s != [] && s[0] != x {
      RemoveFirstDistinct(s[1..], x);
      var r := RemoveFirst(s[1..], x);
      assert s[0] !in s[1..];
      assert RemoveFirst(s, x) == [s[0]] + r;
    } else if s != [] {
      assert s[0] !in s[1..];
    }
  }

  /** Whether WritePage accepts a page. */
  predicate Writable(p: Page) {
    p.pageId >= 0 && |p.data| <= MaxPayload
  }

  // ---- recovery ----

  /** DetectPageType: Internal iff the payload is non-empty and starts with byte 1. */
  function DetectPageType(data: seq<byte>): (t: byte)
    ensures t == InternalType <==> |data| > 0 && data[0] == 1
    ensures t == LeafType <==> !(|data| > 0 && data[0] == 1)
  {
    if |data| > 0 && data[0] == 1 then InternalType else LeafType
  }

  /** The page Recover writes for one log entry: the logged payload, or an empty Leaf tombstone. */
  function ReplayPage(e: LogEntry): (p: Page)
    ensures p.pageId == e.pageId
  {
    if e.kind == InsertEntry then Page(e.pageId, DetectPageType(e.data), e.data)
    else Page(e.pageId, LeafType, [])
  }

  /** The page file after replaying `es` in log order; None where a WritePage throws. */
  function Replay(file: seq<byte>, es: seq<LogEntry>): Option<seq<byte>>
    decreases |es|
  {
    if es == [] then Some(file)
    else match Replay(file, es[..|es| - 1])
      case None => None
      case Some(f) => WriteFrame(f, ReplayPage(es[|es| - 1]))
  }

  /** The position of the last entry for `pageId`. */
  function LastFor(es: seq<LogEntry>, pageId: int): (r: Option<nat>)
    ensures r.Some? ==> r.value < |es| && es[r.value].pageId == pageId
    ensures r.Some? ==> forall k :: r.value < k < |es| ==> es[k].pageId != pageId
    ensures r.None? ==> forall k :: 0 <= k < |es| ==> es[k].pageId != pageId
    decreases |es|
  {
    if es == [] then None
    else if es[|es| - 1].pageId == pageId then Some(|es| - 1)
    else LastFor(es[..|es| - 1], pageId)
  }

  /** After a replay, each page the log mentions holds what its last entry says. */
  lemma {:induction false} ReplayLastWins(file: seq<byte>, es: seq<LogEntry>, pageId: int)
    requires Replay(file, es).Some? && LastFor(es, pageId).Some?
    ensures HoldsFrame(Replay(file, es).value, ReplayPage(es[LastFor(es, pageId).value]))
    decreases |es|
  {
    var init, last := es[..|es| - 1], es[|es| - 1];
    var f := Replay(file, init).value;
    if last.pageId == pageId {
      WriteHoldsFrames(f, ReplayPage(last), ReplayPage(last));
    } else {
      assert LastFor(es, pageId) == LastFor(init, pageId);
      ReplayLastWins(file, init, pageId);
      WriteHoldsFrames(f, ReplayPage(last), ReplayPage(init[LastFor(init, pageId).value]));
    }
  }

  /** A page the log never mentions keeps its frame through a replay. */
  lemma {:induction false} ReplayKeepsUnmentioned(file: seq<byte>, es: seq<LogEntry>, p: Page)
    requires Replay(file, es).Some? && LastFor(es, p.pageId).None? && HoldsFrame(file, p)
    ensures HoldsFrame(Replay(file, es).value, p)
    decreases |es|
  {
    if es != [] {
      var init := es[..|es| - 1];
      assert LastFor(init, p.pageId).None?;
      ReplayKeepsUnmentioned(file, init, p);
      WriteHoldsFrames(Replay(file, init).value, ReplayPage(es[|es| - 1]), p);
    }
  }

  /**
   * Recovery guesses a page's type from the first byte of its logged payload,
   * which for a serialized node is the low byte of its key count.
   */
  lemma RecoveredKind(n: Node)
    requires |n.keys| < TwoTo31
    ensures DetectPageType(Serialize(n)) == (if |n.keys| % 256 == 1 then InternalType else LeafType)
  {
    var c := |n.keys|;
    assert c % TwoTo32 == c;
    assert Int32Bytes(c)[0] == c % 256;
    assert Serialize(n)[0] == Int32Bytes(c)[0];
  }

  /** A logged one-key leaf is replayed as an Internal page and no longer reads back as that leaf. */
  lemma OneKeyLeafMisrecovered(id: int, key: int, value: Value, next: Option<int>)
    ensures var p := ReplayPage(LogEntry(InsertEntry, id, Serialize(Leaf([key], [value], next))));
      p.kind == InternalType && Deserialize(p) != Some((id, Leaf([key], [value], next)))
  {
    RecoveredKind(Leaf([key], [value], next));
    NonLeafTypeIsInternal(ReplayPage(LogEntry(InsertEntry, id, Serialize(Leaf([key], [value], next)))));
  }

  /** A logged two-key internal node is replayed as a Leaf page and no longer reads back as that node. */
  lemma TwoKeyInternalMisrecovered(id: int, keys: seq<int>, children: seq<int>)
    requires |keys| == 2
    ensures var p := ReplayPage(LogEntry(InsertEntry, id, Serialize(Internal(keys, children))));
      p.kind == LeafType && (Deserialize(p).Some? ==> Deserialize(p).value.1.Leaf?)
  {
    RecoveredKind(Internal(keys, children));
  }

  /** Where the guess is right, a replayed node reads back exactly. */
  lemma ReplayedNodeRoundTrip(id: int, n: Node)
    requires Encodable(n)
    requires n.Leaf? <==> |n.keys| % 256 != 1
    ensures Deserialize(ReplayPage(LogEntry(InsertEntry, id, Serialize(n)))) == Some((id, n))
  {
    RecoveredKind(n);
    RoundTrip(id, n);
  }

  class BufferManager {
    const pm: PageManager
    const wal: WalLog
    const capacity: int
    /** _cache. */
    var cache: map<int, Page>
    /** _dirtyPages. */
    var dirty: set<int>
    /** _lruList, most recently used first. */
    var lru: seq<int>

    /** The cache never exceeds its capacity and the LRU list holds exactly the cached ids, once each. */
    ghost predicate Valid()
      reads this
    {
      && capacity >= 1
      && |cache| <= capacity
      && Distinct(lru)
      && |lru| == |cache|
      && (forall i :: 0 <= i < |lru| ==> lru[i] in cache)
      && (forall id :: id in cache ==> id in lru && cache[id].pageId == id)
    }

    constructor (pageManager: PageManager, log: WalLog, cap: int)
      requires cap >= 1
      ensures Valid() && pm == pageManager && wal == log && capacity == cap
      ensures cache == map[] && dirty == {} && lru == []
    {
      pm := pageManager;
      wal := log;
      capacity := cap;
      cache := map[];
      dirty := {};
      lru := [];
    }

    /** Moves the id to the front of the LRU list. */
    method Touch(pageId: int)
      modifies this`lru
      ensures lru == [pageId] + RemoveFirst(old(lru), pageId)
    {
      lru := [pageId] + RemoveFirst(lru, pageId);
    }

    /**
     * Removes the LRU tail. A dirty victim is written back and leaves the
     * dirty set first; if that write throws, `ok` is false and the state is
     * what the source leaves (tail gone from the list, page still cached).
     */
    method Evict() returns (ok: bool)
      requires Valid() && |lru| > 0
      modifies this`cache, this`dirty, this`lru, pm`file
      ensures var victim := old(lru)[|old(lru)| - 1];
        && lru == old(lru)[..|old(lru)| - 1]
        && ok == (victim !in old(dirty) || Writable(old(cache)[victim]))
        && (ok ==> Valid() && |cache| == |old(cache)| - 1)
        && (ok ==> cache == old(cache) - {victim} && dirty == old(dirty) - {victim})
        && (!ok ==> cache == old(cache) && dirty == old(dirty) && pm.file == old(pm.file))
        && (ok && victim in old(dirty) ==> pm.file == WriteFrame(old(pm.file), old(cache)[victim]).value)
        && (victim !in old(dirty) ==> pm.file == old(pm.file))
    {
      var victim := lru[|lru| - 1];
      lru := lru[..|lru| - 1];
      ok := true;
      if victim in cache {
        if victim in dirty {
          ok := pm.WritePage(cache[victim]);
          if !ok {
            return;
          }
          dirty := dirty - {victim};
        }
        cache := cache - {victim};
      }
      assert victim !in lru;
      assert cache.Keys == old(cache).Keys - {victim};
    }

    /**
     * On a hit returns the cached page and moves it to the LRU front, reading
     * nothing. On a miss evicts if full, reads the page file and caches the
     * page at the front, clean. None where the source throws.
     */
    method GetPage(pageId: int) returns (p: Option<Page>)
      requires Valid()
      modifies this`cache, this`dirty, this`lru, pm`file
      ensures pageId in old(cache) ==>
        && p == Some(old(cache)[pageId])
        && cache == old(cache) && dirty == old(dirty) && pm.file == old(pm.file)
        && lru == [pageId] + RemoveFirst(old(lru), pageId)
        && Valid()
      ensures pageId !in old(cache) && |old(cache)| < capacity ==>
        && pm.file == old(pm.file) && dirty == old(dirty)
        && p == ReadFrame(old(pm.file), pageId)
        && (p.Some? ==> cache == old(cache)[pageId := p.value] && lru == [pageId] + old(lru))
        && (p.None? ==> cache == old(cache) && lru == old(lru))
        && Valid()
      ensures pageId !in old(cache) && |old(cache)| >= capacity ==>
        var victim := old(lru)[|old(lru)| - 1];
        var written := victim !in old(dirty) || Writable(old(cache)[victim]);
        var file := if victim in old(dirty) && written then WriteFrame(old(pm.file), old(cache)[victim]).value
                    else old(pm.file);
        && pm.file == file
        && p == (if written then ReadFrame(file, pageId) else None)
        && (!written ==> cache == old(cache) && dirty == old(dirty) && lru == old(lru)[..|old(lru)| - 1])
        && (written ==> dirty == old(dirty) - {victim})
        && (written && p.None? ==> cache == old(cache) - {victim} && lru == old(lru)[..|old(lru)| - 1])
        && (p.Some? ==>
              && cache == (old(cache) - {victim})[pageId := p.value]
              && lru == [pageId] + old(lru)[..|old(lru)| - 1]
              && Valid())
    {
      if pageId in cache {
        p := Some(cache[pageId]);
        Touch(pageId);
        RemoveFirstDistinct(old(lru), pageId);
        forall i | 0 <= i < |lru|
          ensures lru[i] in cache
        {
          if i > 0 {
            assert lru[i] in RemoveFirst(old(lru), pageId);
          }
        }
        return;
      }
      if |cache| >= capacity {
        var ok := Evict();
        if !ok {
          p := None;
          return;
        }
      }
      p := pm.ReadPage(pageId);
      if p.Some? {
        cache := cache[pageId := p.value];
        lru := [pageId] + lru;
      }
    }

    /**
     * Evicts only when full and the id is not resident; then caches the page,
     * marks it dirty, moves it to the front and logs a write record of its data.
     * When evicting, the id is not in the list, so Touch only puts it in front.
     */
    method PutPage(page: Page) returns (ok: bool)
      requires Valid()
      modifies this`cache, this`dirty, this`lru, pm`file, wal
      ensures !(|old(cache)| >= capacity && page.pageId !in old(cache)) ==>
        && ok && pm.file == old(pm.file)
        && cache == old(cache)[page.pageId := page]
        && dirty == old(dirty) + {page.pageId}
        && lru == [page.pageId] + RemoveFirst(old(lru), page.pageId)
        && wal.bytes == old(wal.bytes) + InsertRecord(page.pageId, page.data)
        && Valid()
      ensures |old(cache)| >= capacity && page.pageId !in old(cache) ==>
        var victim := old(lru)[|old(lru)| - 1];
        && ok == (victim !in old(dirty) || Writable(old(cache)[victim]))
        && pm.file == (if victim in old(dirty) && ok then WriteFrame(old(pm.file), old(cache)[victim]).value
                       else old(pm.file))
        && (!ok ==> cache == old(cache) && dirty == old(dirty) && lru == old(lru)[..|old(lru)| - 1]
                    && wal.bytes == old(wal.bytes))
        && (ok ==>
              && cache == (old(cache) - {victim})[page.pageId := page]
              && dirty == old(dirty) - {victim} + {page.pageId}
              && lru == [page.pageId] + old(lru)[..|old(lru)| - 1]
              && wal.bytes == old(wal.bytes) + InsertRecord(page.pageId, page.data)
              && Valid())
    {
      ok := true;
      if |cache| >= capacity && page.pageId !in cache {
        ok := Evict();
        if !ok {
          return;
        }
      }
      cache := cache[page.pageId := page];
      dirty := dirty + {page.pageId};
      ghost var before := lru;
      Touch(page.pageId);
      RemoveFirstDistinct(before, page.pageId);
      forall i | 0 <= i < |lru|
        ensures lru[i] in cache
      {
        if i > 0 {
          assert lru[i] in RemoveFirst(before, page.pageId);
        }
      }
      wal.LogInsert(page.pageId, page.data);
    }

    /** Only adds the id to the dirty set. */
    method MarkDirty(pageId: int)
      modifies this`dirty
      ensures dirty == old(dirty) + {pageId}
    {
      dirty := dirty + {pageId};
    }

    /**
     * Writes every resident dirty page (clean pages are not written, nor are
     * dirty ids no longer resident), empties the dirty set and truncates the log.
     */
    method Flush() returns (ok: bool)
      requires Valid()
      modifies this`dirty, pm`file, wal
      ensures Valid() && cache == old(cache) && lru == old(lru)
      ensures ok <==> forall id :: id in old(dirty) && id in cache ==> Writable(cache[id])
      ensures ok ==> dirty == {} && wal.bytes == []
      ensures ok ==> forall id :: id in old(dirty) && id in cache ==> HoldsFrame(pm.file, cache[id])
      ensures ok ==> |pm.file| >= |old(pm.file)|
      ensures ok ==> forall j :: 0 <= j < |old(pm.file)| && j / PageSize !in old(dirty) ==> pm.file[j] == old(pm.file)[j]
    {
      var todo := dirty;
      ghost var done: set<int> := {};
      while todo != {}
        invariant todo <= old(dirty) && done == old(dirty) - todo
        invariant cache == old(cache) && lru == old(lru) && dirty == old(dirty) && wal.bytes == old(wal.bytes)
        invariant forall id :: id in done && id in cache ==> Writable(cache[id]) && HoldsFrame(pm.file, cache[id])
        invariant |pm.file| >= |old(pm.file)|
        invariant forall j :: 0 <= j < |old(pm.file)| && j / PageSize !in done ==> pm.file[j] == old(pm.file)[j]
        decreases todo
      {
        PickFrom(todo);
        var id :| id in todo;
        if id in cache {
          var page := cache[id];
          ghost var before := pm.file;
          ok := pm.WritePage(page);
          if !ok {
            return;
          }
          WriteFrameLayout(before, page);
          forall q | q in done && q in cache
            ensures HoldsFrame(pm.file, cache[q])
          {
            WriteHoldsFrames(before, page, cache[q]);
          }
          WriteHoldsFrames(before, page, page);
          forall j | 0 <= j < |old(pm.file)| && j / PageSize !in done + {id}
            ensures pm.file[j] == old(pm.file)[j]
          {
            FrameOfOffset(j, id);
          }
        }
        todo := todo - {id};
        done := done + {id};
      }
      ok := true;
      dirty := {};
      wal.Truncate();
    }

    /**
     * Replays the log into the page file in log order, bypassing the cache. A
     * write entry becomes a page of the detected type, a delete entry an
     * empty Leaf page. `ok` is false when a write throws or the log's parse
     * throws after its last whole entry.
     */
    method Recover() returns (ok: bool)
      modifies pm`file
      ensures var parsed := ReadAll(wal.bytes); var r := Replay(old(pm.file), parsed.entries);
        && (ok <==> r.Some? && parsed.complete)
        && (r.Some? ==> pm.file == r.value)
    {
      var parsed := wal.ReadAllEntries();
      var entries := parsed.entries;
      var i := 0;
      while i < |entries|
        invariant 0 <= i <= |entries|
        invariant Replay(old(pm.file), entries[..i]) == Some(pm.file)
      {
        var e := entries[i];
        var page := if e.kind == InsertEntry then Page(e.pageId, DetectPageType(e.data), e.data)
                    else Page(e.pageId, LeafType, []);
        assert entries[..i + 1][..i] == entries[..i];
        var written := pm.WritePage(page);
        if !written {
          ok := false;
          ReplayFailureSticks(old(pm.file), entries, i + 1);
          return;
        }
        i := i + 1;
      }
      assert entries[..i] == entries;
      ok := parsed.complete;
    }
  }

  lemma PickFrom(s: set<int>)
    requires s != {}
    ensures exists x :: x in s
  {
    if forall x :: x !in s {
      assert false;
    }
  }

  lemma FrameOfOffset(j: int, id: int)
    requires 0 <= j && j / PageSize != id
    ensures j < id * PageSize || j >= id * PageSize + PageSize
  {
  }

  /** Once a replay prefix fails, the whole replay fails. */
  lemma {:induction false} ReplayFailureSticks(file: seq<byte>, es: seq<LogEntry>, n: nat)
    requires n <= |es| && Replay(file, es[..n]).None?
    ensures Replay(file, es).None?
    decreases |es| - n
  {
    if n < |es| {
      assert es[..n + 1][..n] == es[..n];
      ReplayFailureSticks(file, es, n + 1);
    } else {
      assert es[..n] == es;
    }
  }
}
