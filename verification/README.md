# KlindaBase B+ tree core in Dafny

KlindaBase is a small key/value store. Keys are `int`, values are strings,
and everything lives in a B+ tree. The tree exists in two forms:

- **In memory.** `BPlusTree` is a plain object tree. The insertion,
  deletion, search and node-finder services act on it, and a binary
  serializer writes it out and reads it back.
- **Paged.** `PagedBPlusTree` keeps every node in its own 4096-byte page
  of a page file. Pages are reached through a buffer manager, which has an
  LRU cache and a write-ahead log (WAL), and a metadata page holds the
  root's page id.

This project models both trees and everything they rely on:

- the byte formats (int32, 7-bit length-prefixed strings, node payloads,
  metadata, free list, schema page);
- the page file;
- the WAL;
- the buffer manager, including recovery.

Every operation that reads or writes is modelled as total. The cases where
the C# code throws become `None` or `false` results.

Modules, one file each:

| module | what it models |
|---|---|
| `Wrappers` | `Option` |
| `Bytes` | `BinaryWriter`/`BinaryReader`: int32 and length-prefixed strings |
| `Nodes` | `Node` (`Leaf` or `Internal`), `Page`, page types |
| `NodeCodec` | `PagedNodeSerializer` |
| `Records` | `MetadataPage`, `PageFreeList`, `SchemaPage` |
| `PageStore` | `PageManager` over the file's bytes |
| `Wal` | `WALLog` over the log's bytes |
| `Buffer` | `BufferManager` |
| `NodeOps` | the node-local steps both trees share (child choice, upsert, splits, borrows, merges) |
| `PagedSearch` | `PagedSearchService.FindParent` |
| `TreeWalk` | descent, search and range scan over a map of nodes |
| `PagedTree` | `PagedBPlusTree`, over a store of pages |
| `PagedProps` | properties of the paged tree |
| `PagedExamples` | concrete runs of the paged tree |
| `MemTree` | `BPlusTree` and its services, over a heap of node handles |
| `MemProps` | properties of the in-memory tree |
| `TreeCodec` | `TreeSerializationService`'s binary format and leaf linking |

Two behaviours of the source are reproduced and shown as lemmas:

- **Page-id collision on a new file.** A paged tree opened on an empty file
  puts its root at page 1, while the page counter still starts at 0. So
  the fourth insert at degree 3 gives the new root page 1, overwriting the
  old root. That root then lists itself as a child, and a search for a
  small key never returns.
- **Recovery guesses the page type wrongly.** Recovery takes the page type
  from the first payload byte. That byte is really the low byte of the
  key count.

## Model

| member | source | states |
|---|---|---|
| Bytes.Int32At | KlindaBase/Paging/PagedNodeSerializer.cs:41 | Four little-endian bytes always decode to a value in int32 range. |
| Bytes.Int32AtBytes | KlindaBase/Paging/PagedNodeSerializer.cs:13 | Decoding the four bytes written for an int32 gives the int32 back, negative values included. |
| Bytes.ReadInt32 | KlindaBase/Paging/PagedNodeSerializer.cs:41 | ReadInt32 succeeds exactly when four bytes remain, and then consumes exactly four. |
| Bytes.ReadInt32Bytes | KlindaBase/Paging/PagedNodeSerializer.cs:13 | An int32 that was written reads back as itself, and the bytes after it are left untouched. |
| Bytes.ReadInt32s | KlindaBase/Paging/PagedNodeSerializer.cs:43-44 | Reading a counted run of int32s never leaves more bytes than it was given. |
| Bytes.ReadInt32sBytes | KlindaBase/Paging/PagedNodeSerializer.cs:14-15 | A written run of int32 keys reads back as the same keys in order, and the rest is untouched. |
| Bytes.ReadVarintFrom | KlindaBase/Paging/PagedNodeSerializer.cs:51 | Reading a string's 7-bit length prefix always consumes at least one byte. |
| Bytes.ReadVarintFromBytes | KlindaBase/Paging/PagedNodeSerializer.cs:22 | A length written as a 7-bit prefix of at most five bytes reads back as the same length. |
| Bytes.ReadString | KlindaBase/Paging/PagedNodeSerializer.cs:51 | Reading a string always consumes at least one byte. |
| Bytes.ReadStringBytes | KlindaBase/Paging/PagedNodeSerializer.cs:22 | A written value reads back as the same bytes, and what follows is untouched. |
| Bytes.ReadStrings | KlindaBase/Paging/PagedNodeSerializer.cs:50-51 | Reading a counted run of strings never leaves more bytes than it was given. |
| Bytes.ReadStringsBytes | KlindaBase/Paging/PagedNodeSerializer.cs:21-22 | A written run of values reads back in the same order. |
| NodeCodec.RoundTrip | KlindaBase/Paging/PagedNodeSerializer.cs:8-73 | For a node whose counts, keys and ids fit in int32: Deserialize of a page carrying the node's type and Serialize(node) gives the node back, with the page's id. |
| NodeCodec.LeafRoundTrip | KlindaBase/Paging/PagedNodeSerializer.cs:46-61 | For a leaf: keys, values and next link read back, and a missing next link is stored as -1 and reads back as missing. |
| NodeCodec.ValuesRead | KlindaBase/Paging/PagedNodeSerializer.cs:20-23 | After a leaf's keys, the value count, the values and the next id each read back in turn. |
| NodeCodec.InternalRoundTrip | KlindaBase/Paging/PagedNodeSerializer.cs:62-72 | For an internal node: the keys and child ids read back. |
| NodeCodec.SerializeHead | KlindaBase/Paging/PagedNodeSerializer.cs:13-15 | Whatever the node kind, the payload starts with the key count and the keys. |
| NodeCodec.InternalPayloadLength | KlindaBase/Paging/PagedNodeSerializer.cs:26-30 | An internal payload is 8 + 4·keys + 4·children bytes long. |
| NodeCodec.MinusOneIsNoNext | KlindaBase/Paging/PagedNodeSerializer.cs:59 | A leaf whose next id is -1 reads back as a leaf with no next leaf. |
| NodeCodec.NonLeafTypeIsInternal | KlindaBase/Paging/PagedNodeSerializer.cs:46 | Any page type other than Leaf decodes as an internal node. |
| Records.MetadataSerialize | KlindaBase/Paging/MetadataPage.cs:13-23 | The metadata payload is exactly four bytes. |
| Records.MetadataDeserialize | KlindaBase/Paging/MetadataPage.cs:30-43 | Decoding succeeds exactly when at least four bytes are present. |
| Records.MetadataRoundTrip | KlindaBase/Paging/MetadataPage.cs:13-43 | The root page id survives a round trip, whatever bytes follow it. |
| Records.MetadataIgnoresTrailing | KlindaBase/Paging/MetadataPage.cs:37 | Only the first four bytes decide the result. |
| Records.FreeListSerialize | KlindaBase/Paging/PageFreeList.cs:9-17 | The payload is 4 + 4·n bytes. |
| Records.FreeListRoundTrip | KlindaBase/Paging/PageFreeList.cs:9-28 | The free page ids survive a round trip, in order. |
| Records.EmptyFreeList | KlindaBase/Paging/PageFreeList.cs:9-17 | An empty list is written as a zero count. |
| Records.AllStored | KlindaBase/SchemaDefinition/SchemaPage.cs:23-37 | Each table comes back at its own position, with MetadataPageId reset to 0. |
| Records.ReadTableBytes | KlindaBase/SchemaDefinition/SchemaPage.cs:23-37 | One written table reads back as TableId, Name and RootPageId, and the rest is untouched. |
| Records.ReadTablesBytes | KlindaBase/SchemaDefinition/SchemaPage.cs:23-37 | A written run of tables reads back in order. |
| Records.SchemaRoundTrip | KlindaBase/SchemaDefinition/SchemaPage.cs:9-37 | A schema survives a round trip except for MetadataPageId, which is not written. |
| Records.SchemaLosesMetadataPageId | KlindaBase/SchemaDefinition/SchemaPage.cs:9-21 | A table whose MetadataPageId is not 0 does not come back unchanged. |
| Records.EmptySchema | KlindaBase/SchemaDefinition/SchemaPage.cs:9-21 | An empty schema is written as a zero count. |
| PageStore.Frame | KlindaBase/Paging/PageManager.cs:49-58 | A page's frame is always 4096 bytes. |
| PageStore.FrameParts | KlindaBase/Paging/PageManager.cs:50-54 | A frame holds the type byte, then the int32 payload length, then the payload. |
| PageStore.WriteFrame | KlindaBase/Paging/PageManager.cs:40-59 | WritePage fails exactly when the payload is over 4091 bytes or the page id is negative. |
| PageStore.WriteFrameLayout | KlindaBase/Paging/PageManager.cs:45-58 | WritePage puts the frame at id·4096 and zero-fills any gap before it. The file grows only to cover the frame, and no other byte changes. |
| PageStore.ReadFrame | KlindaBase/Paging/PageManager.cs:66-85 | A page that is read carries the id it was asked for. |
| PageStore.ReadAfterWrite | KlindaBase/Paging/PageManager.cs:40-85 | Reading a page just written returns it with the same type and payload. |
| PageStore.WriteKeepsOtherFrames | KlindaBase/Paging/PageManager.cs:45-58 | Writing one page leaves every other page's frame bytes as they were. |
| PageStore.HoldsFrameReads | KlindaBase/Paging/PageManager.cs:66-85 | A file that holds a page's frame reads back that page. |
| PageStore.WriteHoldsFrames | KlindaBase/Paging/PageManager.cs:40-59 | After a write the file holds the written page and still holds every other page it held. |
| PageStore.PageManager.constructor | KlindaBase/Paging/PageManager.cs:15-22 | Opening a file starts the id counter at the file length / 4096. |
| PageStore.PageManager.AllocatePageId | KlindaBase/Paging/PageManager.cs:28-34 | Returns the counter's old value and increments the counter. |
| PageStore.PageManager.WritePage | KlindaBase/Paging/PageManager.cs:40-59 | Either writes the frame or fails and leaves the file unchanged. |
| PageStore.PageManager.WriteMetadata | KlindaBase/Paging/PageManager.cs:91-100 | Writes the root id as page 0 with type Internal. |
| PageStore.PageManager.FreePage | KlindaBase/Paging/PagedCore/PagedBPlusTree.cs:124 | Appends the id to the free list. |
| PageStore.MetadataWriteRead | KlindaBase/Paging/PageManager.cs:91-120 | ReadMetadata after WriteMetadata returns the root id that was written. |
| PageStore.NoMetadataInEmptyFile | KlindaBase/Paging/PageManager.cs:106-120 | An empty file has no metadata, where the source returns null. |
| PageStore.NoMetadataInTombstone | KlindaBase/Paging/PageManager.cs:106-120 | A page 0 overwritten by a delete tombstone reads as no metadata. |
| Wal.InsertRecord | KlindaBase/WriteAhead/WALLog.cs:16-23 | An insert record is 9 bytes plus its payload. |
| Wal.DeleteRecord | KlindaBase/WriteAhead/WALLog.cs:25-30 | A delete record is 5 bytes. |
| Wal.ReadAllAppend | KlindaBase/WriteAhead/WALLog.cs:34-55 | If a log parses into whole records, parsing it followed by more bytes gives its entries first and then theirs. |
| Wal.ReadInsertRecord | KlindaBase/WriteAhead/WALLog.cs:16-55 | An insert record parses as one insert entry with its page id and payload. |
| Wal.ReadDeleteRecord | KlindaBase/WriteAhead/WALLog.cs:25-55 | A delete record parses as one delete entry. |
| Wal.UnknownTagSkipped | KlindaBase/WriteAhead/WALLog.cs:41-53 | A record with an unknown tag consumes only its tag and page id and yields no entry. |
| Wal.ReadAllOfAppends | KlindaBase/WriteAhead/WALLog.cs:16-55 | A log built by a sequence of appends parses as one entry per append, in append order. |
| Wal.WalLog.constructor | KlindaBase/WriteAhead/WALLog.cs:9-14 | Opening keeps the existing log bytes. |
| Wal.WalLog.LogInsert | KlindaBase/WriteAhead/WALLog.cs:16-23 | Appends exactly one insert record. |
| Wal.WalLog.LogDelete | KlindaBase/WriteAhead/WALLog.cs:25-30 | Appends exactly one delete record. |
| Wal.WalLog.Truncate | KlindaBase/WriteAhead/WALLog.cs:57-62 | Empties the log, which then parses as no entries. |
| Buffer.RemoveFirst | KlindaBase/Buffer/BufferManager.cs:133 | Removing an id that is not in the LRU list leaves the list unchanged. |
| Buffer.RemoveFirstDistinct | KlindaBase/Buffer/BufferManager.cs:131-135 | On a list without repeats: removes exactly that id, keeps the list free of repeats, and shortens it by one exactly when the id was there. |
| Buffer.DetectPageType | KlindaBase/Buffer/BufferManager.cs:107-111 | Internal if and only if the payload is non-empty and starts with 1; Leaf otherwise. |
| Buffer.ReplayPage | KlindaBase/Buffer/BufferManager.cs:83-103 | The page replayed for a log entry carries the entry's page id. |
| Buffer.LastFor | KlindaBase/Buffer/BufferManager.cs:79-105 | Finds the last entry for a page id, or reports that no entry mentions it. |
| Buffer.ReplayLastWins | KlindaBase/Buffer/BufferManager.cs:79-105 | After recovery, each page the log mentions holds the page its last entry produces. |
| Buffer.ReplayKeepsUnmentioned | KlindaBase/Buffer/BufferManager.cs:79-105 | Recovery leaves every page the log never mentions as it was. |
| Buffer.ReplayFailureSticks | KlindaBase/Buffer/BufferManager.cs:79-105 | Once a write during replay fails, the whole recovery fails. |
| Buffer.RecoveredKind | KlindaBase/Buffer/BufferManager.cs:107-111 | The type guessed for a logged node is Internal exactly when its key count is 1 modulo 256. |
| Buffer.OneKeyLeafMisrecovered | KlindaBase/Buffer/BufferManager.cs:83-91 | A logged one-key leaf is replayed as an Internal page and no longer reads back as that leaf. |
| Buffer.TwoKeyInternalMisrecovered | KlindaBase/Buffer/BufferManager.cs:83-91 | A logged two-key internal node is replayed as a Leaf page and no longer reads back as that node. |
| Buffer.ReplayedNodeRoundTrip | KlindaBase/Buffer/BufferManager.cs:83-91 | When the guess happens to be right, the replayed page decodes to the logged node. |
| Buffer.BufferManager.constructor | KlindaBase/Buffer/BufferManager.cs:16-21 | Starts with an empty cache, an empty dirty set and an empty LRU list. |
| Buffer.BufferManager.Touch | KlindaBase/Buffer/BufferManager.cs:131-135 | Moves the id to the front of the LRU list. |
| Buffer.BufferManager.Evict | KlindaBase/Buffer/BufferManager.cs:114-129 | Drops the LRU tail from the list. A cached tail is dropped from the cache; a dirty one is first written back and then dropped from the dirty set. A failed write-back leaves the cache, dirty set and file as they were. |
| Buffer.BufferManager.GetPage | KlindaBase/Buffer/BufferManager.cs:23-39 | On a hit: returns the cached page, reads nothing and touches the id. On a miss with room: reads the unchanged page file and caches the page clean at the front. On a full miss: the LRU tail is evicted, a dirty victim is written back to the page file, the result is None exactly when that write-back or the read fails, and otherwise it is the page read from the file after the write-back. |
| Buffer.BufferManager.PutPage | KlindaBase/Buffer/BufferManager.cs:41-50 | Evicts only when full and the id is not cached; then, through Evict and Touch, it succeeds exactly when a dirty victim can be written back, and the page file holds that write-back. On success the page is cached and dirty, the LRU list is the id followed by the old order without the id (without the evicted tail when evicting), and one WAL insert record is appended. On failure only the tail is gone from the list. |
| Buffer.BufferManager.MarkDirty | KlindaBase/Buffer/BufferManager.cs:53-56 | Only adds the id to the dirty set. |
| Buffer.BufferManager.Flush | KlindaBase/Buffer/BufferManager.cs:58-70 | Writes every dirty cached page, and succeeds exactly when all of them are writable. It then clears the dirty set and the WAL. Bytes in frames of pages that were not dirty stay unchanged. |
| Buffer.BufferManager.Recover | KlindaBase/Buffer/BufferManager.cs:79-105 | The page file becomes the log's entries replayed in order. Recovery succeeds exactly when the replay succeeds and the log parsed completely. |
| NodeOps.ChildIndex | KlindaBase/Paging/PagedCore/PagedBPlusTree.cs:109-110 | The descent index is the first separator greater than the key, or the key count when no separator is. |
| NodeOps.ChildIndexCounts | KlindaBase/Services/NodeFinderService.cs:5-17 | On sorted separators the child chosen is the number of separators at most the key. |
| NodeOps.IndexOf | KlindaBase/Paging/PagedCore/PagedBPlusTree.cs:117 | Returns the first position holding the key, or -1 exactly when the key is absent. |
| NodeOps.IndexOfSorted | KlindaBase/Paging/PagedCore/PagedBPlusTree.cs:385-386 | In sorted keys, every key is found at its own position. |
| NodeOps.Get | KlindaBase/Paging/PagedCore/PagedBPlusTree.cs:385-386 | A leaf lookup by IndexOf returns null exactly when the key is absent. |
| NodeOps.BinarySearchIn | KlindaBase/Services/InsertionService.cs:22 | List.BinarySearch over a range: a non-negative result is a position in the range holding the key, and a negative one is the complement of a position in the range or just past it. |
| NodeOps.BinarySearch | KlindaBase/Paging/PagedCore/PagedBPlusTree.cs:444 | A non-negative result is a position holding the key; a negative one is the complement ~i of an insertion point i ≤ count. |
| NodeOps.LowerBound | KlindaBase/Services/InsertionService.cs:27-29 | The reference insertion point: every earlier key is smaller than the key, and the key there is at least the key. |
| NodeOps.LowerBoundFinds | KlindaBase/Services/InsertionService.cs:22-24 | For a key that is present in sorted keys, the insertion point is the key's own position. |
| NodeOps.BinarySearchInSorted | KlindaBase/Services/InsertionService.cs:22-27 | On sorted keys, with everything left of the range below the key and everything right of it above, the search finds the key exactly when it is present and otherwise reports the reference insertion point. |
| NodeOps.BinarySearchSorted | KlindaBase/Paging/PagedCore/PagedBPlusTree.cs:444-452 | On strictly ascending keys BinarySearch finds exactly the keys present, at the reference insertion point, and otherwise returns the complement of that point. |
| NodeOps.BinarySearchUnsorted | KlindaBase/Services/InsertionService.cs:22-29 | On the unsorted keys [30, 10, 20], BinarySearch reports insertion point 2 for 15 where the reference gives 0, and misses the present key 30. |
| NodeOps.UpsertAtLowerBound | KlindaBase/Paging/PagedCore/PagedBPlusTree.cs:444-452 | On sorted keys the leaf upsert overwrites the value at the reference insertion point when the key is present, and inserts key and value there otherwise. |
| NodeOps.InsertNewKey | KlindaBase/Services/InsertionService.cs:27-29 | Inserting an absent key at its insertion point keeps the keys sorted, maps the key to the new value and keeps every other key's value. |
| NodeOps.InsertAt | KlindaBase/Paging/PagedCore/PagedBPlusTree.cs:493-494 | List.Insert puts the element at the position and shifts the later elements up by one. |
| NodeOps.RemoveAt | KlindaBase/Paging/PagedCore/PagedBPlusTree.cs:121-122 | List.RemoveAt drops the position and shifts the later elements down by one. |
| NodeOps.UpsertSpec | KlindaBase/Services/InsertionService.cs:20-34 | On a sorted leaf, the leaf upsert keeps the keys sorted. The key maps to the new value and every other key keeps its value. An entry is added only when the key was absent. |
| NodeOps.SplitLeafSpec | KlindaBase/Services/InsertionService.cs:36-50 | The two halves of a leaf split, put back together, give the leaf. The left half gets count/2 entries and links to the new page, the right half inherits the old link, and the promoted key is the right half's first key, which separates the halves. |
| NodeOps.SplitInternalSpec | KlindaBase/Services/InsertionService.cs:73-86 | Left keys, the promoted key and the right keys, in that order, give the node's keys, and the children are split without loss. The promoted key is in neither half, and it separates the halves. |
| NodeOps.InsertChildSpec | KlindaBase/Services/InsertionService.cs:52-71 | Parent insertion puts the key at the position and the new child just after the child it came from. Everything else shifts by one. |
| NodeOps.RemoveAtSorted | KlindaBase/Services/DeletionService.cs:14-31 | Removing a position from sorted keys keeps them sorted and removes that key. |
| NodeOps.LeafRemoveSpec | KlindaBase/Services/DeletionService.cs:14-31 | Removing a present key leaves it absent and keeps the keys sorted. Every other key keeps its value. |
| NodeOps.RemoveAtGet | KlindaBase/Services/DeletionService.cs:14-31 | Removing one entry does not change the lookup of any other key. |
| NodeOps.LeafBorrowSpec | KlindaBase/Services/DeletionService.cs:68-94 | A leaf borrow moves one boundary entry between siblings. The two leaves, read left to right, hold the same entries as before, and next links stay put. |
| NodeOps.LeafMergeSpec | KlindaBase/Services/DeletionService.cs:96-115 | The merged leaf answers each key as the left leaf did when that leaf had the key, and as the right leaf did otherwise. It takes over the right leaf's next link. |
| NodeOps.InternalStepsSpec | KlindaBase/Services/DeletionService.cs:151-205 | Internal borrows and merges keep children = keys + 1. Read in order, the keys with the separator between them and the children are the same before and after. |
| PagedSearch.FindParent | KlindaBase/Services/PagedServices/PagedSearchService.cs:14-45 | A parent that is found is an internal page listing the child. |
| PagedSearch.ScanChildren | KlindaBase/Services/PagedServices/PagedSearchService.cs:27-41 | A parent found while scanning is an internal page listing the child. |
| PagedSearch.FindParentComplete | KlindaBase/Services/PagedServices/PagedSearchService.cs:14-45 | When no page is missing, FindParent finds a parent if and only if some internal page reachable through internal pages lists the child. |
| PagedSearch.ScanComplete | KlindaBase/Services/PagedServices/PagedSearchService.cs:27-41 | The same if-and-only-if for the scan over a list of children. |
| PagedSearch.ScanFirstMatch | KlindaBase/Services/PagedServices/PagedSearchService.cs:27-41 | The first match wins: the result comes from the first child that is the child sought or roots a subtree where the search succeeds, and every earlier child was passed over. |
| PagedSearch.FindParentTerminates | KlindaBase/Services/PagedServices/PagedSearchService.cs:14-45 | On a well-founded store of pages, FindParent never fails once the fuel covers the height. |
| PagedSearch.ScanTerminates | KlindaBase/Services/PagedServices/PagedSearchService.cs:27-41 | The same for the scan over a list of children. |
| TreeWalk.CeilHalf | KlindaBase/Paging/PagedCore/PagedBPlusTree.cs:125 | Math.Ceiling(degree / 2.0) on integers: the least r with degree ≤ 2r. |
| TreeWalk.Descend | KlindaBase/Paging/PagedCore/PagedBPlusTree.cs:104-113 | The descent ends at a leaf that is stored at the id it returns. |
| TreeWalk.Matching | KlindaBase/Paging/PagedCore/PagedBPlusTree.cs:422-428 | Every pair a leaf contributes to a range has key at least the start. |
| TreeWalk.MatchingExact | KlindaBase/Paging/PagedCore/PagedBPlusTree.cs:422-428 | A leaf contributes exactly its entries before the cut-off whose key is at least the start. |
| TreeWalk.ChainStops | KlindaBase/Paging/PagedCore/PagedBPlusTree.cs:420-434 | The walk stops at a leaf holding a key above the end, or at a leaf with no next leaf. |
| TreeWalk.ChainContinues | KlindaBase/Paging/PagedCore/PagedBPlusTree.cs:420-434 | Otherwise the walk adds the whole leaf and continues at the next leaf. |
| TreeWalk.ChainBounds | KlindaBase/Paging/PagedCore/PagedBPlusTree.cs:420-434 | Every pair the leaf walk returns lies within [start, end]. |
| TreeWalk.RangeBounds | KlindaBase/Paging/PagedCore/PagedBPlusTree.cs:403-437 | Every pair RangeSearch returns lies within [start, end], and an empty interval gives an empty list. |
| TreeWalk.MatchingAscending | KlindaBase/Paging/PagedCore/PagedBPlusTree.cs:422-428 | A sorted leaf contributes pairs in strictly ascending key order, between its first key and the last key scanned. |
| TreeWalk.ChainAscending | KlindaBase/Services/SearchService.cs:29-42 | When every leaf is sorted and lies below the leaf its Next link names, the chain walk returns strictly ascending keys, none below the first leaf's first key. |
| TreeWalk.RangeAscending | KlindaBase/Paging/PagedCore/PagedBPlusTree.cs:403-437 | On such a chain, RangeSearch returns its pairs in strictly ascending key order. |
| TreeWalk.DescendTerminates | KlindaBase/Paging/PagedCore/PagedBPlusTree.cs:104-113 | On a well-founded store of pages the descent reaches a leaf. |
| TreeWalk.LookupsReturn | KlindaBase/Paging/PagedCore/PagedBPlusTree.cs:377-394 | On a well-founded store of pages Search returns. |
| TreeWalk.SearchAnswer | KlindaBase/Paging/PagedCore/PagedBPlusTree.cs:377-394 | Search returns null exactly when the leaf reached lacks the key. Otherwise it returns a value that the leaf stores for the key. |
| TreeWalk.BinarySearchSpec | KlindaBase/Services/SearchService.cs:14-21 | The in-memory Search fails exactly when the descent fails, and a value it returns is one the leaf reached stores for the key, whether or not the leaf is sorted. |
| TreeWalk.BinarySearchSpecSorted | KlindaBase/Services/SearchService.cs:19-20 | When every leaf is sorted, the BinarySearch lookup gives the same answer as the IndexOf lookup of the paged Search. |
| TreeWalk.DescendAfterLeafWrite | KlindaBase/Paging/PagedCore/PagedBPlusTree.cs:104-113 | Rewriting one leaf does not change where any descent goes; only the leaf it reaches may now hold the new contents. |
| TreeWalk.SearchAfterLeafWrite | KlindaBase/Paging/PagedCore/PagedBPlusTree.cs:377-394 | After rewriting one leaf, a search answers from the rewritten leaf if it reaches it, and as before otherwise. |
| PagedTree.Save | KlindaBase/Paging/PagedCore/PagedBPlusTree.cs:523-534 | SaveNode stores the node at its page and appends one write to the log. Nothing else changes. |
| PagedTree.Allocate | KlindaBase/Paging/PageManager.cs:28-34 | Hands out the counter's value and increments the counter. |
| PagedTree.PagedBPlusTree.constructor | KlindaBase/Paging/PagedCore/PagedBPlusTree.cs:23-49 | Without metadata: saves an empty root leaf at page 1 and records 1 as the root. With metadata: takes the root id from it. |
| PagedTree.PagedBPlusTree.Insert | KlindaBase/Paging/PagedCore/PagedBPlusTree.cs:67-95 | The new state is the recursive insert followed by the root split, and the method succeeds exactly when that does. |
| PagedTree.PagedBPlusTree.Delete | KlindaBase/Paging/PagedCore/PagedBPlusTree.cs:101-143 | The new state is the delete with its underflow repair, and the method succeeds exactly when that does. |
| PagedTree.PagedBPlusTree.FindLeaf | KlindaBase/Paging/PagedCore/PagedBPlusTree.cs:104-113 | The descent loop returns the leaf that the descent specification reaches. |
| PagedTree.PagedBPlusTree.Search | KlindaBase/Paging/PagedCore/PagedBPlusTree.cs:377-394 | Returns the answer of the search specification. |
| PagedTree.PagedBPlusTree.RangeSearch | KlindaBase/Paging/PagedCore/PagedBPlusTree.cs:403-437 | Returns the answer of the range specification. |
| PagedTree.PagedBPlusTree.WalkChain | KlindaBase/Paging/PagedCore/PagedBPlusTree.cs:420-434 | The leaf-chain loop returns what the chain specification collects. |
| PagedProps.SaveWritesOnly | KlindaBase/Paging/PagedCore/PagedBPlusTree.cs:523-534 | Saving writes only its own page. |
| PagedProps.WritesOnlyTrans | KlindaBase/Paging/PagedCore/PagedBPlusTree.cs:440-521 | Chaining two writes whose pages are fresh or the same page still writes only that page and fresh pages. |
| PagedProps.LeafInsertFootprint | KlindaBase/Paging/PagedCore/PagedBPlusTree.cs:444-476 | The leaf insert always succeeds and writes only its leaf and, on a split, one freshly allocated page holding the new leaf. |
| PagedProps.InsertRecFootprint | KlindaBase/Paging/PagedCore/PagedBPlusTree.cs:440-521 | InsertRecursive writes only its page and freshly allocated pages. Every existing page stays, the log only grows, and the root, metadata and free list are untouched. A split hands up a fresh page holding the new node. |
| PagedProps.InternalInsertFootprint | KlindaBase/Paging/PagedCore/PagedBPlusTree.cs:478-521 | The same for the internal case, given the child's result. |
| PagedProps.InsertRootChange | KlindaBase/Paging/PagedCore/PagedBPlusTree.cs:67-95 | Insert either keeps the root and metadata, or makes the last allocated id the root, recorded in the metadata. That root holds an internal node with one key whose first child is the old root. |
| PagedProps.InsertKeepsMetaRoot | KlindaBase/Paging/PagedCore/PagedBPlusTree.cs:89-93 | Insert keeps the metadata's root id equal to the tree's root. |
| PagedProps.InsertRecNoSplit | KlindaBase/Paging/PagedCore/PagedBPlusTree.cs:440-521 | When the leaf reached does not overflow, InsertRecursive rewrites only that leaf with the upserted entries and allocates nothing. |
| PagedProps.InsertThenSearch | KlindaBase/Paging/PagedCore/PagedBPlusTree.cs:67-95 | When the leaf reached is sorted and does not overflow: after Insert, Search returns the new value for the key and the old answer for every other key. |
| PagedProps.DeleteAbsentKey | KlindaBase/Paging/PagedCore/PagedBPlusTree.cs:115-118 | Delete of a key the descent does not find changes nothing. |
| PagedProps.RebalancedTrans | KlindaBase/Paging/PagedCore/PagedBPlusTree.cs:145-374 | Rebalancing steps compose: no id is allocated or freed, the log only grows, and a root change is logged as a delete. |
| PagedProps.LeafStepKeeps | KlindaBase/Paging/PagedCore/PagedBPlusTree.cs:153-230 | A leaf borrow or merge keeps the root and metadata, and only rewrites pages and appends to the log. |
| PagedProps.InternalStepKeeps | KlindaBase/Paging/PagedCore/PagedBPlusTree.cs:262-372 | The same for an internal borrow or merge. |
| PagedProps.InternalUnderflowRebalanced | KlindaBase/Paging/PagedCore/PagedBPlusTree.cs:243-374 | Internal underflow handling, cascades included, only rebalances. The metadata follows a root collapse, and the old root is logged as deleted. |
| PagedProps.LeafUnderflowRebalanced | KlindaBase/Paging/PagedCore/PagedBPlusTree.cs:145-237 | The same for leaf underflow handling. |
| PagedProps.DeleteInLeafLog | KlindaBase/Paging/PagedCore/PagedBPlusTree.cs:117-142 | Deleting a present key logs a delete of the leaf's page and frees that page, and only it. The delete ends with two writes of the leaf, to the log and through PutPage. |
| PagedProps.DeleteKeepsMetaRoot | KlindaBase/Paging/PagedCore/PagedBPlusTree.cs:101-143 | Delete keeps the metadata's root id equal to the tree's root. |
| PagedProps.DeleteThenSearch | KlindaBase/Paging/PagedCore/PagedBPlusTree.cs:101-143 | When the leaf is sorted, holds the key and does not underflow: after Delete, Search returns null for the key and the old answer for every other key. |
| PagedExamples.UpsertTen | KlindaBase/Paging/PagedCore/PagedBPlusTree.cs:444-452 | BinarySearch on an empty leaf reports insertion point 0, so upserting 10 gives [10]. |
| PagedExamples.UpsertTwenty | KlindaBase/Paging/PagedCore/PagedBPlusTree.cs:444-452 | Upserting 20 into [10] appends it. |
| PagedExamples.UpsertFive | KlindaBase/Paging/PagedCore/PagedBPlusTree.cs:444-452 | Upserting 5 into [10, 20] puts it first. |
| PagedExamples.InsertTen | KlindaBase/Paging/PagedCore/PagedBPlusTree.cs:67-95 | On a fresh file at degree 3, inserting 10 rewrites root leaf 1. |
| PagedExamples.InsertTwenty | KlindaBase/Paging/PagedCore/PagedBPlusTree.cs:67-95 | Then inserting 20 appends it to that leaf. |
| PagedExamples.InsertFive | KlindaBase/Paging/PagedCore/PagedBPlusTree.cs:67-95 | Then inserting 5 puts it first. |
| PagedExamples.UpsertSix | KlindaBase/Services/InsertionService.cs:20-34 | Upserting 6 into [5, 10, 20] gives [5, 6, 10, 20]. |
| PagedExamples.InsertSixSplits | KlindaBase/Paging/PagedCore/PagedBPlusTree.cs:444-476 | Inserting 6 splits the leaf around 10, and the new leaf takes id 0 from the counter. |
| PagedExamples.GrowOverSplitSix | KlindaBase/Paging/PagedCore/PagedBPlusTree.cs:75-93 | The new root then takes id 1, overwriting the left leaf. |
| PagedExamples.ReservedIdCollision | KlindaBase/Paging/PagedCore/PagedBPlusTree.cs:39 | After the four inserts, page 1 is a root that lists itself as its first child. Keys 5 and 6 are gone. |
| PagedExamples.SelfLoop | KlindaBase/Paging/PagedCore/PagedBPlusTree.cs:104-113 | In that store, the descent for key 5 never reaches a leaf. |
| PagedExamples.LostKey | KlindaBase/Paging/PagedCore/PagedBPlusTree.cs:377-394 | So Search(5) after those inserts never returns. |
| PagedExamples.FindsLeafTwo | KlindaBase/Paging/PagedCore/PagedBPlusTree.cs:104-122 | Delete(25) finds leaf 2 and removes 25 from it. |
| PagedExamples.MergesIntoLeafOne | KlindaBase/Paging/PagedCore/PagedBPlusTree.cs:203-230 | Leaf 1 has nothing to lend, so leaf 2 merges into it and the parent loses its only key. |
| PagedExamples.UnderflowCollapsesRoot | KlindaBase/Paging/PagedCore/PagedBPlusTree.cs:243-260 | The emptied root collapses onto page 1, and page 3 is logged as deleted. |
| PagedExamples.RemovalRepairs | KlindaBase/Paging/PagedCore/PagedBPlusTree.cs:117-142 | The removal with its repair ends in the expected state. |
| PagedExamples.Repairs | KlindaBase/Paging/PagedCore/PagedBPlusTree.cs:117-142 | What DeleteInLeaf returns when the removal underflows and the repair succeeds. |
| PagedExamples.AfterMergeIs | KlindaBase/Paging/PagedCore/PagedBPlusTree.cs:130-142 | The final writes put leaf 2's stale contents back on page 2. |
| PagedExamples.MergeLeavesStalePage | KlindaBase/Paging/PagedCore/PagedBPlusTree.cs:101-143 | Delete(25) merges and collapses, then writes the merged-away leaf back to page 2, twice. The last log record for page 2 is a write, so a replay brings the page back. Only page 2 is freed. |
| PagedExamples.SearchAfterMerge | KlindaBase/Paging/PagedCore/PagedBPlusTree.cs:377-394 | After that delete, Search(20) finds the value and Search(25) returns null. |
| MemTree.Alloc | KlindaBase/Services/InsertionService.cs:36-50 | `new` gives a handle that no node has yet, and the heap's other nodes stay. |
| MemTree.InsertKey | KlindaBase/Services/InsertionService.cs:14-18 | Insert keeps the heap invariant: node shapes are correct, handles are fresh and the root is a node. |
| MemTree.InsertInLeaf | KlindaBase/Services/InsertionService.cs:20-34 | The leaf upsert and any split keep the heap invariant. |
| MemTree.SplitLeafNode | KlindaBase/Services/InsertionService.cs:36-50 | A leaf split keeps the heap invariant. |
| MemTree.InsertInParent | KlindaBase/Services/InsertionService.cs:52-71 | Parent insertion, cascading splits included, keeps the heap invariant. |
| MemTree.SplitInternalNode | KlindaBase/Services/InsertionService.cs:73-86 | An internal split keeps the heap invariant. |
| MemTree.DeleteKey | KlindaBase/Services/DeletionService.cs:14-31 | Delete keeps the heap invariant. |
| MemTree.HandleUnderflow | KlindaBase/Services/DeletionService.cs:33-66 | Leaf underflow handling keeps the heap invariant. |
| MemTree.MergeLeaves | KlindaBase/Services/DeletionService.cs:96-115 | A leaf merge keeps the heap invariant. |
| MemTree.HandleInternalUnderflow | KlindaBase/Services/DeletionService.cs:117-149 | Internal underflow handling keeps the heap invariant. |
| MemTree.MergeInternals | KlindaBase/Services/DeletionService.cs:183-205 | An internal merge keeps the heap invariant. |
| MemTree.Unlink | KlindaBase/Services/DeletionService.cs:96-115 | Dropping a separator and its right child keeps the node's shape, with one key fewer. |
| MemTree.BPlusTree.constructor | KlindaBase/Core/BPlusTree.cs:15-19 | A new tree is a single empty root leaf. |
| MemTree.BPlusTree.Insert | KlindaBase/Services/InsertionService.cs:14-18 | The new state is the insert specification's result, and the method succeeds exactly when that does. |
| MemTree.BPlusTree.Delete | KlindaBase/Services/DeletionService.cs:14-31 | The new state is the delete specification's result, and the method succeeds exactly when that does. |
| MemTree.BPlusTree.Search | KlindaBase/Services/SearchService.cs:14-21 | Returns the answer of the BinarySearch lookup specification. |
| MemTree.BPlusTree.RangeSearch | KlindaBase/Services/SearchService.cs:23-45 | Returns the answer of the range specification. |
| MemProps.DeleteAbsentKey | KlindaBase/Services/DeletionService.cs:14-31 | Deleting a key that the leaf reached does not hold changes nothing. |
| MemProps.InsertThenSearch | KlindaBase/Services/InsertionService.cs:14-34 | When the leaf reached is sorted and does not overflow: after Insert, the IndexOf lookup returns the new value for the key and the old answer for every other key. When every leaf is sorted, the same holds for the BinarySearch lookup Search uses. |
| MemProps.DeleteThenSearch | KlindaBase/Services/DeletionService.cs:14-31 | When the leaf is sorted, holds the key, and is the root or does not underflow: after Delete, the IndexOf lookup returns null for the key and the old answer for every other key. When every leaf is sorted, the same holds for the BinarySearch lookup Search uses. |
| MemProps.ParentInsertRoot | KlindaBase/Services/InsertionService.cs:52-71 | Parent insertion either keeps the root, or installs a new root at a fresh handle with one key and the old root as its first of two children. |
| MemProps.SplitInternalRoot | KlindaBase/Services/InsertionService.cs:73-86 | The same for an internal split. |
| MemProps.InsertRootChange | KlindaBase/Services/InsertionService.cs:14-18 | Insert raises the height only by such a new root. |
| MemProps.InternalUnderflowHandles | KlindaBase/Services/DeletionService.cs:117-149 | Internal underflow handling allocates no node, and a new root is an existing node. |
| MemProps.MergeInternalsHandles | KlindaBase/Services/DeletionService.cs:183-205 | The same for an internal merge. |
| MemProps.LeafUnderflowHandles | KlindaBase/Services/DeletionService.cs:33-66 | The same for leaf underflow handling. |
| MemProps.MergeLeavesHandles | KlindaBase/Services/DeletionService.cs:96-115 | The same for a leaf merge. |
| MemProps.DeleteKeepsHandles | KlindaBase/Services/DeletionService.cs:14-31 | Delete allocates no node, and a new root is an existing node. |
| TreeCodec.ReadByte | KlindaBase/Services/TreeSerializationService.cs:69 | ReadByte succeeds exactly when a byte remains, and returns it. |
| TreeCodec.ReadNode | KlindaBase/Services/TreeSerializationService.cs:67-104 | Reading a node always consumes at least one byte. |
| TreeCodec.ReadChildren | KlindaBase/Services/TreeSerializationService.cs:94-97 | Reading children never leaves more bytes than it was given. |
| TreeCodec.WriteTag | KlindaBase/Services/TreeSerializationService.cs:47 | The first byte written is 0 exactly for a leaf. |
| TreeCodec.RoundTrip | KlindaBase/Services/TreeSerializationService.cs:45-104 | Reading back a written tree gives the tree. The leaf list collected along the way is the tree's leaves, left to right. |
| TreeCodec.KeysRead | KlindaBase/Services/TreeSerializationService.cs:69-74 | The tag, key count and keys read back. |
| TreeCodec.LeafRoundTrip | KlindaBase/Services/TreeSerializationService.cs:76-91 | A leaf reads back and adds itself to the leaf list. |
| TreeCodec.InternalRoundTrip | KlindaBase/Services/TreeSerializationService.cs:94-103 | An internal node reads back with its children in order. |
| TreeCodec.ChildrenRoundTrip | KlindaBase/Services/TreeSerializationService.cs:61-63 | A written run of subtrees reads back in order, with their leaves in order. |
| TreeCodec.NonZeroTagIsInternal | KlindaBase/Services/TreeSerializationService.cs:76-93 | Any tag other than 0 reads an internal node. |
| TreeCodec.LeafAddsItself | KlindaBase/Services/TreeSerializationService.cs:89 | A leaf that is read is added to the leaf list, and it is the only node added. |
| TreeCodec.LinkedUpTo | KlindaBase/Services/TreeSerializationService.cs:106-112 | Linking changes no handle. |
| TreeCodec.LinkLeafNodes | KlindaBase/Services/TreeSerializationService.cs:106-112 | The loop links exactly the first count - 1 listed leaves. |
| TreeCodec.LinkedKeeps | KlindaBase/Services/TreeSerializationService.cs:106-112 | Nodes that are not linked stay as they were; for the whole list this includes the last leaf. |
| TreeCodec.LinkedLinks | KlindaBase/Services/TreeSerializationService.cs:106-112 | In a list of distinct leaves, each leaf but the last now has the one after it as Next, and keeps its keys and values. |

## Left out

- JSON `SaveToFile`/`LoadFromFile`, `PrintTree`, `DbEngine`/`DbService` and `Program`: outside the tree core.
- File streams, `BinaryReader` buffering, flushing and durability: files are byte sequences that change only through the modelled operations.
- `Interlocked` in AllocatePageId: one thread only.
- UTF-8: string values are their encoded bytes, so no encoding or decoding is modelled.
- `PageType` enum: the raw header byte, Leaf = 0 and Internal = 1.
- `PageManager.FreePage` and `WriteFreeList`: PageManager.cs defines neither, although PagedBPlusTree.cs:124 calls FreePage. FreePage is modelled as an append to an in-memory free list, and `Dispose` is not modelled.
- PagedTree: the buffered page store appears in the tree as a map from page id to node. `LoadNode`/`SaveNode` go straight to the map, and the store keeps a log of writes and deletes in place of WAL bytes. The buffer and the codec are proved separately.
- PagedTree: the metadata is kept apart from the page map. In the source, the first id the counter hands out on a new file is 0, the metadata page's id, so a node saved there overwrites the metadata; the model does not capture that overwrite. The collision it does capture is the root's page 1 against the counter.
- Descents, `FindParent`, leaf-chain walks and underflow cascades take a fuel bound equal to the number of pages or nodes. Running out stands for the source looping forever on a cyclic store. Lemmas show the fuel is enough on a well-founded store.
- Recursive mutating helpers (InsertRecursive, the underflow handlers, the insertion and deletion services) are functions that thread the state. The classes' methods apply them; their object identity and aliasing are not modelled.
- MemTree: nodes are values in a map from handles to nodes, and `new` hands out a fresh handle. Nodes merged away stay in the map, unreachable.
- PagedProps.InsertThenSearch: proved only when the leaf does not split. Splits are covered by footprint and root-change lemmas, not by a lookup lemma.
- PagedProps.DeleteThenSearch: proved only when the leaf does not underflow. Rebalancing is covered by the Rebalanced lemmas and a concrete merge.
- MemProps.InsertThenSearch: proved only when the leaf does not split. A split rewires handles through InsertInParent, and the MemTree invariant covers node shape and handles only, with no key-order part a lookup lemma across a split could build on. For the BinarySearch lookup it also needs every leaf sorted, for the same reason.
- MemProps.DeleteThenSearch: proved only when there is no underflow. Borrows and merges move entries between siblings, and the invariant has no key-order part to carry lookups across them. For the BinarySearch lookup it also needs every leaf sorted.
- MemTree: the invariant does not require child and next handles to name nodes in the heap. A missing handle makes FindParent, the descent or the chain walk fail, which only states the source cannot build reach.
- TreeCodec.ReadNode: builds a `Tree` value, not objects. LinkLeafNodes links handles in a node map, and its lemmas require the listed leaves to be distinct.
- Buffer.BufferManager.constructor: requires capacity ≥ 1. With capacity 0 the source's Evict fails on an empty LRU list, and that case is not modelled.
- After a failure (an exception in the source) the model's state is left unspecified. Only the success case says what the new state is.
