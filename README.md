# Paged B+ tree: page codec, slotted page, buffer pool and tree

This project models the storage core of a small paged B+ tree and proves properties of it in Dafny.

- **Page header codec** (`PageHeaderCodec`, page_header.dfy). It covers:
  - little-endian reads and writes of 16-, 32- and 64-bit fields;
  - the 30-byte `PageHeader` layout, as a bijection between headers and byte strings;
  - the FNV-1a page checksum, which seals bytes 0–3 and covers bytes 4–4095.
- **Slotted page** (`SlottedPage`, slotted_page.dfy). A 4096-byte buffer with the header at the front, a slot directory growing up from byte 30 and 8-byte records growing down from byte 4096. The `Page` class keeps the buffer as an `array<byte>` and the decoded header as a field. Each method states the new buffer as a function of the old one. The ghost views `Slots()`, `Records()` and `Keys()` give those bytes their meaning.
- **Buffer pool** (`BufferPool`, buffer_pool.dfy). A table from page id to page plus an id counter. Fetching a missing id creates a default page.
- **Paged B+ tree** (`PagedBTree`, btree.dfy). Leaf pages hold sorted keys and values and are chained left to right. Internal pages hold separators and child ids. Every page is read and written through the pool. The tree's meaning is `Contents()`, the map made of the entries of the leaf chain. `Valid()` is the structural invariant (`BTreeView.TreeOk`); every public operation keeps it. A ghost rank, key range and leaf chain, kept beside the pages, carry the proofs.
  - `Insert` is proved to be `Contents()[key := value]` on all three paths: overwrite, insert with room, and split. The split path includes new roots and recursive internal splits.
  - `Search` answers membership exactly.
  - `RangeQuery` returns exactly the stored pairs in the interval, in ascending order.
- **Proof modules.** `BTreeView`, `BTreeInsert`, `LeafSplit`, `InternalSplit`, `InsertSteps` and `InsertWrites` hold the value-level tree (`View`) and the lemmas about each page rewrite.

## Model

| member | source | states |
|---|---|---|
| PageHeaderCodec.ReadLe16 | src/storage/page_header.h:36-38 | reading 16 bits back from their little-endian encoding gives the value |
| PageHeaderCodec.ReadLe32 | src/storage/page_header.h:39-41 | reading 32 bits back from their little-endian encoding gives the value |
| PageHeaderCodec.ReadLe64 | src/storage/page_header.h:42-44 | reading 64 bits back from their little-endian encoding gives the value |
| PageHeaderCodec.Le16Read | src/storage/page_header.h:36-38 | encoding what was read from two bytes gives those bytes back |
| PageHeaderCodec.Le32Read | src/storage/page_header.h:39-41 | encoding what was read from four bytes gives those bytes back |
| PageHeaderCodec.Le64Read | src/storage/page_header.h:42-44 | encoding what was read from eight bytes gives those bytes back |
| PageHeaderCodec.Splice | src/storage/page_header.h:47-60 | an in-place write at offset p changes exactly bytes p..p+len, and the length is unchanged |
| PageHeaderCodec.WriteU16 | src/storage/page_header.h:47-50 | the buffer afterwards is the old buffer with the 2-byte little-endian value spliced in at p |
| PageHeaderCodec.WriteU32 | src/storage/page_header.h:51-56 | the buffer afterwards is the old buffer with the 4-byte little-endian value spliced in at p |
| PageHeaderCodec.WriteU64 | src/storage/page_header.h:57-60 | the buffer afterwards is the old buffer with the 8-byte little-endian value spliced in at p |
| PageHeaderCodec.ReadAfterWrite16 | src/storage/page_header.h:36-50 | a 16-bit read at p after a 16-bit write at p returns the written value, whatever the buffer held |
| PageHeaderCodec.ReadAfterWrite32 | src/storage/page_header.h:39-56 | a 32-bit read at p after a 32-bit write at p returns the written value |
| PageHeaderCodec.ReadAfterWrite64 | src/storage/page_header.h:42-60 | a 64-bit read at p after a 64-bit write at p returns the written value |
| PageHeaderCodec.EncodeHeader | src/storage/page_header.h:63-73 | a header encodes to exactly 30 bytes |
| PageHeaderCodec.DecodeEncodeHeader | src/storage/page_header.h:63-86 | deserializing a serialized header gives the header back, whatever follows it |
| PageHeaderCodec.EncodeDecodeHeader | src/storage/page_header.h:63-86 | serializing a deserialized header gives the first 30 bytes back, so the codec is a bijection |
| PageHeaderCodec.SerializeHeader | src/storage/page_header.h:63-73 | the buffer afterwards holds the encoded header in bytes 0..30, and every other byte is unchanged |
| PageHeaderCodec.FnvFoldInjective | src/storage/page_header.h:91-98 | two FNV-1a states that fold the same bytes to the same hash were equal |
| PageHeaderCodec.FnvFoldDetectsOneByte | src/storage/page_header.h:91-98 | changing any one byte of the input changes the FNV-1a hash |
| PageHeaderCodec.SimpleChecksum | src/storage/page_header.h:91-98 | the loop computes FNV-1a (offset basis 2166136261, prime 16777619, modulo 2^32) of data[from..from+len] |
| PageHeaderCodec.Finalized | src/storage/page_header.h:101-108 | sealing a page keeps bytes 4.. and leaves the page passing the checksum test |
| PageHeaderCodec.FinalizePageChecksum | src/storage/page_header.h:101-108 | the page afterwards is the sealed image of the old page |
| PageHeaderCodec.VerifyPageChecksum | src/storage/page_header.h:111-115 | true exactly when bytes 0..4 hold the checksum of bytes 4..4096 |
| PageHeaderCodec.OneByteChangeIsDetected | src/storage/page_header.h:101-115 | a sealed page with any single byte changed fails verification |
| SlottedPage.SignedBitsRoundTrip | src/storage/page.h:48-57 | an int32 key or value stored as 32 raw bits reads back as the same signed value, and the reverse holds too |
| SlottedPage.SlotRoundTrip | src/storage/page.h:91-93 | writing a slot entry at slot i and reading slot i gives the entry back |
| SlottedPage.LeafRoundTrip | src/storage/page.h:54-57 | a leaf record (key, value) is 8 bytes that decode to the same record, with the key in the first 4 bytes |
| SlottedPage.InternalRoundTrip | src/storage/page.h:48-52 | an internal record (key, child) is 8 bytes that decode to the same record, with the key in the first 4 bytes |
| SlottedPage.LowerBound | src/storage/page.h:96-104 | in ascending keys, a position with a smaller key before it and a key at least as large at it splits all keys into those below and those at or above |
| SlottedPage.SearchGap | src/storage/page.h:319-352 | in ascending keys, a position with a smaller key before it and a larger key at it means the key is absent |
| SlottedPage.InsertKeepsAscending | src/storage/page.h:201-257 | inserting a key at its lower bound keeps the keys ascending |
| SlottedPage.InsertImageLayout | src/storage/page.h:201-257 | the byte image after an insert is a well-formed page whose slots, records and keys are the old ones with the new entry at the insertion position |
| SlottedPage.DeleteStoredLayout | src/storage/page.h:302-316 | zeroing slot i's length keeps the page well-formed with the same records and keys, and only slot i's length changes |
| SlottedPage.InitialHeader | src/storage/page.h:112-124 | an empty page header: upper 4096, lower 30, no keys, checksum and LSN 0, magic 0x50414745 ("PAGE") and version 1, with the given id and type |
| SlottedPage.StoredImage | src/storage/page.h:127-131 | the stored image keeps the body, passes the checksum test, and decodes to the header with only its checksum field replaced by the seal |
| SlottedPage.MoveUp | src/storage/page.h:234-240 | moving a block of bytes up inside the buffer leaves the old block at the new place and nothing else changed |
| SlottedPage.CopyIn | src/storage/page.h:243-244 | copying bytes in at p is the old buffer with those bytes spliced in |
| SlottedPage.Page.constructor | src/storage/page.h:107-124 | a zeroed buffer holding an empty, sealed page with the given id and type and 4066 free bytes |
| SlottedPage.Page.InitHeader | src/storage/page.h:112-124 | the header becomes the empty header, and the buffer is that header stored and sealed; no keys, 4066 free bytes, dirty |
| SlottedPage.Page.SerializeToBuffer | src/storage/page.h:127-131 | the buffer becomes the stored image of the header, and the slots and records are unchanged |
| SlottedPage.Page.DeserializeFromBuffer | src/storage/page.h:134-155 | fails, leaving the header alone, when the checksum does not verify; otherwise decodes the header; succeeds exactly when the checksum verifies and the magic is right |
| SlottedPage.Page.StoreLoadRoundTrip | src/storage/page.h:127-155 | serializing then deserializing succeeds exactly when the magic is right, and returns the header with only its checksum field replaced by the seal |
| SlottedPage.Page.SetPageId | src/storage/page.h:163-166 | only the page id field changes, and the buffer is resealed with the same slots and records |
| SlottedPage.Page.SetLeaf | src/storage/page.h:169-173 | only the page type changes, to leaf or internal as asked, and afterwards IsLeaf returns the flag |
| SlottedPage.Page.SetLsn | src/storage/page.h:377-380 | only the LSN field changes, and the buffer is resealed with the same slots and records |
| SlottedPage.Page.FreeSpace | src/storage/page.h:179-181 | upper minus lower, with the 16-bit wrap-around the source has when lower exceeds upper |
| SlottedPage.Page.GetSlot | src/storage/page.h:193-199 | present exactly for i below the key count, and then it is slot i, pointing inside the record area |
| SlottedPage.Page.KeyAtSlot | src/storage/page.h:72-79 | the key of the record that slot i points to |
| SlottedPage.Page.GetLeafEntry | src/storage/page.h:274-285 | present exactly for an in-range slot of a leaf page, and then the decoded record, whose key is the i-th key |
| SlottedPage.Page.GetInternalEntry | src/storage/page.h:288-299 | present exactly for an in-range slot of an internal page, and then the decoded record, whose key is the i-th key |
| SlottedPage.Page.FindInsertionPoint | src/storage/page.h:96-104 | the binary search returns a position whose predecessor is smaller than the key and whose key is at least the key |
| SlottedPage.Page.SearchKey | src/storage/page.h:319-352 | on ascending keys, the index of the key when present, otherwise the first larger key, otherwise -1 |
| SlottedPage.Page.LinearSearchKey | src/storage/page.h:355-374 | -1 exactly when the key is absent, otherwise the index of its first occurrence |
| SlottedPage.Page.WriteSlot | src/storage/page.h:91-93 | the buffer is the old one with the 8-byte slot entry spliced in at slot i's position |
| SlottedPage.Page.InsertIndexItem | src/storage/page.h:201-257 | succeeds exactly when a slot plus the item fit in the free space, and leaves the page untouched otherwise; on success the page stays well-formed, the record and key are inserted at the lower bound, free space drops by 8 plus the item size, and ascending keys stay ascending |
| SlottedPage.Page.StoreItem | src/storage/page.h:233-251 | shifting the slots, copying the record and writing the new slot produce the insert image with the header advanced |
| SlottedPage.Page.InsertLeafEntry | src/storage/page.h:260-264 | succeeds exactly when 16 bytes are free; the (key, value) record is inserted at its position in the keys, and it is then readable back at its slot |
| SlottedPage.Page.InsertInternalEntry | src/storage/page.h:267-271 | succeeds exactly when 16 bytes are free; the (key, child) record is inserted at its position in the keys, and it is then readable back at its slot |
| SlottedPage.Page.DeleteItem | src/storage/page.h:302-316 | fails exactly on an out-of-range slot; otherwise only that slot's length becomes 0, records and keys are unchanged, and the page is resealed |
| BufferPool.DefaultNode | src/btree.cpp:36-52 | a new page is an empty leaf with no parent and no siblings |
| BufferPool.Fetched | src/btree.cpp:86-91 | fetching adds the id to the table, leaves an existing page as it is, creates exactly one default page for a missing id, and keeps every other entry |
| BufferPool.BufferPoolManager.constructor | src/btree.cpp:71 | an empty table, with the next id 1 |
| BufferPool.BufferPoolManager.AllocatePage | src/btree.cpp:81-83 | returns the counter, which is never the invalid id 0, and advances it by one |
| BufferPool.BufferPoolManager.FetchPage | src/btree.cpp:86-91 | the table becomes the fetched table, and the page returned is the one stored under id |
| BufferPool.BufferPoolManager.FlushPage | src/btree.cpp:94-145 | the table changes only as a fetch of id would change it |
| BufferPool.BufferPoolManager.DeletePage | src/btree.cpp:148-153 | removes exactly id and shrinks the table by one when id was present; otherwise nothing changes |
| BufferPool.BufferPoolManager.PageCount | src/btree.cpp:156 | zero exactly when the table is empty |
| BufferPool.AllocateSequence | src/btree.cpp:81-83 | allocating count ids from a new pool returns 1, 2, ..., count |
| PagedBTree.PagedBPlusTree.constructor | src/btree.cpp:353-360 | a valid tree with no entries, whose root and first leaf are page 1 |
| PagedBTree.PagedBPlusTree.FindLeafPage | src/btree.cpp:176-193 | the page reached is a leaf of the chain whose key range holds the key, and no page changes |
| PagedBTree.PagedBPlusTree.Search | src/btree.cpp:399-412 | found exactly when the key is stored, with the stored value, and no page changes |
| PagedBTree.PagedBPlusTree.Insert | src/btree.cpp:363-396 | the tree stays valid, and its contents become the old contents with key mapped to value |
| PagedBTree.PagedBPlusTree.WriteLeaf | src/btree.cpp:370-392 | writing the rewritten leaf back makes the pool show exactly the proved view, so the tree is valid with that view's contents |
| PagedBTree.PagedBPlusTree.SplitLeafPage | src/btree.cpp:196-259 | splitting a full leaf around a new key keeps the tree valid and stores key to value on top of the old contents |
| PagedBTree.PagedBPlusTree.LeafUnderNewRoot | src/btree.cpp:238-251 | a split root leaf gets a new root over its two halves; the tree is valid with the key added |
| PagedBTree.PagedBPlusTree.LeafUnderParent | src/btree.cpp:252-255 | the new right leaf is handed to the parent; the tree is valid with the key added |
| PagedBTree.PagedBPlusTree.NewRootOver | src/btree.cpp:239-249 | the new root page with one separator over the two halves gives a valid tree with the proved contents |
| PagedBTree.PagedBPlusTree.UnderParent | src/btree.cpp:253-254 | the halves are written, and the separator and new page are inserted into the parent; the tree is valid with the proved contents |
| PagedBTree.PagedBPlusTree.RelinkNext | src/btree.cpp:231-234 | the next sibling, when there is one, points back to the new page, and nothing else changes |
| PagedBTree.PagedBPlusTree.InsertInternal | src/btree.cpp:326-350 | placing a separator and child in an internal page keeps the tree valid and the contents and leaf chain unchanged |
| PagedBTree.PagedBPlusTree.InternalWithRoom | src/btree.cpp:329-346 | a page with room takes the separator and child in key order; the tree is valid with the same contents |
| PagedBTree.PagedBPlusTree.SplitInternalPage | src/btree.cpp:262-323 | splitting a full internal page and promoting its middle key keeps the tree valid and the contents and chain unchanged |
| PagedBTree.PagedBPlusTree.InternalUnderNewRoot | src/btree.cpp:302-315 | a split internal root gets a new root over its halves; the tree is valid with the same contents |
| PagedBTree.PagedBPlusTree.InternalUnderParent | src/btree.cpp:316-319 | the promoted key and new page go to the parent; the tree is valid with the same contents |
| PagedBTree.PagedBPlusTree.ReparentChildren | src/btree.cpp:296-299 | every listed child's parent becomes the new page, and nothing else changes |
| PagedBTree.PagedBPlusTree.RangeQuery | src/btree.cpp:415-435 | the result is exactly the stored pairs with start <= key <= end, in ascending key order, and no page changes |
| PagedBTree.PagedBPlusTree.ScanChain | src/btree.cpp:421-432 | walking the chain from a leaf collects the in-interval entries of that leaf and every later one |
| PagedBTree.PagedBPlusTree.VisitLeaf | src/btree.cpp:422-430 | one leaf's in-interval entries are appended; it stops exactly when a key above the end is met, and the next id is the chain successor or the invalid id at the end |
| PagedBTree.ScanLeaf | src/btree.cpp:424-429 | the filter keeps the leaf's entries inside the interval, and stops at the first key above the end |
| PagedBTree.LookupLeaf | src/btree.cpp:404-411 | found exactly when the leaf holds the key, and then the value of a slot holding it; otherwise the caller's value is left as it was |
| PagedBTree.SlotOf | src/btree.cpp:379-380 | the first position whose key is not smaller than the key |
| PagedBTree.LeafHalves | src/btree.cpp:206-226 | the two leaves hold the first mid and the remaining entries of the leaf with the key inserted, linked to each other |
| PagedBTree.InternalHalves | src/btree.cpp:272-293 | the left page keeps mid keys and mid+1 children, the right page the keys after the promoted one and the rest of the children |
| PagedBTree.ShiftLeaf | src/btree.cpp:382-390 | the loop shifts keys and values up by one and places the new pair at pos |
| PagedBTree.ShiftInternal | src/btree.cpp:334-341 | the loop shifts keys and children up and places the separator at pos and the child after it |
| BTreeView.LeafDecides | src/btree.cpp:399-412 | for the leaf whose range holds the key, the key is stored exactly when it is among that leaf's keys, with that leaf's value |
| BTreeView.EntriesSorted | src/btree.cpp:415-435 | the entries along the leaf chain are in strictly ascending key order |
| BTreeView.ResultMeaning | src/btree.cpp:415-435 | the interval filter of the chain is sorted and holds exactly the stored pairs in the interval |
| BTreeView.IntervalMeaning | src/btree.cpp:415-435 | an entry is in the interval filter of the chain exactly when it is stored with start <= key <= end |
| BTreeInsert.SortedInsert | src/btree.cpp:378-389 | inserting a key after the smaller keys and before the larger ones keeps the keys sorted |
| BTreeInsert.InsertMap | src/btree.cpp:378-389 | the leaf with the key inserted at its position is sorted, and maps key to value on top of the old leaf |
| BTreeInsert.LeafMapUpdate | src/btree.cpp:206-213 | a sorted leaf with the same keys plus key, carrying value at key and the old values elsewhere, maps like the old leaf updated at key |
| BTreeInsert.OverwriteStep | src/btree.cpp:370-376 | overwriting the value of an existing key keeps the tree well-formed and updates only that key's value |
| BTreeInsert.LeafInsertStep | src/btree.cpp:378-392 | placing a new key in its leaf keeps the tree well-formed and adds key to value |
| LeafSplit.SplitLeafPending | src/btree.cpp:196-235 | splitting a leaf into linked halves keeps every page's shape and the entries, with the separator pending for the parent |
| InternalSplit.SplitInternalPending | src/btree.cpp:262-299 | splitting an internal page and re-parenting the right half keeps every page's shape and the entries, with the middle key pending for the parent |
| InsertSteps.RoomDone | src/btree.cpp:329-346 | placing a pending separator in a page with room gives a well-formed tree with the same contents, changing only that page and the child's parent |
| InsertWrites.OverwriteDone | src/btree.cpp:370-376 | the overwritten table is a well-formed tree whose contents update key to value |
| InsertWrites.LeafRoomDone | src/btree.cpp:378-392 | the table with the shifted leaf is a well-formed tree whose contents add key to value |
| InsertWrites.LeafRootDone | src/btree.cpp:196-251 | the pages after a root leaf split under a new root are a well-formed tree with key added, the new root at n+1 and the chain starting where it did |
| InsertWrites.LeafBelowDone | src/btree.cpp:196-255 | the pages after a non-root leaf split, with the separator pending in the parent, are a tree with key added |
| InsertWrites.InternalRootDone | src/btree.cpp:262-315 | the pages after an internal root split under a new root are a well-formed tree with the same contents and chain |
| InsertWrites.InternalBelowDone | src/btree.cpp:262-319 | the pages after a non-root internal split, with the middle key pending in the grandparent, keep the contents and chain |

## Left out

- BufferPool.BufferPoolManager.AllocatePage: page ids are unbounded `nat`, so the `uint32_t` counter's wrap-around after 2^32 - 1 allocations (btree.cpp:71, 81-83) is not modelled. "Never the invalid id 0" holds only because the counter never wraps.
- PagedBTree.PagedBPlusTree.constructor: the order must lie in 2..100, while the source takes any `int`; the default of 3 is kept.
  - With order 1 a leaf never has room, and a split leaves an empty right leaf whose `keys[0]` is read as a separator.
  - With order 0 or below, `(uint32_t)(order - 1)` is huge, so leaves grow past their fixed arrays.
  - Above 100, the keys overrun the fixed arrays of `MAX_KEYS_PER_PAGE = 100` entries. Order 101 would still fit; the bound is kept at the array size.
- SlottedPage.Page.InsertIndexItem: the item is at least one 8-byte record long, while the source accepts any 16-bit size (page.h:201). Every caller passes an 8-byte record, and the key view reads the first 8 bytes of each record.
- SlottedPage.Page.InsertIndexItem: as written, the source does not compile; it uses an undeclared `key_data`, and the space check around `dir_growth`/`current_dir_space` is left as comments (page.h:215-244). The model copies `item_data`, which is what `key_data` evidently stands for. The undeclared `dir_growth`, `current_dir_space`, `needs_new_dir` and `reserve_directory_space` are taken as 0, 0, false and absent. The space test is then: the slot plus the item fit between `lower_ptr` and `upper_ptr`.
- SlottedPage.Page.InsertIndexItem: the source sums the slot size and the item size in a `uint16_t`, which wraps for item sizes above 65527. The model adds them as integers, so such an item is refused instead of passing the check. No item that large fits in a 4096-byte page.
- SlottedPage.Page.InsertLeafEntry: the source calls an `insert_item` that is not defined anywhere (page.h:263); the model calls `InsertIndexItem` with the encoded record and its key.
- SlottedPage.Page.InsertInternalEntry: the same undefined `insert_item` (page.h:270) is replaced by `InsertIndexItem`.
- SlottedPage.Page.constructor: `Page()` (page.h:107-110) calls an `init_header()` with no arguments that does not exist; the model's constructor takes the page id and type and runs `InitHeader` with them.
- SlottedPage.Page.DeserializeFromBuffer: `finalize_page_checksum` writes the checksum into bytes 0-3 of the buffer but never into `header_.checksum` (page_header.h:101-108, page.h:127-131). So a serialize/deserialize round trip returns the header with its checksum field replaced by the sealed value; StoreLoadRoundTrip states exactly that, not "the header is unchanged".
- BufferPool.BufferPoolManager.FlushPage: the source's `flushPage` fetches the page and then writes a text dump of it to `page_files/page_<id>.txt` (btree.cpp:96-144: page id, type, key count, the three links, the keys, and the children or values); the dump is file I/O and is left out, so the model changes the table only as the fetch does.
- SlottedPage.Page: `is_dirty`/`set_dirty`, `pin`/`unpin`/`is_pinned`, `get_key_count` and `get_slot_array_offset` (page.h:67-69, 176-190) are plain field accessors, and the model reads `dirty` and `header` directly.
- SlottedPage.Page: `print_info`, `load_from_disk` and `write_to_disk` (page.h:387-415) are console and file I/O.
- PagedBTree: `print`, `printStats` and `main` (btree.cpp:158-163, 438-522) are console output and a demo driver. The `std::cout` trace lines inside the operations are dropped.
- PagedBTree: tree pages are values in the pool's table (`map<PageId, Node>`), with keys, values and children as sequences. The fixed arrays of 100 entries and the raw `Page*` addresses `fetchPage` hands out are not modelled. A write through such an address becomes a replacement of that table entry.
- PagedBTree: keys and values are mathematical integers. The source's tree is generic; `main` uses `PagedBPlusTree<int, std::string>` (btree.cpp:479) and `PagedBPlusTree<int, int>` (btree.cpp:514). Values become `int` because the tree only copies values and never compares them, so their type does not affect any property proved here; keys stay `int` as in both instantiations.
- BufferPool.BufferPoolManager: the destructor frees pages; memory is not modelled.
