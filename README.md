# Storage core of a teaching DBMS, in Dafny

This project models three parts of the storage layer of a small relational database
written in Rust:

- **the LRU-K frame replacer** (`lru_k_replacer.dfy`, module `LruKReplacer`). The buffer pool
  asks it which frame to evict. Each tracked frame keeps the timestamps of its last k
  accesses and an evictable flag. `Evict` removes the evictable frame with the largest
  backward k-distance. A frame with fewer than k accesses counts as infinitely far back, and
  ties go to the frame whose earliest remembered access is oldest. The replacer is a class
  whose fields are the node map, the evictable counter and the logical clock. Its methods
  update these fields in place and keep an invariant:
  - the counter equals the number of evictable nodes;
  - every history is non-empty, holds at most k timestamps, increases strictly and lies
    before the clock;
  - no two frames share a timestamp.
- **the slotted table page** (`table_page.dfy`, module `TablePage`). A page is a PAGE_SIZE-byte
  buffer (4096 here) laid out as follows:
  - a 16-byte header: next page id, tuple count, deleted-tuple count and padding;
  - an array of 6-byte slot entries growing up from the header: offset, size, deleted flag
    and padding;
  - tuple bytes packed down from the end of the page.

  The reads (`HeaderOf`, `SlotArrayOf`, `GetTuple`, `NextTupleOffset`, `ValidateRecordId`)
  are pure decoders over the byte image. The page class owns the frame's byte array. Each of
  its write methods is specified by the page image it produces, and lemmas over those images
  prove what an insert or a header write preserves.
- **the table heap iterator** (`table_tuple_iterator.dfy`, module `TableTupleIterator`). It
  walks the chain of table pages linked by their next page id and ended by
  `INVALID_PAGE_ID`. Within each page it goes slot by slot and yields every tuple that is not
  marked deleted, together with its packed record id. The iterator is a class with the
  current page id and slot. `Next` has the source's outer and inner loop. Its contract ties
  each call to `Scan`, a function that lists the live tuples of the chain in order, and the
  lemmas prove that `Scan` holds exactly the live tuples, in chain order and then slot order,
  with no repeats.

`wrappers.dfy` holds the `Option` and `Result` types the three modules return.

## Model

| member | source | states |
|---|---|---|
| LruKReplacer.LrukNode.HasInfBackwardKDist | handin/lru_k_replacer.rs:25-31 | a node with fewer than k recorded accesses has infinite backward k-distance; `LrukNode.GetBackwardsKDistance` proves the distance is u64::MAX exactly in that case |
| LruKReplacer.LrukNode.GetEarliestTimestamp | handin/lru_k_replacer.rs:33-36 | the front of a strictly increasing history is no later than any recorded access |
| LruKReplacer.LrukNode.GetBackwardsKDistance | handin/lru_k_replacer.rs:25-46 | equals the LRU-K backward k-distance (time since the k-th most recent access); it is u64::MAX exactly when fewer than k accesses are recorded |
| LruKReplacer.LrukNode.InsertHistoryTimestamp | handin/lru_k_replacer.rs:48-55 | requires a timestamp later than the newest one, as the assert demands; the history becomes the last k of the old history plus the new time and stays strictly increasing; id, flag and k are unchanged |
| LruKReplacer.ReplayKeepsMostRecentK | handin/lru_k_replacer.rs:10 | after any run of recorded accesses a node holds exactly the most recent k of them (all of them while fewer than k) |
| LruKReplacer.LrukReplacer.constructor | handin/lru_k_replacer.rs:68-76 | a new replacer is empty, with no evictable frame and the clock at 0, and satisfies the invariant |
| LruKReplacer.LrukReplacer.AdvanceTimestamp | handin/lru_k_replacer.rs:78-83 | returns the old clock and moves it forward by one |
| LruKReplacer.LrukReplacer.RecordAccess | handin/lru_k_replacer.rs:87-98 | only the accessed frame's node changes; an unknown frame gets a new non-evictable node holding just the current time; a known frame's history becomes its last k accesses including this one; the evictable count is unchanged and the clock advances by one; the invariant is kept |
| LruKReplacer.RecordStep | handin/lru_k_replacer.rs:87-98 | recording at the current time is always allowed by the history's assert, leaves the set of evictable frames alone, and keeps every history disjoint and below the advanced clock |
| LruKReplacer.LrukReplacer.Pin | handin/lru_k_replacer.rs:100-116 | clears the flag of a tracked frame; the counter drops by one only if the flag was set; an unknown frame changes nothing |
| LruKReplacer.LrukReplacer.Unpin | handin/lru_k_replacer.rs:118-133 | sets the flag of a tracked frame; the counter grows by one only if the flag was clear; an unknown frame changes nothing |
| LruKReplacer.SetEvictableIdempotent | handin/lru_k_replacer.rs:100-133 | pinning twice is pinning once and unpinning twice is unpinning once; setting a flag to its current value changes nothing |
| LruKReplacer.SetEvictableCount | handin/lru_k_replacer.rs:100-133 | the number of evictable frames moves by exactly one on an actual flag change and not otherwise |
| LruKReplacer.SetEvictablePreservesInvariant | handin/lru_k_replacer.rs:100-133 | changing a flag keeps every node well formed and all histories disjoint |
| LruKReplacer.LrukReplacer.Evict | handin/lru_k_replacer.rs:135-171 | returns None exactly when no frame is evictable, and then changes nothing; otherwise, whatever order the scan visits the frames in, it returns the unique victim (largest backward k-distance, ties to the oldest earliest timestamp), removes exactly that frame and decrements the counter |
| LruKReplacer.CandidatesTotallyOrdered | handin/lru_k_replacer.rs:142-159 | in a consistent store any two distinct frames are strictly ordered as eviction candidates, because their earliest timestamps differ |
| LruKReplacer.VictimUnique | handin/lru_k_replacer.rs:142-159 | at most one frame satisfies the victim rule, so the scan order cannot change the result |
| LruKReplacer.LrukReplacer.Remove | handin/lru_k_replacer.rs:173-185 | drops a frame and decrements the counter only when the frame is tracked and evictable; a pinned or unknown frame is left untouched |
| LruKReplacer.RemovePreservesInvariant | handin/lru_k_replacer.rs:173-185 | dropping a frame keeps the remaining nodes consistent |
| LruKReplacer.LrukReplacer.EvictableCount | handin/lru_k_replacer.rs:187-190 | the counter it returns is the number of evictable frames |
| LruKReplacer.EvictInfiniteFirst | handin/lru_k_replacer.rs:380-392 | with k = 3, frame 1 accessed three times and frame 2 once in between, frame 2 (infinite distance) is evicted first and frame 1 next |
| TablePage.TupleMetadata.New | crates/storage/src/page/table_page.rs:50-55 | the metadata reads back the deleted flag it was built with and has zero padding |
| TablePage.TupleMetadata.IsDeleted | crates/storage/src/page/table_page.rs:57-59 | the flag is set exactly when the stored byte is non-zero; `TupleMetadata.New` and `TupleMetadata.SetDeleted` prove that it reads back the flag they write |
| TablePage.TupleMetadata.SetDeleted | crates/storage/src/page/table_page.rs:57-63 | afterwards the flag reads back as set and the padding is kept |
| TablePage.HeaderOf | crates/storage/src/page/table_page.rs:85-87 | the header is decoded from the first 16 bytes; `EncodeHeader` proves it inverts the header layout, and `InitHeaderImage`, `SetNextPageIdImage` and `SetTupleCountImage` what it reads after each header write |
| TablePage.EncodeHeader | crates/storage/src/page/table_page.rs:12-19 | the 16-byte header layout decodes back to the header that was encoded |
| TablePage.EncodeTupleInfo | crates/storage/src/page/table_page.rs:21-27 | the 6-byte slot entry layout decodes back to the entry that was encoded |
| TablePage.SlotArrayOf | crates/storage/src/page/table_page.rs:89-94 | the slot array is the tuple-count entries decoded from the 6-byte entries after the header; `SetTupleCountKeepsSlots` proves that changing the count changes how many entries are read and not their contents, and `WriteSlotEntry` that writing one encoded entry replaces exactly that entry |
| TablePage.WriteSlotEntry | crates/storage/src/page/table_page.rs:137-144 | writing an encoded entry at slot i below the tuple count keeps the header and turns the slot array into the old one with entry i replaced, all others unchanged |
| TablePage.TablePage.SetSlot | crates/storage/src/page/table_page.rs:137-144 | assigning one entry through the mutable slot array: the header is kept and the slot array becomes the old one with entry i replaced |
| TablePage.SetTupleCountKeepsSlots | crates/storage/src/page/table_page.rs:281-303 | changing the tuple count changes how many slot entries are read and not the entries themselves |
| TablePage.PackedReadable | crates/storage/src/page/table_page.rs:96-108 | on a page in the layout inserts maintain, every slot below the tuple count can be read without a panic, and its tuple lies above the slot array |
| TablePage.GetTuple | crates/storage/src/page/table_page.rs:96-108 | returns the slot's metadata and a copy of its bytes, ignoring the page id; `InsertRoundTrip` proves an inserted tuple reads back with its metadata and bytes, and `SetTupleMetadataTuples` that a flag update changes only that tuple's metadata |
| TablePage.NextTupleOffset | crates/storage/src/page/table_page.rs:110-120 | the next tuple ends exactly where free space ends: the end of the page on an empty page, else the last slot's offset |
| TablePage.ContiguousRegions | crates/storage/src/page/table_page.rs:110-120 | under the placement rule every tuple lies inside the page above the free-space end, and tuples of later slots lie entirely below those of earlier ones, so no two overlap |
| TablePage.ValidateRecordId | crates/storage/src/page/table_page.rs:122-128 | rejects a record of another page or a slot at or past the tuple count with InvalidInput; `ValidateRecordIdReadable` proves that on a packed page it accepts exactly the records `GetTuple` can read |
| TablePage.ValidateRecordIdReadable | crates/storage/src/page/table_page.rs:122-128 | validation succeeds exactly when the record names this page and an existing slot (which can then be read), and otherwise fails with InvalidInput for that record id |
| TablePage.InitHeaderImage | crates/storage/src/page/table_page.rs:146-154 | after initialisation the header reads (next page id, 0, 0) |
| TablePage.InitHeaderPacked | crates/storage/src/page/table_page.rs:146-154 | an initialised page is in the packed layout with an empty slot array |
| TablePage.SetNextPageIdImage | crates/storage/src/page/table_page.rs:156-159 | only the next page id changes in the header and every byte after it is kept |
| TablePage.SetNextPageIdKeepsTuples | crates/storage/src/page/table_page.rs:156-159 | setting the next page id keeps the slot array, the layout and every tuple of the page |
| TablePage.SetTupleCountImage | crates/storage/src/page/table_page.rs:161-164 | only the tuple count changes in the header and every other byte is kept |
| TablePage.TablePage.constructor | crates/storage/src/page/table_page.rs:207-217 | a page wraps a frame's page id and its PAGE_SIZE byte buffer |
| TablePage.TablePage.WriteBytes | crates/storage/src/page/table_page.rs:180 | the byte copy into the frame: the buffer becomes the old one with those bytes spliced in at the offset, and no other byte changes |
| TablePage.TablePage.InitHeader | crates/storage/src/page/table_page.rs:146-154 | the buffer becomes the initialised image: header (next page id, 0, 0), no slots, packed |
| TablePage.TablePage.SetNextPageId | crates/storage/src/page/table_page.rs:156-159 | the buffer becomes the image with the new next page id; the rest of the header is kept |
| TablePage.TablePage.SetTupleCount | crates/storage/src/page/table_page.rs:161-164 | the buffer becomes the image with the new tuple count; the rest of the header is kept |
| TablePage.TablePage.InsertTuple | crates/storage/src/page/table_page.rs:166-185 | returns the record id (this page, old tuple count); the buffer becomes the insert image with the count incremented, the new slot entry written and the tuple copied to the next offset; only the panics of the source are excluded |
| TablePage.InsertRoundTrip | crates/storage/src/page/table_page.rs:166-185 | when the new slot entry stays below the new tuple, the count grows by one, the next page id is kept, the slot array gains exactly the new entry at its end, and reading the returned record gives back the inserted metadata and bytes |
| TablePage.InsertAbove | crates/storage/src/page/table_page.rs:166-185 | an insert whose new tuple ends at or below an existing tuple leaves that tuple readable and unchanged |
| TablePage.InsertKeepsOldTuples | crates/storage/src/page/table_page.rs:166-185 | on a packed page an insert that fits leaves every earlier tuple readable and unchanged |
| TablePage.InsertKeepsPacked | crates/storage/src/page/table_page.rs:166-185 | an insert that fits keeps the tuples contiguous and non-overlapping, with the free space shrunk by the tuple's size |
| TablePage.TablePage.InsertTupleChecked | crates/storage/src/page/table_page.rs:166-185 | corrected insert: reports OutOfSpace and leaves the page alone exactly when slot entry and tuple do not both fit; otherwise performs the insert; the page stays packed either way |
| TablePage.FreshPageInsert | crates/storage/src/page/table_page.rs:243-260 | on a freshly initialised page any tuple that fits beside one slot entry is inserted at slot 0; the header reads (next page id, 1, 0) and get_tuple returns the inserted metadata and bytes |
| TablePage.InsertWithoutRoomClobbersCount | crates/storage/src/page/table_page.rs:166-185 | a tuple of PAGE_SIZE - 6 bytes on a fresh page passes every panic check of insert_tuple although it does not fit, and its bytes overwrite the tuple count just set to 1 |
| TablePage.TablePage.UpdateTupleMetadata | crates/storage/src/page/table_page.rs:187-199 | as written: returns Ok and does not modify the page at all |
| TablePage.UpdateTupleMetadataIsLost | crates/storage/src/page/table_page.rs:187-199 | marking a live tuple deleted through update_tuple_metadata returns, yet the tuple still reads as live |
| TablePage.TablePage.SetTupleMetadata | crates/storage/src/page/table_page.rs:187-199 | corrected update: the buffer becomes the page with the slot's deleted byte set from the new metadata |
| TablePage.SetTupleMetadataKeepsLayout | crates/storage/src/page/table_page.rs:187-199 | the corrected update keeps the header and every other slot entry, changes only that slot's flag, and keeps a packed page packed |
| TablePage.SetTupleMetadataTuples | crates/storage/src/page/table_page.rs:187-199 | after the corrected update that tuple reads back with the new flag and its old bytes, and every other tuple reads as before |
| TableTupleIterator.Pack | handin/table_tuple_iterator.rs:67-69 | the packed record id holds the page id in its high 32 bits and the slot id in its low 32 bits, so distinct record ids pack differently |
| TableTupleIterator.PackedViewable | handin/table_tuple_iterator.rs:58-82 | every slot of a page in the layout inserts maintain can be read, so the iterator's view of it is defined |
| TableTupleIterator.InitHeaderView | crates/storage/src/page/table_page.rs:146-154 | an initialised page shows its next page id and no tuples to the iterator |
| TableTupleIterator.InsertView | crates/storage/src/page/table_page.rs:166-185 | on a packed page an insert that fits appends exactly the new (metadata, bytes) pair to what the iterator reads, and keeps the next page id |
| TableTupleIterator.SetNextPageIdView | crates/storage/src/page/table_page.rs:156-159 | setting the next page id changes only the next page id the iterator follows; every tuple it reads is kept |
| TableTupleIterator.SetTupleMetadataView | crates/storage/src/page/table_page.rs:187-199 | the corrected metadata update changes only that slot's deleted flag in what the iterator reads, so the scan skips or yields that tuple by the new flag |
| TableTupleIterator.ChainUnique | handin/table_tuple_iterator.rs:81-86 | the chain of pages reached from a page by following next page ids is determined by the heap |
| TableTupleIterator.ChainDistinct | handin/table_tuple_iterator.rs:81-86 | a finite chain visits no page twice |
| TableTupleIterator.TableTupleIterator.constructor | handin/table_tuple_iterator.rs:27-34 | a new iterator stands at the heap's first page and slot 0, with the whole scan of the chain ahead of it |
| TableTupleIterator.ScanAdvance | handin/table_tuple_iterator.rs:63-79 | moving past one slot drops that slot's tuple from what remains if it is live, and nothing else |
| TableTupleIterator.ScanNextPage | handin/table_tuple_iterator.rs:81-86 | past a page's last slot what remains is the scan of the next page from slot 0, and the chain ends exactly when the next page id is INVALID_PAGE_ID |
| TableTupleIterator.LiveFromOrdered | handin/table_tuple_iterator.rs:63-79 | within a page the live tuples come in strictly increasing slot order, all from that page |
| TableTupleIterator.ScanMembership | handin/table_tuple_iterator.rs:13 | a (record id, bytes) pair is in the scan of a chain exactly when the record's page is in the chain and its slot holds a tuple not marked deleted, with those bytes |
| TableTupleIterator.ScanOrdered | handin/table_tuple_iterator.rs:40-42 | the scan is in chain order and then slot order, so no record is yielded twice |
| TableTupleIterator.TableTupleIterator.Next | handin/table_tuple_iterator.rs:48-89 | yields the packed record id and bytes of the first remaining live tuple and removes exactly it from what remains; returns None exactly when nothing remains; on a failed fetch returns that page's error and what remains is unchanged; the iterator only moves forward along the chain |
| TableTupleIterator.TableTupleIterator.CollectAll | handin/table_tuple_iterator.rs:133-134 | collecting into a Result gives exactly the remaining scan, in order, or the error of a chain page that could not be fetched; on a heap whose first page id is INVALID_PAGE_ID the error names that id |
| TableTupleIterator.ScanSkipsDeleted | handin/table_tuple_iterator.rs:116-139 | a page of five tuples whose third is marked deleted scans to the other four, in slot order, with their bytes |

## Left out

- The buffer pool, the disk manager and the page frame handles are not part of this model.
  - A page is its byte buffer.
  - The iterator's fetch is a lookup in a map from page id to page view, which succeeds for
    the page ids in a `fetchable` set passed to each call. Which pages a real pool can fetch
    depends on pool state that is not modelled.
- The iterator reads a `PageView` of each page rather than its bytes: the next page id, and
  per slot the metadata and bytes. `ViewOf` computes the view of a page's bytes through
  `GetTuple`, and the lemmas `InitHeaderView`, `InsertView`, `SetNextPageIdView` and
  `SetTupleMetadataView` state how each page write changes that view. The heap map itself is
  not required to consist of such views.
- The `Err` arm of `get_tuple` in `next` (handin/table_tuple_iterator.rs:77) is not modelled.
  In the source `get_tuple` never returns an error; it panics on a slot outside the slot
  array.
- `RwLock`/`Arc`/`Mutex` are not modelled. The heap is a constant of the iterator: the model
  assumes the heap does not change during a scan. The doc comment of the iterator
  (handin/table_tuple_iterator.rs:13-17) promises a read lock that keeps the table stable, but
  `new` takes the heap's lock only to read the first page id (line 28) and the struct
  (lines 18-22) keeps no guard, so the source does not enforce this.
- TableTupleIterator.TableTupleIterator.Next: its error case promises that what remains is
  unchanged, not that the position is. After moving to the next page, a failed fetch of that
  page leaves the iterator at that page's slot 0, exactly as the source does.
- TableTupleIterator.TableTupleIterator.constructor: the iterator is given the chain of page
  ids from the first page, as a ghost witness. The source assumes, without checking, that
  the chain is finite and acyclic.
- After `None`, the current page id is `INVALID_PAGE_ID`, and another `next` tries to fetch
  that page. In the model no page has that id, so this call yields a fetch error. What the
  real pool does for it is not part of this model.
- The packing `u64::from(RecordId)` is not part of this model. `Pack` takes the page id as
  the high 32 bits and the slot id as the low 32 bits; the lemmas use only that it is
  injective.
- `INVALID_PAGE_ID` is taken as 0 and `PageId` as a 32-bit unsigned integer. Neither
  definition is part of this model. A 32-bit `PageId` is the only width that gives the
  16-byte header without implicit padding.
- Byte order is taken as little-endian for the header fields and slot entries.
- `PAGE_SIZE` is taken as 4096; its definition is not part of this model. With that value the
  `as u16` cast of `PAGE_SIZE - size` at crates/storage/src/page/table_page.rs:114 loses
  nothing, so `NextTupleOffset` leaves it out on the empty-page branch.
- `header_mut` is modelled only through the header writes the core makes with it
  (`InitHeader`, `SetNextPageId`, `SetTupleCount`, `InsertTuple`). `slot_array_mut` is
  modelled by `SetSlot`, which assigns a whole entry; a write of one field of an entry, as
  in the test at crates/storage/src/page/table_page.rs:289-295, is `SetSlot` with the old
  entry updated in that field.
- TablePage.TablePage.InsertTuple: the three field writes into the new slot entry are one
  6-byte write of the encoded entry. The result is the same.
- TablePage.TablePage.InsertTuple: its precondition excludes the inputs on which the source
  panics: an arithmetic underflow in the next offset, a slot array past the page, or tuple
  bytes past the page. The source has no error path for these.
- `Tuple` and `Bytes` are byte sequences.
- The replacer's `u64` clock is bounded. `Valid` keeps it below `u64::MAX`, and
  `RecordAccess` requires one more tick to stay below it. Wrap-around is not modelled.
- The replacer requires `k >= 1`. With `k = 0` every node would have an empty history, and
  `evict` would unwrap the front of an empty deque.
- `Evict` visits the frames in an arbitrary order, standing in for `HashMap` iteration.
- crates/storage/src/replacer/lru_replacer.rs is not part of this model: its operations are
  unimplemented stubs.

## Findings

| source | as written | input that shows it | evidently intended | confidence | as-written member | corrected member |
|---|---|---|---|---|---|---|
| crates/storage/src/page/table_page.rs:166-185 | `insert_tuple` places the tuple below the last one and writes the slot entry without checking that the two fit between the header and the tuples | a freshly initialised page and a tuple of PAGE_SIZE - 6 bytes (4090 with PAGE_SIZE = 4096) with a non-zero first byte: the tuple goes to offset 6, over the header, and the tuple count read back is not 1 | report that the page is full, and leave the page unchanged, when the new slot entry and the tuple do not both fit | not executed | TablePage.InsertWithoutRoomClobbersCount | TablePage.TablePage.InsertTupleChecked |
| crates/storage/src/page/table_page.rs:187-199 | `update_tuple_metadata` copies the slot entry into a local variable (`TupleInfo` is `Copy`) and sets the deleted flag on that copy, so the page never changes | any live tuple of a page, updated with metadata marking it deleted: the call returns `Ok`, and `get_tuple` still reports the tuple live | write the new deleted flag into the slot entry on the page | not executed | TablePage.UpdateTupleMetadataIsLost | TablePage.SetTupleMetadataTuples |
