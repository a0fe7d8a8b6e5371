/**
 * The table heap iterator. A table heap is a chain of table pages linked by their
 * `nextPageId` header field and ended by INVALID_PAGE_ID. The iterator walks the chain page
 * by page and each page slot by slot, yielding every tuple whose metadata is not marked
 * deleted, with its packed record id.
 *
 * The buffer pool is a map from page id to what the iterator reads from the page (its next
 * page id and, slot by slot, the metadata and bytes `get_tuple` returns; `ViewOf` computes
 * this from a page's bytes), plus, for each call, the set of page ids the pool manages to
 * fetch; a fetch of any other page fails. The map is fixed for the iterator's lifetime: the
 * model assumes the heap does not change during a scan. The source's doc comment promises a
 * read lock for this, but `new` takes the heap's lock only to read the first page id and
 * keeps no guard, so nothing in the source enforces it.
 */
module TableTupleIterator {
  import opened Wrappers
  import opened TablePage

  /** The page id that ends a chain; no page of the heap has it. */
  const INVALID_PAGE_ID: PageId := 0

  type u64 = x: int | 0 <= x < 0x1_0000_0000_0000_0000

  datatype IterError = FetchFailed(pageId: PageId)

  /** A record id packed into 64 bits: page id in the high half, slot id in the low half. */
  function Pack(rid: RecordId): (packed: u64)
    ensures packed / 0x1_0000_0000 == rid.pageId && packed % 0x1_0000_0000 == rid.slotId
  {
    rid.pageId * 0x1_0000_0000 + rid.slotId
  }

  /** Every slot of the page can be read. */
  ghost predicate PageReadable(page: seq<u8>) {
    && |page| == PAGE_SIZE
    && SlotArrayFits(page)
    && forall slot: nat :: slot < HeaderOf(page).tupleCnt ==> Readable(page, slot)
  }

  /** What the iterator reads from a fetched page: its next page id and each slot's tuple. */
  datatype PageView = PageView(nextPageId: PageId, tuples: seq<(TupleMetadata, seq<u8>)>)

  /**
   * The view of a page's bytes: the header's next page id, and for every slot below the
   * tuple count what `get_tuple` returns for it.
   */
  ghost function ViewOf(page: seq<u8>): (v: PageView)
    requires PageReadable(page)
    ensures v.nextPageId == HeaderOf(page).nextPageId && |v.tuples| == HeaderOf(page).tupleCnt
    ensures forall rid: RecordId :: rid.slotId < |v.tuples| ==> GetTuple(page, rid) == Ok(v.tuples[rid.slotId])
  {
    var n := HeaderOf(page).tupleCnt;
    PageView(HeaderOf(page).nextPageId, seq(n, s requires 0 <= s < n => GetTuple(page, RecordId(0, s)).value))
  }

  // ---------------------------------------------------------------- views of page operations

  /** Every slot of a packed page can be read, so the page has a view. */
  lemma PackedViewable(page: seq<u8>)
    requires Packed(page)
    ensures PageReadable(page)
  {
    forall slot: nat | slot < HeaderOf(page).tupleCnt
      ensures Readable(page, slot)
    {
      PackedReadable(page, slot);
    }
  }

  /** A freshly initialised page shows its next page id and no tuples. */
  lemma InitHeaderView(page: seq<u8>, nextPageId: PageId)
    requires |page| == PAGE_SIZE
    ensures PageReadable(InitHeaderImage(page, nextPageId))
    ensures ViewOf(InitHeaderImage(page, nextPageId)) == PageView(nextPageId, [])
  {
    InitHeaderPacked(page, nextPageId);
    PackedViewable(InitHeaderImage(page, nextPageId));
  }

  /**
   * Inserting a tuple that fits into a packed page appends exactly that tuple, with its
   * metadata, to what the iterator reads from the page; the next page id is kept.
   */
  lemma InsertView(page: seq<u8>, meta: TupleMetadata, tuple: seq<u8>)
    requires Packed(page) && Fits(page, |tuple|)
    ensures InsertDefined(page, |tuple|) && PageReadable(page)
    ensures PageReadable(InsertImage(page, meta, tuple))
    ensures ViewOf(InsertImage(page, meta, tuple))
      == PageView(ViewOf(page).nextPageId, ViewOf(page).tuples + [(meta, tuple)])
  {
    var cnt := HeaderOf(page).tupleCnt;
    InsertKeepsPacked(page, meta, tuple);
    PackedFitsDefined(page, |tuple|);
    InsertRoundTrip(page, meta, tuple, 0);
    var img := InsertImage(page, meta, tuple);
    PackedViewable(page);
    PackedViewable(img);
    var v, w := ViewOf(page), ViewOf(img);
    forall s | 0 <= s < cnt + 1
      ensures w.tuples[s] == (v.tuples + [(meta, tuple)])[s]
    {
      var rid := RecordId(0, s);
      if s < cnt {
        InsertKeepsOldTuples(page, meta, tuple, rid);
        assert GetTuple(img, rid) == Ok(w.tuples[s]) && GetTuple(page, rid) == Ok(v.tuples[s]);
      } else {
        assert GetTuple(img, rid) == Ok(w.tuples[s]);
      }
    }
  }

  /** Setting the next page id of a packed page changes only the next page id of its view. */
  lemma SetNextPageIdView(page: seq<u8>, nextPageId: PageId)
    requires Packed(page)
    ensures PageReadable(page) && PageReadable(SetNextPageIdImage(page, nextPageId))
    ensures ViewOf(SetNextPageIdImage(page, nextPageId)) == ViewOf(page).(nextPageId := nextPageId)
  {
    var q := SetNextPageIdImage(page, nextPageId);
    SetNextPageIdKeepsTuples(page, nextPageId, RecordId(0, 0));
    PackedViewable(page);
    PackedViewable(q);
    var v, w := ViewOf(page), ViewOf(q);
    forall s | 0 <= s < |v.tuples|
      ensures w.tuples[s] == v.tuples[s]
    {
      var rid := RecordId(0, s);
      SetNextPageIdKeepsTuples(page, nextPageId, rid);
      assert GetTuple(q, rid) == Ok(w.tuples[s]) && GetTuple(page, rid) == Ok(v.tuples[s]);
    }
  }

  /**
   * Setting slot `slot`'s deleted flag on a packed page changes only that slot's metadata in
   * the view: the iterator then skips the tuple, or yields it, by the new flag.
   */
  lemma SetTupleMetadataView(page: seq<u8>, slot: nat, deleted: bool)
    requires Packed(page) && slot < HeaderOf(page).tupleCnt
    ensures PageReadable(page) && PageReadable(SetTupleMetadataImage(page, slot, deleted))
    ensures var v := ViewOf(page);
      ViewOf(SetTupleMetadataImage(page, slot, deleted))
        == v.(tuples := v.tuples[slot := (v.tuples[slot].0.SetDeleted(deleted), v.tuples[slot].1)])
  {
    var q := SetTupleMetadataImage(page, slot, deleted);
    SetTupleMetadataKeepsLayout(page, slot, deleted);
    PackedViewable(page);
    PackedViewable(q);
    var v, w := ViewOf(page), ViewOf(q);
    forall s | 0 <= s < |v.tuples|
      ensures w.tuples[s] == v.tuples[slot := (v.tuples[slot].0.SetDeleted(deleted), v.tuples[slot].1)][s]
    {
      var rid := RecordId(0, s);
      SetTupleMetadataTuples(page, slot, deleted, rid);
      assert GetTuple(q, rid) == Ok(w.tuples[s]) && GetTuple(page, rid) == Ok(v.tuples[s]);
    }
  }

  /** The heap's pages hold at most a u32's worth of slots, and none has the invalid id. */
  ghost predicate HeapOk(heap: map<PageId, PageView>) {
    && INVALID_PAGE_ID !in heap
    && forall pageId :: pageId in heap ==> |heap[pageId].tuples| < 0x1_0000_0000
  }

  /**
   * `chain` lists pages of the heap each of whose next page id is the following entry, the
   * last one's being INVALID_PAGE_ID: a finite chain, which is what makes a scan end.
   */
  ghost predicate IsChain(heap: map<PageId, PageView>, chain: seq<PageId>) {
    chain == [] ||
      (chain[0] in heap
       && heap[chain[0]].nextPageId == (if |chain| == 1 then INVALID_PAGE_ID else chain[1])
       && IsChain(heap, chain[1..]))
  }

  /** `chain` is the chain that starts at `first` (empty when `first` is the invalid id). */
  ghost predicate ChainFrom(heap: map<PageId, PageView>, first: PageId, chain: seq<PageId>) {
    IsChain(heap, chain) && if chain == [] then first == INVALID_PAGE_ID else chain[0] == first
  }

  /** The live tuples among `ts` from slot `slot` on, in slot order, with their record ids. */
  ghost function LiveFrom(ts: seq<(TupleMetadata, seq<u8>)>, pageId: PageId, slot: nat): seq<(RecordId, seq<u8>)>
    requires |ts| < 0x1_0000_0000
    decreases |ts| - slot
  {
    if slot >= |ts| then []
    else (if ts[slot].0.IsDeleted() then [] else [(RecordId(pageId, slot), ts[slot].1)]) + LiveFrom(ts, pageId, slot + 1)
  }

  /**
   * What a scan from slot `slot` of the chain's first page yields: the live tuples of that
   * page from `slot` on, then those of every later page of the chain.
   */
  ghost function Scan(heap: map<PageId, PageView>, chain: seq<PageId>, slot: nat): seq<(RecordId, seq<u8>)>
    requires HeapOk(heap) && IsChain(heap, chain)
    decreases |chain|
  {
    if chain == [] then [] else LiveFrom(heap[chain[0]].tuples, chain[0], slot) + Scan(heap, chain[1..], 0)
  }

  /** A yielded item: the packed record id and the tuple's bytes. */
  function Emit(x: (RecordId, seq<u8>)): (u64, seq<u8>) {
    (Pack(x.0), x.1)
  }

  function EmitAll(xs: seq<(RecordId, seq<u8>)>): (ys: seq<(u64, seq<u8>)>)
    ensures |ys| == |xs| && forall i :: 0 <= i < |xs| ==> ys[i] == Emit(xs[i])
  {
    if xs == [] then [] else [Emit(xs[0])] + EmitAll(xs[1..])
  }

  /** Slot `slot` of the page holds a tuple that is not deleted, with bytes `bytes`. */
  ghost predicate LiveAt(page: PageView, slot: nat, bytes: seq<u8>) {
    slot < |page.tuples| && !page.tuples[slot].0.IsDeleted() && page.tuples[slot].1 == bytes
  }

  // ---------------------------------------------------------------- chain lemmas

  /** Every suffix of a chain is a chain. */
  lemma {:induction false} ChainSuffix(heap: map<PageId, PageView>, chain: seq<PageId>, k: nat)
    requires IsChain(heap, chain) && k <= |chain|
    ensures IsChain(heap, chain[k..])
    decreases k
  {
    if k > 0 {
      ChainSuffix(heap, chain[1..], k - 1);
      assert chain[1..][k - 1..] == chain[k..];
    }
  }

  /** The chain from a page is determined by the heap. */
  lemma {:induction false} ChainUnique(heap: map<PageId, PageView>, a: seq<PageId>, b: seq<PageId>)
    requires HeapOk(heap) && IsChain(heap, a) && IsChain(heap, b)
    requires a != [] && b != []
    ensures a[0] == b[0] ==> a == b
    decreases |a|
  {
    if a[0] == b[0] && |a| > 1 && |b| > 1 {
      ChainUnique(heap, a[1..], b[1..]);
      assert a == [a[0]] + a[1..] && b == [b[0]] + b[1..];
    }
  }

  /** A chain visits no page twice. */
  lemma ChainDistinct(heap: map<PageId, PageView>, chain: seq<PageId>, i: nat, j: nat)
    requires HeapOk(heap) && IsChain(heap, chain) && i < j < |chain|
    ensures chain[i] != chain[j]
  {
    ChainSuffix(heap, chain, i);
    ChainSuffix(heap, chain, j);
    ChainUnique(heap, chain[i..], chain[j..]);
    assert |chain[i..]| != |chain[j..]|;
  }

  /** Where a page sits in the chain. */
  function IndexOf(chain: seq<PageId>, pageId: PageId): (i: nat)
    requires pageId in chain
    ensures i < |chain| && chain[i] == pageId && pageId !in chain[..i]
  {
    if chain[0] == pageId then 0 else 1 + IndexOf(chain[1..], pageId)
  }

  /** Scan order: an earlier page of the chain, or the same page and a lower slot. */
  ghost predicate Precedes(chain: seq<PageId>, a: RecordId, b: RecordId) {
    && a.pageId in chain && b.pageId in chain
    && (IndexOf(chain, a.pageId) < IndexOf(chain, b.pageId)
        || (a.pageId == b.pageId && a.slotId < b.slotId))
  }

  /** Every item comes before every later one in scan order, so no record id appears twice. */
  ghost predicate InScanOrder(chain: seq<PageId>, s: seq<(RecordId, seq<u8>)>) {
    forall i, j :: 0 <= i < j < |s| ==> Precedes(chain, s[i].0, s[j].0) && s[i].0 != s[j].0
  }

  // ---------------------------------------------------------------- scan lemmas

  /** Membership in the live tuples from slot `slot` on. */
  lemma {:induction false} LiveFromMembership(ts: seq<(TupleMetadata, seq<u8>)>, pageId: PageId, slot: nat, x: (RecordId, seq<u8>))
    requires |ts| < 0x1_0000_0000
    ensures x in LiveFrom(ts, pageId, slot)
        <==> && x.0.pageId == pageId && slot <= x.0.slotId < |ts|
             && !ts[x.0.slotId].0.IsDeleted() && ts[x.0.slotId].1 == x.1
    decreases |ts| - slot
  {
    if slot < |ts| {
      LiveFromMembership(ts, pageId, slot + 1, x);
    }
  }

  ghost predicate SlotsIncreasing(l: seq<(RecordId, seq<u8>)>) {
    forall i, j :: 0 <= i < j < |l| ==> l[i].0.slotId < l[j].0.slotId
  }

  /** The live tuples of one page come in strictly increasing slot order. */
  lemma {:induction false} LiveFromOrdered(ts: seq<(TupleMetadata, seq<u8>)>, pageId: PageId, slot: nat)
    requires |ts| < 0x1_0000_0000
    ensures forall x :: x in LiveFrom(ts, pageId, slot) ==> x.0.pageId == pageId && slot <= x.0.slotId
    ensures SlotsIncreasing(LiveFrom(ts, pageId, slot))
    decreases |ts| - slot
  {
    if slot < |ts| {
      LiveFromOrdered(ts, pageId, slot + 1);
      var l, tail := LiveFrom(ts, pageId, slot), LiveFrom(ts, pageId, slot + 1);
      if ts[slot].0.IsDeleted() {
        assert l == tail;
      } else {
        var h := (RecordId(pageId, slot), ts[slot].1);
        assert l == [h] + tail;
        forall i, j | 0 <= i < j < |l|
          ensures l[i].0.slotId < l[j].0.slotId
        {
          assert l[j] == tail[j - 1] && l[j] in tail;
          if i > 0 {
            assert l[i] == tail[i - 1];
            assert tail[i - 1].0.slotId < tail[j - 1].0.slotId;
          } else {
            assert l[i] == h;
          }
        }
      }
    }
  }

  /**
   * A scan of a whole chain yields exactly the live tuples of the chain's pages: a record
   * id and bytes are yielded if and only if the record's page is in the chain and its slot
   * holds a tuple that is not deleted, with those bytes.
   */
  lemma {:induction false} ScanMembership(heap: map<PageId, PageView>, chain: seq<PageId>, x: (RecordId, seq<u8>))
    requires HeapOk(heap) && IsChain(heap, chain)
    ensures x in Scan(heap, chain, 0)
        <==> x.0.pageId in chain && x.0.pageId in heap && LiveAt(heap[x.0.pageId], x.0.slotId, x.1)
    decreases |chain|
  {
    if chain != [] {
      ScanMembership(heap, chain[1..], x);
      LiveFromMembership(heap[chain[0]].tuples, chain[0], 0, x);
      assert chain == [chain[0]] + chain[1..];
    }
  }

  /**
   * A scan yields its tuples in chain order and then slot order, so no record id is
   * yielded twice.
   */
  lemma {:induction false} ScanOrdered(heap: map<PageId, PageView>, chain: seq<PageId>, slot: nat)
    requires HeapOk(heap) && IsChain(heap, chain)
    ensures InScanOrder(chain, Scan(heap, chain, slot))
    decreases |chain|
  {
    if chain != [] {
      var ts := heap[chain[0]].tuples;
      var l, rest := LiveFrom(ts, chain[0], slot), Scan(heap, chain[1..], 0);
      var s := Scan(heap, chain, slot);
      LiveFromOrdered(ts, chain[0], slot);
      ScanOrdered(heap, chain[1..], 0);
      ScanPages(heap, chain[1..], 0);
      assert s == l + rest;
      forall i, j | 0 <= i < j < |s|
        ensures Precedes(chain, s[i].0, s[j].0) && s[i].0 != s[j].0
      {
        if j < |l| {
          assert s[i] == l[i] && s[j] == l[j];
          assert l[i] in l && l[j] in l;
        } else if i < |l| {
          assert s[i] == l[i] && s[j] == rest[j - |l|];
          assert l[i] in l && s[j] in rest;
          TailPage(heap, chain, s[j].0.pageId);
        } else {
          assert s[i] == rest[i - |l|] && s[j] == rest[j - |l|];
          assert s[i] in rest && s[j] in rest;
          TailPage(heap, chain, s[i].0.pageId);
          TailPage(heap, chain, s[j].0.pageId);
        }
      }
    }
  }

  /** Every record a scan yields lies on a page of the chain. */
  lemma {:induction false} ScanPages(heap: map<PageId, PageView>, chain: seq<PageId>, slot: nat)
    requires HeapOk(heap) && IsChain(heap, chain)
    ensures forall x :: x in Scan(heap, chain, slot) ==> x.0.pageId in chain
    decreases |chain|
  {
    if chain != [] {
      LiveFromOrdered(heap[chain[0]].tuples, chain[0], slot);
      ScanPages(heap, chain[1..], 0);
    }
  }

  /** A page of a chain's tail is not its head, and sits one place later in the chain than in the tail. */
  lemma TailPage(heap: map<PageId, PageView>, chain: seq<PageId>, pageId: PageId)
    requires HeapOk(heap) && IsChain(heap, chain) && chain != [] && pageId in chain[1..]
    ensures pageId != chain[0] && pageId in chain
    ensures IndexOf(chain, pageId) == 1 + IndexOf(chain[1..], pageId)
  {
    var k := IndexOf(chain[1..], pageId);
    assert chain[1 + k] == pageId;
    ChainDistinct(heap, chain, 0, 1 + k);
  }

  /** One slot further: the scan loses the slot's tuple if it is live, and nothing else. */
  lemma ScanAdvance(heap: map<PageId, PageView>, chain: seq<PageId>, slot: nat)
    requires HeapOk(heap) && IsChain(heap, chain) && chain != []
    requires slot < |heap[chain[0]].tuples|
    ensures var t := heap[chain[0]].tuples[slot];
      Scan(heap, chain, slot)
        == (if t.0.IsDeleted() then [] else [(RecordId(chain[0], slot), t.1)]) + Scan(heap, chain, slot + 1)
  {
  }

  /** Past the last slot, the scan is the scan of the next page, and the chain ends exactly at the invalid id. */
  lemma ScanNextPage(heap: map<PageId, PageView>, chain: seq<PageId>, slot: nat)
    requires HeapOk(heap) && IsChain(heap, chain) && chain != []
    requires slot >= |heap[chain[0]].tuples|
    ensures IsChain(heap, chain[1..]) && Scan(heap, chain, slot) == Scan(heap, chain[1..], 0)
    ensures chain[1..] == [] <==> heap[chain[0]].nextPageId == INVALID_PAGE_ID
    ensures chain[1..] != [] ==> chain[1] == heap[chain[0]].nextPageId
  {
  }

  // ---------------------------------------------------------------- the iterator

  class TableTupleIterator {
    /** The heap's pages, assumed not to change during the scan (no lock is held). */
    const heap: map<PageId, PageView>
    var currentPageId: PageId
    var currentSlot: u32
    /** The rest of the chain, starting at the current page. */
    ghost var chain: seq<PageId>

    ghost predicate Valid()
      reads this
    {
      HeapOk(heap) && IsChain(heap, chain)
        && if chain == [] then currentPageId == INVALID_PAGE_ID else chain[0] == currentPageId
    }

    /** What is left to yield. */
    ghost function Remaining(): seq<(RecordId, seq<u8>)>
      reads this
      requires Valid()
    {
      Scan(heap, chain, currentSlot)
    }

    /** A fresh iterator stands at slot 0 of the heap's first page and has the whole scan ahead. */
    constructor (heap: map<PageId, PageView>, firstPageId: PageId, ghost chain: seq<PageId>)
      requires HeapOk(heap) && ChainFrom(heap, firstPageId, chain)
      ensures Valid() && this.heap == heap && this.chain == chain
      ensures currentPageId == firstPageId && currentSlot == 0
      ensures Remaining() == Scan(heap, chain, 0)
    {
      this.heap := heap;
      currentPageId := firstPageId;
      currentSlot := 0;
      this.chain := chain;
    }

    /**
     * Yields the next live tuple and moves past it; at the end of the chain yields None. A
     * page that cannot be fetched yields that error and leaves what remains to yield as it
     * was. The iterator only moves forward along the chain.
     */
    method Next(fetchable: set<PageId>) returns (item: Option<Result<(u64, seq<u8>), IterError>>)
      requires Valid()
      modifies this
      ensures Valid()
      ensures |chain| <= |old(chain)| && chain == old(chain)[|old(chain)| - |chain|..]
      ensures item.None? ==> old(Remaining()) == [] && Remaining() == []
      ensures item.Some? && item.value.Ok? ==>
                && old(Remaining()) != []
                && item.value.value == Emit(old(Remaining())[0])
                && Remaining() == old(Remaining())[1..]
                && chain != []
      ensures item.Some? && item.value.Err? ==>
                && Remaining() == old(Remaining())
                && item.value.error == FetchFailed(currentPageId)
                && (currentPageId !in heap || currentPageId !in fetchable)
                && (old(chain) != [] ==> chain != [])
    {
      while true
        invariant Valid() && Remaining() == old(Remaining())
        invariant |chain| <= |old(chain)| && chain == old(chain)[|old(chain)| - |chain|..]
        invariant old(chain) != [] ==> chain != []
        decreases |chain|
      {
        if currentPageId !in heap || currentPageId !in fetchable {
          return Some(Err(FetchFailed(currentPageId)));
        }
        var page := heap[currentPageId];
        var numTuples := |page.tuples|;
        ghost var pageChain := chain;
        while currentSlot < numTuples
          invariant Valid() && Remaining() == old(Remaining())
          invariant chain == pageChain && chain != [] && chain[0] == currentPageId && page == heap[currentPageId]
          decreases numTuples - currentSlot
        {
          var slotId := currentSlot;
          currentSlot := currentSlot + 1;
          var rid := RecordId(currentPageId, slotId);
          var packed := Pack(rid);
          var (metadata, tuple) := page.tuples[slotId];
          ScanAdvance(heap, chain, slotId);
          if !metadata.IsDeleted() {
            return Some(Ok((packed, tuple)));
          }
        }
        ScanNextPage(heap, chain, currentSlot);
        currentPageId := page.nextPageId;
        chain := chain[1..];
        if currentPageId == INVALID_PAGE_ID {
          return None;
        }
        currentSlot := 0;
      }
    }

    /**
     * Collecting the iterator into a `Result`: calls Next until None and gathers the items,
     * stopping at the first error. Collected items are exactly what remained, in order; an
     * error names a page of the chain that could not be fetched. A heap whose first page id is
     * already INVALID_PAGE_ID has an empty chain, and then the one fetch, of that id, fails.
     */
    method CollectAll(fetchable: set<PageId>) returns (r: Result<seq<(u64, seq<u8>)>, IterError>)
      requires Valid()
      modifies this
      ensures r.Ok? ==> r.value == EmitAll(old(Remaining()))
      ensures r.Err? ==>
                if old(chain) == [] then r.error.pageId == INVALID_PAGE_ID
                else r.error.pageId in old(chain) && r.error.pageId !in fetchable
    {
      var items := [];
      while true
        invariant Valid() && (old(chain) != [] <==> chain != [])
        invariant |chain| <= |old(chain)| && chain == old(chain)[|old(chain)| - |chain|..]
        invariant EmitAll(old(Remaining())) == items + EmitAll(Remaining())
        decreases |Remaining()|
      {
        ghost var before := Remaining();
        var item := Next(fetchable);
        match item {
          case None =>
            return Ok(items);
          case Some(Err(e)) =>
            if chain != [] {
              assert chain[0] in old(chain);
            }
            return Err(e);
          case Some(Ok(x)) =>
            EmitAllCons(old(Remaining()), items, before, x);
            items := items + [x];
        }
      }
    }
  }

  /** Moving one item from the pending scan to the collected prefix keeps their concatenation. */
  lemma EmitAllCons(all: seq<(RecordId, seq<u8>)>, items: seq<(u64, seq<u8>)>, rest: seq<(RecordId, seq<u8>)>, x: (u64, seq<u8>))
    requires rest != [] && x == Emit(rest[0])
    requires EmitAll(all) == items + EmitAll(rest)
    ensures EmitAll(all) == (items + [x]) + EmitAll(rest[1..])
  {
  }

  // ---------------------------------------------------------------- a concrete heap

  /**
   * One page holding five three-byte tuples, the third marked deleted: a scan of it yields
   * the other four, in slot order, each with the bytes that were inserted.
   */
  lemma ScanSkipsDeleted(pageId: PageId, ts: seq<(TupleMetadata, seq<u8>)>)
    requires pageId != INVALID_PAGE_ID
    requires ts == [(TupleMetadata.New(false), [1, 2, 3]), (TupleMetadata.New(false), [4, 5, 6]),
                    (TupleMetadata.New(true), [7, 8, 9]), (TupleMetadata.New(false), [10, 11, 12]),
                    (TupleMetadata.New(false), [13, 14, 15])]
    ensures var heap := map[pageId := PageView(INVALID_PAGE_ID, ts)];
      && HeapOk(heap) && ChainFrom(heap, pageId, [pageId])
      && Scan(heap, [pageId], 0)
           == [(RecordId(pageId, 0), [1, 2, 3]), (RecordId(pageId, 1), [4, 5, 6]),
               (RecordId(pageId, 3), [10, 11, 12]), (RecordId(pageId, 4), [13, 14, 15])]
  {
    var heap := map[pageId := PageView(INVALID_PAGE_ID, ts)];
    assert LiveFrom(ts, pageId, 5) == [];
    assert LiveFrom(ts, pageId, 4) == [(RecordId(pageId, 4), [13, 14, 15])];
    assert LiveFrom(ts, pageId, 3) == [(RecordId(pageId, 3), [10, 11, 12])] + LiveFrom(ts, pageId, 4);
    assert LiveFrom(ts, pageId, 2) == LiveFrom(ts, pageId, 3);
    assert LiveFrom(ts, pageId, 1) == [(RecordId(pageId, 1), [4, 5, 6])] + LiveFrom(ts, pageId, 2);
    assert LiveFrom(ts, pageId, 0) == [(RecordId(pageId, 0), [1, 2, 3])] + LiveFrom(ts, pageId, 1);
    assert Scan(heap, [pageId], 0) == LiveFrom(ts, pageId, 0) + Scan(heap, [], 0);
  }
}
