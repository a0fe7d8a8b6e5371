/**
 * The slotted table page. A page is a PAGE_SIZE byte buffer: a 16-byte header
 * (next page id, tuple count, deleted-tuple count, 4 bytes of padding), then an array of
 * 6-byte slot entries (offset, size, metadata) growing up from the header, and the tuple
 * bytes themselves packed down from the end of the page. Multi-byte fields are
 * little-endian.
 *
 * Reading the page is a set of pure decoders over the byte image (`seq<u8>`); the page
 * class owns the frame's byte array and its write methods are specified by the image
 * functions they apply.
 */
module TablePage {
  import opened Wrappers

  type u8 = x: int | 0 <= x < 0x100
  type u16 = x: int | 0 <= x < 0x1_0000
  type u32 = x: int | 0 <= x < 0x1_0000_0000
  type PageId = u32

  /** Size of a page frame; its definition lies outside this model and 4096 is assumed. */
  const PAGE_SIZE: nat := 4096
  /** Size of the header: next page id, tuple count, deleted count (4 bytes each) and 4 bytes of padding. */
  const TABLE_PAGE_HEADER_SIZE: nat := 16
  /** Size of a slot entry: offset and size (2 bytes each), deleted flag and 1 byte of padding. */
  const TUPLE_INFO_SIZE: nat := 6

  datatype TablePageHeader = TablePageHeader(nextPageId: PageId, tupleCnt: u32, deletedTupleCnt: u32)

  /** Per-tuple metadata: a deleted flag stored as a byte (non-zero means deleted) and padding. */
  datatype TupleMetadata = TupleMetadata(isDeletedByte: u8, padding: u8)
  {
    static function New(isDeleted: bool): (m: TupleMetadata)
      ensures m.IsDeleted() == isDeleted && m.padding == 0
    {
      TupleMetadata(if isDeleted then 1 else 0, 0)
    }

    predicate IsDeleted() {
      isDeletedByte != 0
    }

    function SetDeleted(deleted: bool): (m: TupleMetadata)
      ensures m.IsDeleted() == deleted && m.padding == padding
    {
      this.(isDeletedByte := if deleted then 1 else 0)
    }
  }

  /** A slot entry: where the tuple's bytes start, how many there are, and its metadata. */
  datatype TupleInfo = TupleInfo(offset: u16, sizeBytes: u16, metadata: TupleMetadata)

  datatype RecordId = RecordId(pageId: PageId, slotId: u32)

  datatype Error = InvalidInput(rid: RecordId) | OutOfSpace

  // ---------------------------------------------------------------- byte codecs

  function ReadU16(p: seq<u8>, at: nat): u16
    requires at + 2 <= |p|
  {
    p[at] as int + 0x100 * p[at + 1] as int
  }

  function ReadU32(p: seq<u8>, at: nat): u32
    requires at + 4 <= |p|
  {
    ReadU16(p, at) + 0x1_0000 * ReadU16(p, at + 2)
  }

  function EncodeU16(v: u16): (r: seq<u8>)
    ensures |r| == 2 && ReadU16(r, 0) == v
  {
    [v % 0x100, v / 0x100]
  }

  function EncodeU32(v: u32): (r: seq<u8>)
    ensures |r| == 4 && ReadU32(r, 0) == v
  {
    var lo, hi := EncodeU16(v % 0x1_0000), EncodeU16(v / 0x1_0000);
    assert ReadU16(lo + hi, 2) == ReadU16(hi, 0);
    lo + hi
  }

  /** `p` with the bytes from `at` on replaced by `bytes`. */
  function Splice(p: seq<u8>, at: nat, bytes: seq<u8>): (r: seq<u8>)
    requires at + |bytes| <= |p|
    ensures |r| == |p|
  {
    p[..at] + bytes + p[at + |bytes|..]
  }

  /** Reading a field looks only at the field's own bytes. */
  lemma ReadU32Frame(p: seq<u8>, at: nat, q: seq<u8>, bt: nat)
    requires at + 4 <= |p| && bt + 4 <= |q|
    requires p[at..at + 4] == q[bt..bt + 4]
    ensures ReadU32(p, at) == ReadU32(q, bt)
  {
    assert p[at] == p[at..at + 4][0] && p[at + 1] == p[at..at + 4][1];
    assert p[at + 2] == p[at..at + 4][2] && p[at + 3] == p[at..at + 4][3];
  }

  // ---------------------------------------------------------------- header

  function HeaderOf(p: seq<u8>): TablePageHeader
    requires |p| >= TABLE_PAGE_HEADER_SIZE
  {
    TablePageHeader(ReadU32(p, 0), ReadU32(p, 4), ReadU32(p, 8))
  }

  function EncodeHeader(h: TablePageHeader): (r: seq<u8>)
    ensures |r| == TABLE_PAGE_HEADER_SIZE && HeaderOf(r) == h
  {
    var a, b, c := EncodeU32(h.nextPageId), EncodeU32(h.tupleCnt), EncodeU32(h.deletedTupleCnt);
    var r := a + b + c + [0, 0, 0, 0];
    assert r[0..4] == a[0..4] && r[4..8] == b[0..4] && r[8..12] == c[0..4];
    ReadU32Frame(r, 0, a, 0);
    ReadU32Frame(r, 4, b, 0);
    ReadU32Frame(r, 8, c, 0);
    r
  }

  // ---------------------------------------------------------------- slot array

  /** Where slot `i`'s entry starts; `SlotOffset(n)` is also where an array of n slots ends. */
  function SlotOffset(i: nat): nat {
    TABLE_PAGE_HEADER_SIZE + TUPLE_INFO_SIZE * i
  }

  function DecodeTupleInfo(p: seq<u8>, at: nat): TupleInfo
    requires at + TUPLE_INFO_SIZE <= |p|
  {
    TupleInfo(ReadU16(p, at), ReadU16(p, at + 2), TupleMetadata(p[at + 4], p[at + 5]))
  }

  function EncodeTupleInfo(info: TupleInfo): (r: seq<u8>)
    ensures |r| == TUPLE_INFO_SIZE && DecodeTupleInfo(r, 0) == info
  {
    var a, b := EncodeU16(info.offset), EncodeU16(info.sizeBytes);
    var r := a + b + [info.metadata.isDeletedByte, info.metadata.padding];
    assert ReadU16(r, 2) == ReadU16(b, 0);
    r
  }

  /** Reading a slot entry looks only at the entry's own bytes. */
  lemma DecodeTupleInfoFrame(p: seq<u8>, at: nat, q: seq<u8>, bt: nat)
    requires at + TUPLE_INFO_SIZE <= |p| && bt + TUPLE_INFO_SIZE <= |q|
    requires p[at..at + TUPLE_INFO_SIZE] == q[bt..bt + TUPLE_INFO_SIZE]
    ensures DecodeTupleInfo(p, at) == DecodeTupleInfo(q, bt)
  {
    var s := p[at..at + TUPLE_INFO_SIZE];
    assert p[at] == s[0] && p[at + 1] == s[1] && p[at + 2] == s[2];
    assert p[at + 3] == s[3] && p[at + 4] == s[4] && p[at + 5] == s[5];
  }

  /** The page is long enough to hold its header and the slot array its header announces. */
  predicate SlotArrayFits(p: seq<u8>) {
    |p| >= TABLE_PAGE_HEADER_SIZE && SlotOffset(HeaderOf(p).tupleCnt) <= |p|
  }

  function SlotAt(p: seq<u8>, i: nat): TupleInfo
    requires SlotArrayFits(p) && i < HeaderOf(p).tupleCnt
  {
    DecodeTupleInfo(p, SlotOffset(i))
  }

  /** The first `n` slot entries, decoded from the bytes right after the header. */
  function SlotsOf(p: seq<u8>, n: nat): (slots: seq<TupleInfo>)
    requires SlotOffset(n) <= |p|
    ensures |slots| == n
    ensures forall i :: 0 <= i < n ==> slots[i] == DecodeTupleInfo(p, SlotOffset(i))
  {
    seq(n, i requires 0 <= i < n => DecodeTupleInfo(p, SlotOffset(i)))
  }

  /** The slot array: exactly `tupleCnt` entries. */
  function SlotArrayOf(p: seq<u8>): (slots: seq<TupleInfo>)
    requires SlotArrayFits(p)
  {
    SlotsOf(p, HeaderOf(p).tupleCnt)
  }

  /** Fewer entries read from the same bytes are a prefix of more. */
  lemma SlotsOfPrefix(p: seq<u8>, n: nat, m: nat)
    requires n <= m && SlotOffset(m) <= |p|
    ensures SlotsOf(p, m)[..n] == SlotsOf(p, n)
  {
  }

  /** A slice of a slice is a slice of the original. */
  lemma SubSlice(p: seq<u8>, lo: nat, hi: nat, a: nat, b: nat)
    requires lo <= a <= b <= hi <= |p|
    ensures p[a..b] == p[lo..hi][a - lo..b - lo]
  {
    forall k | 0 <= k < b - a
      ensures p[a..b][k] == p[lo..hi][a - lo..b - lo][k]
    {
      assert p[lo..hi][a - lo..b - lo][k] == p[lo..hi][a - lo + k];
    }
  }

  /** Two images whose slot-array bytes agree up to entry `n` decode the same first `n` slots. */
  lemma SlotsOfFrame(p: seq<u8>, q: seq<u8>, n: nat)
    requires SlotOffset(n) <= |p| && SlotOffset(n) <= |q|
    requires p[TABLE_PAGE_HEADER_SIZE..SlotOffset(n)] == q[TABLE_PAGE_HEADER_SIZE..SlotOffset(n)]
    ensures SlotsOf(p, n) == SlotsOf(q, n)
  {
    forall i | 0 <= i < n
      ensures SlotsOf(p, n)[i] == SlotsOf(q, n)[i]
    {
      var at := SlotOffset(i);
      SubSlice(p, TABLE_PAGE_HEADER_SIZE, SlotOffset(n), at, at + TUPLE_INFO_SIZE);
      SubSlice(q, TABLE_PAGE_HEADER_SIZE, SlotOffset(n), at, at + TUPLE_INFO_SIZE);
      DecodeTupleInfoFrame(p, at, q, at);
    }
  }

  /** Two images whose slot-array bytes agree up to entry `n` agree on their first `n` slots. */
  lemma SlotArrayPrefix(p: seq<u8>, q: seq<u8>, n: nat)
    requires SlotArrayFits(p) && SlotArrayFits(q)
    requires n <= HeaderOf(p).tupleCnt && n <= HeaderOf(q).tupleCnt
    requires p[TABLE_PAGE_HEADER_SIZE..SlotOffset(n)] == q[TABLE_PAGE_HEADER_SIZE..SlotOffset(n)]
    ensures SlotArrayOf(p)[..n] == SlotArrayOf(q)[..n]
  {
    SlotsOfPrefix(p, n, HeaderOf(p).tupleCnt);
    SlotsOfPrefix(q, n, HeaderOf(q).tupleCnt);
    SlotsOfFrame(p, q, n);
  }

  // ---------------------------------------------------------------- reads

  /** Slot `slot` exists and its tuple's bytes lie inside the page, so reading it cannot fail. */
  predicate Readable(p: seq<u8>, slot: nat) {
    && SlotArrayFits(p)
    && slot < HeaderOf(p).tupleCnt
    && SlotAt(p, slot).offset + SlotAt(p, slot).sizeBytes <= |p|
  }

  /** The metadata of the record's slot and a copy of its tuple bytes; the page id is not consulted. */
  function GetTuple(p: seq<u8>, rid: RecordId): Result<(TupleMetadata, seq<u8>), Error>
    requires Readable(p, rid.slotId)
  {
    var info := SlotAt(p, rid.slotId);
    Ok((info.metadata, p[info.offset..info.offset + info.sizeBytes]))
  }

  /** Where free space ends: the offset of the last slot's tuple, or the end of an empty page. */
  function FreeSpaceEnd(slots: seq<TupleInfo>): nat {
    if |slots| == 0 then PAGE_SIZE else slots[|slots| - 1].offset
  }

  /**
   * The next offset can be computed without an arithmetic overflow: on an empty page the
   * tuple is at most a page long, otherwise its size (truncated to 16 bits) does not exceed
   * the last slot's offset.
   */
  predicate NextOffsetDefined(p: seq<u8>, size: nat) {
    && SlotArrayFits(p)
    && (HeaderOf(p).tupleCnt == 0 ==> size <= PAGE_SIZE)
    && (HeaderOf(p).tupleCnt > 0 ==> size % 0x1_0000 <= SlotAt(p, HeaderOf(p).tupleCnt - 1).offset)
  }

  /** Placement rule: a new tuple of `size` bytes goes immediately below the free-space end. */
  function NextTupleOffset(p: seq<u8>, size: nat): (offset: u16)
    requires NextOffsetDefined(p, size)
    ensures size < 0x1_0000 ==> offset + size == FreeSpaceEnd(SlotArrayOf(p))
  {
    var numTuples := HeaderOf(p).tupleCnt;
    if numTuples == 0 then PAGE_SIZE - size
    else SlotAt(p, numTuples - 1).offset - size % 0x1_0000
  }

  function ValidateRecordId(pageId: PageId, p: seq<u8>, rid: RecordId): (r: Result<(), Error>)
    requires |p| >= TABLE_PAGE_HEADER_SIZE
  {
    if rid.pageId != pageId || rid.slotId >= HeaderOf(p).tupleCnt then Err(InvalidInput(rid)) else Ok(())
  }

  // ---------------------------------------------------------------- writes, as page images

  function InitHeaderImage(p: seq<u8>, nextPageId: PageId): (r: seq<u8>)
    requires |p| == PAGE_SIZE
    ensures |r| == PAGE_SIZE && HeaderOf(r) == TablePageHeader(nextPageId, 0, 0)
  {
    var r := Splice(p, 0, EncodeHeader(TablePageHeader(nextPageId, 0, 0)));
    assert r[..TABLE_PAGE_HEADER_SIZE] == EncodeHeader(TablePageHeader(nextPageId, 0, 0));
    HeaderFrame(r, EncodeHeader(TablePageHeader(nextPageId, 0, 0)));
    r
  }

  function SetNextPageIdImage(p: seq<u8>, nextPageId: PageId): (r: seq<u8>)
    requires |p| == PAGE_SIZE
    ensures |r| == PAGE_SIZE && HeaderOf(r) == HeaderOf(p).(nextPageId := nextPageId)
    ensures r[4..] == p[4..]
  {
    var r := Splice(p, 0, EncodeU32(nextPageId));
    assert r[0..4] == EncodeU32(nextPageId)[0..4];
    ReadU32Frame(r, 0, EncodeU32(nextPageId), 0);
    assert r[4..8] == p[4..8] && r[8..12] == p[8..12];
    ReadU32Frame(r, 4, p, 4);
    ReadU32Frame(r, 8, p, 8);
    r
  }

  function SetTupleCountImage(p: seq<u8>, tupleCount: u32): (r: seq<u8>)
    requires |p| == PAGE_SIZE
    ensures |r| == PAGE_SIZE && HeaderOf(r) == HeaderOf(p).(tupleCnt := tupleCount)
    ensures r[..4] == p[..4] && r[8..] == p[8..]
  {
    var r := Splice(p, 4, EncodeU32(tupleCount));
    assert r[4..8] == EncodeU32(tupleCount)[0..4];
    ReadU32Frame(r, 4, EncodeU32(tupleCount), 0);
    assert r[0..4] == p[0..4] && r[8..12] == p[8..12];
    ReadU32Frame(r, 0, p, 0);
    ReadU32Frame(r, 8, p, 8);
    r
  }

  /** The header is read from the first 16 bytes only. */
  lemma HeaderFrame(p: seq<u8>, q: seq<u8>)
    requires |p| >= TABLE_PAGE_HEADER_SIZE && |q| >= TABLE_PAGE_HEADER_SIZE
    requires p[..TABLE_PAGE_HEADER_SIZE] == q[..TABLE_PAGE_HEADER_SIZE]
    ensures HeaderOf(p) == HeaderOf(q)
  {
    assert p[0..4] == q[0..4] && p[4..8] == q[4..8] && p[8..12] == q[8..12];
    ReadU32Frame(p, 0, q, 0);
    ReadU32Frame(p, 4, q, 4);
    ReadU32Frame(p, 8, q, 8);
  }

  /**
   * `insert_tuple` runs without a panic: the next offset is computed without overflow, the
   * grown slot array still lies inside the page, and so do the tuple's bytes. Nothing here
   * says the new slot entry and the new tuple stay apart.
   */
  predicate InsertDefined(p: seq<u8>, size: nat) {
    && |p| == PAGE_SIZE
    && NextOffsetDefined(p, size)
    && SlotOffset(HeaderOf(p).tupleCnt + 1) <= PAGE_SIZE
    && NextTupleOffset(p, size) + size <= PAGE_SIZE
  }

  /**
   * The page after `insert_tuple`, as written: the tuple count is incremented, the new slot
   * entry is written, and then the tuple's bytes are copied to the next offset.
   */
  function InsertImage(p: seq<u8>, meta: TupleMetadata, tuple: seq<u8>): (r: seq<u8>)
    requires InsertDefined(p, |tuple|)
    ensures |r| == PAGE_SIZE
  {
    var cnt := HeaderOf(p).tupleCnt;
    var offset := NextTupleOffset(p, |tuple|);
    var p1 := Splice(p, 4, EncodeU32(cnt + 1));
    var p2 := Splice(p1, SlotOffset(cnt), EncodeTupleInfo(TupleInfo(offset, |tuple|, meta)));
    Splice(p2, offset, tuple)
  }

  /** There is room for a tuple of `size` bytes between the grown slot array and the tuples. */
  predicate Fits(p: seq<u8>, size: nat) {
    SlotArrayFits(p) && SlotOffset(HeaderOf(p).tupleCnt + 1) + size <= FreeSpaceEnd(SlotArrayOf(p))
  }

  /**
   * Tuple regions are contiguous: each slot's tuple ends exactly where the previous slot's
   * tuple starts, the first one at the end of the page.
   */
  ghost predicate Contiguous(slots: seq<TupleInfo>) {
    |slots| == 0 ||
      var init := slots[..|slots| - 1];
      Contiguous(init) && slots[|slots| - 1].offset + slots[|slots| - 1].sizeBytes == FreeSpaceEnd(init)
  }

  /** The page layout the placement rule maintains: contiguous tuples above the slot array. */
  ghost predicate Packed(p: seq<u8>) {
    && |p| == PAGE_SIZE
    && SlotArrayFits(p)
    && Contiguous(SlotArrayOf(p))
    && SlotOffset(HeaderOf(p).tupleCnt) <= FreeSpaceEnd(SlotArrayOf(p))
  }

  // ---------------------------------------------------------------- properties

  /**
   * In contiguous slots every tuple lies between the free-space end and the end of the page,
   * and a later slot's tuple ends at or below the start of every earlier one: the regions
   * are disjoint.
   */
  lemma {:induction false} ContiguousRegions(slots: seq<TupleInfo>, i: nat)
    requires Contiguous(slots) && i < |slots|
    ensures FreeSpaceEnd(slots) <= slots[i].offset
    ensures slots[i].offset + slots[i].sizeBytes <= PAGE_SIZE
    ensures forall j :: i < j < |slots| ==> slots[j].offset + slots[j].sizeBytes <= slots[i].offset
    decreases |slots|
  {
    var n := |slots| - 1;
    var init := slots[..n];
    if i < n {
      ContiguousRegions(init, i);
      ContiguousRegions(init, n - 1);
      assert init[i] == slots[i];
      forall j | i < j < |slots|
        ensures slots[j].offset + slots[j].sizeBytes <= slots[i].offset
      {
        if j < n {
          assert init[j] == slots[j];
        }
      }
    } else if n > 0 {
      ContiguousRegions(init, n - 1);
    }
  }

  /** The free-space end of a contiguous slot array never passes the end of the page. */
  lemma FreeSpaceEndBound(slots: seq<TupleInfo>)
    requires Contiguous(slots)
    ensures FreeSpaceEnd(slots) <= PAGE_SIZE
  {
    if |slots| > 0 {
      ContiguousRegions(slots, |slots| - 1);
    }
  }

  /** On a packed page every slot can be read. */
  lemma PackedReadable(p: seq<u8>, slot: nat)
    requires Packed(p) && slot < HeaderOf(p).tupleCnt
    ensures Readable(p, slot)
    ensures SlotOffset(HeaderOf(p).tupleCnt) <= SlotArrayOf(p)[slot].offset
  {
    ContiguousRegions(SlotArrayOf(p), slot);
  }

  /** On a packed page a tuple that fits can be inserted, and it lands right below the free-space end. */
  lemma PackedFitsDefined(p: seq<u8>, size: nat)
    requires Packed(p) && Fits(p, size)
    ensures InsertDefined(p, size)
    ensures NextTupleOffset(p, size) == FreeSpaceEnd(SlotArrayOf(p)) - size
  {
    FreeSpaceEndBound(SlotArrayOf(p));
    var cnt := HeaderOf(p).tupleCnt;
    if cnt > 0 {
      assert SlotArrayOf(p)[cnt - 1] == SlotAt(p, cnt - 1);
    }
  }

  /** Bytes outside the spliced range keep their value. */
  lemma SpliceOutside(p: seq<u8>, at: nat, bytes: seq<u8>, lo: nat, hi: nat)
    requires at + |bytes| <= |p| && lo <= hi <= |p|
    requires hi <= at || at + |bytes| <= lo
    ensures Splice(p, at, bytes)[lo..hi] == p[lo..hi]
  {
    if hi <= at {
      assert Splice(p, at, bytes)[lo..hi] == p[..at][lo..hi];
    } else {
      assert Splice(p, at, bytes)[lo..hi] == p[at + |bytes|..][lo - at - |bytes|..hi - at - |bytes|];
    }
  }

  /** The spliced range holds the new bytes. */
  lemma SpliceInside(p: seq<u8>, at: nat, bytes: seq<u8>)
    requires at + |bytes| <= |p|
    ensures Splice(p, at, bytes)[at..at + |bytes|] == bytes
  {
    assert Splice(p, at, bytes)[at..at + |bytes|] == (p[..at] + bytes)[at..];
  }

  /** The new slot entry stays below the new tuple's bytes. */
  predicate NewSlotBelowTuple(p: seq<u8>, size: nat)
    requires InsertDefined(p, size)
  {
    SlotOffset(HeaderOf(p).tupleCnt + 1) <= NextTupleOffset(p, size)
  }

  /** The slot entry `insert_tuple` writes. */
  function NewTupleInfo(p: seq<u8>, meta: TupleMetadata, tuple: seq<u8>): TupleInfo
    requires InsertDefined(p, |tuple|)
  {
    TupleInfo(NextTupleOffset(p, |tuple|), |tuple|, meta)
  }

  /** Bytes in `[lo, hi)`, clear of the three writes of an insert, are left as they were. */
  lemma InsertOutside(p: seq<u8>, meta: TupleMetadata, tuple: seq<u8>, lo: nat, hi: nat)
    requires InsertDefined(p, |tuple|) && lo <= hi <= PAGE_SIZE
    requires hi <= 4 || 8 <= lo
    requires hi <= SlotOffset(HeaderOf(p).tupleCnt) || SlotOffset(HeaderOf(p).tupleCnt + 1) <= lo
    requires hi <= NextTupleOffset(p, |tuple|) || NextTupleOffset(p, |tuple|) + |tuple| <= lo
    ensures InsertImage(p, meta, tuple)[lo..hi] == p[lo..hi]
  {
    var cnt, offset := HeaderOf(p).tupleCnt, NextTupleOffset(p, |tuple|);
    var p1 := Splice(p, 4, EncodeU32(cnt + 1));
    var p2 := Splice(p1, SlotOffset(cnt), EncodeTupleInfo(NewTupleInfo(p, meta, tuple)));
    SpliceOutside(p, 4, EncodeU32(cnt + 1), lo, hi);
    SpliceOutside(p1, SlotOffset(cnt), EncodeTupleInfo(NewTupleInfo(p, meta, tuple)), lo, hi);
    SpliceOutside(p2, offset, tuple, lo, hi);
  }

  /** After an insert whose slot entry stays below the tuple, the header holds the incremented count. */
  lemma InsertHeader(p: seq<u8>, meta: TupleMetadata, tuple: seq<u8>)
    requires InsertDefined(p, |tuple|) && NewSlotBelowTuple(p, |tuple|)
    ensures HeaderOf(InsertImage(p, meta, tuple)) == HeaderOf(p).(tupleCnt := HeaderOf(p).tupleCnt + 1)
  {
    var cnt, offset := HeaderOf(p).tupleCnt, NextTupleOffset(p, |tuple|);
    var p1 := Splice(p, 4, EncodeU32(cnt + 1));
    assert p1 == SetTupleCountImage(p, cnt + 1);
    var p2 := Splice(p1, SlotOffset(cnt), EncodeTupleInfo(NewTupleInfo(p, meta, tuple)));
    SpliceOutside(p1, SlotOffset(cnt), EncodeTupleInfo(NewTupleInfo(p, meta, tuple)), 0, TABLE_PAGE_HEADER_SIZE);
    SpliceOutside(p2, offset, tuple, 0, TABLE_PAGE_HEADER_SIZE);
    HeaderFrame(InsertImage(p, meta, tuple), p1);
  }

  /** After such an insert, the new slot entry and the new tuple's bytes read back as written. */
  lemma InsertNewEntry(p: seq<u8>, meta: TupleMetadata, tuple: seq<u8>)
    requires InsertDefined(p, |tuple|) && NewSlotBelowTuple(p, |tuple|)
    ensures var img, at := InsertImage(p, meta, tuple), SlotOffset(HeaderOf(p).tupleCnt);
      && DecodeTupleInfo(img, at) == NewTupleInfo(p, meta, tuple)
      && img[NextTupleOffset(p, |tuple|)..NextTupleOffset(p, |tuple|) + |tuple|] == tuple
  {
    var cnt, offset := HeaderOf(p).tupleCnt, NextTupleOffset(p, |tuple|);
    var e := EncodeTupleInfo(NewTupleInfo(p, meta, tuple));
    var p1 := Splice(p, 4, EncodeU32(cnt + 1));
    var p2 := Splice(p1, SlotOffset(cnt), e);
    var img := Splice(p2, offset, tuple);
    assert img == InsertImage(p, meta, tuple);
    SpliceInside(p1, SlotOffset(cnt), e);
    SpliceOutside(p2, offset, tuple, SlotOffset(cnt), SlotOffset(cnt + 1));
    assert e[0..TUPLE_INFO_SIZE] == e;
    DecodeTupleInfoFrame(img, SlotOffset(cnt), e, 0);
    SpliceInside(p2, offset, tuple);
  }

  /**
   * Inserting into a page where the new slot entry stays below the new tuple: the count
   * grows by one, the slot array gains exactly the new entry at its end, and reading the
   * returned slot gives back the metadata and the bytes that were inserted.
   */
  lemma InsertRoundTrip(p: seq<u8>, meta: TupleMetadata, tuple: seq<u8>, pageId: PageId)
    requires InsertDefined(p, |tuple|) && NewSlotBelowTuple(p, |tuple|)
    ensures var img, cnt := InsertImage(p, meta, tuple), HeaderOf(p).tupleCnt;
      && HeaderOf(img) == HeaderOf(p).(tupleCnt := cnt + 1)
      && SlotArrayFits(img)
      && SlotArrayOf(img) == SlotArrayOf(p) + [NewTupleInfo(p, meta, tuple)]
      && Readable(img, cnt)
      && GetTuple(img, RecordId(pageId, cnt)) == Ok((meta, tuple))
  {
    var cnt := HeaderOf(p).tupleCnt;
    var img := InsertImage(p, meta, tuple);
    InsertHeader(p, meta, tuple);
    InsertNewEntry(p, meta, tuple);
    InsertOutside(p, meta, tuple, TABLE_PAGE_HEADER_SIZE, SlotOffset(cnt));
    SlotArrayPrefix(img, p, cnt);
    SlotArraySnoc(img, NewTupleInfo(p, meta, tuple));
  }

  /** A slot array is its first entries followed by its last one. */
  lemma SlotArraySnoc(p: seq<u8>, info: TupleInfo)
    requires SlotArrayFits(p) && HeaderOf(p).tupleCnt > 0
    requires DecodeTupleInfo(p, SlotOffset(HeaderOf(p).tupleCnt - 1)) == info
    ensures SlotArrayOf(p) == SlotArrayOf(p)[..HeaderOf(p).tupleCnt - 1] + [info]
  {
  }

  /** On a packed page, inserting a tuple that fits leaves every earlier tuple readable and unchanged. */
  lemma InsertKeepsOldTuples(p: seq<u8>, meta: TupleMetadata, tuple: seq<u8>, rid: RecordId)
    requires Packed(p) && Fits(p, |tuple|) && rid.slotId < HeaderOf(p).tupleCnt
    ensures InsertDefined(p, |tuple|)
    ensures Readable(p, rid.slotId) && Readable(InsertImage(p, meta, tuple), rid.slotId)
    ensures GetTuple(InsertImage(p, meta, tuple), rid) == GetTuple(p, rid)
  {
    PackedFitsDefined(p, |tuple|);
    PackedReadable(p, rid.slotId);
    ContiguousRegions(SlotArrayOf(p), rid.slotId);
    InsertAbove(p, meta, tuple, rid);
  }

  /** An insert whose new tuple ends at or below an existing tuple leaves that tuple as it was. */
  lemma InsertAbove(p: seq<u8>, meta: TupleMetadata, tuple: seq<u8>, rid: RecordId)
    requires InsertDefined(p, |tuple|) && NewSlotBelowTuple(p, |tuple|) && Readable(p, rid.slotId)
    requires NextTupleOffset(p, |tuple|) + |tuple| <= SlotArrayOf(p)[rid.slotId].offset
    ensures Readable(InsertImage(p, meta, tuple), rid.slotId)
    ensures GetTuple(InsertImage(p, meta, tuple), rid) == GetTuple(p, rid)
  {
    InsertRoundTrip(p, meta, tuple, rid.pageId);
    var img := InsertImage(p, meta, tuple);
    var info := SlotArrayOf(p)[rid.slotId];
    assert SlotArrayOf(img)[rid.slotId] == info;
    InsertOutside(p, meta, tuple, info.offset, info.offset + info.sizeBytes);
    TupleKept(p, img, rid);
  }

  /**
   * A tuple reads the same from an image with the same slot entry and the same bytes in
   * the entry's range.
   */
  lemma TupleKept(p: seq<u8>, q: seq<u8>, rid: RecordId)
    requires Readable(p, rid.slotId) && |q| == |p| && SlotArrayFits(q)
    requires rid.slotId < HeaderOf(q).tupleCnt && SlotArrayOf(q)[rid.slotId] == SlotArrayOf(p)[rid.slotId]
    requires var info := SlotArrayOf(p)[rid.slotId];
      q[info.offset..info.offset + info.sizeBytes] == p[info.offset..info.offset + info.sizeBytes]
    ensures Readable(q, rid.slotId) && GetTuple(q, rid) == GetTuple(p, rid)
  {
  }

  /** Inserting a tuple that fits keeps a packed page packed, with the free space shrunk by the tuple. */
  lemma InsertKeepsPacked(p: seq<u8>, meta: TupleMetadata, tuple: seq<u8>)
    requires Packed(p) && Fits(p, |tuple|)
    ensures InsertDefined(p, |tuple|)
    ensures Packed(InsertImage(p, meta, tuple))
    ensures FreeSpaceEnd(SlotArrayOf(InsertImage(p, meta, tuple))) == FreeSpaceEnd(SlotArrayOf(p)) - |tuple|
  {
    PackedFitsDefined(p, |tuple|);
    InsertRoundTrip(p, meta, tuple, 0);
    var info := NewTupleInfo(p, meta, tuple);
    ContiguousSnoc(SlotArrayOf(p), info);
    var img := InsertImage(p, meta, tuple);
    assert SlotArrayOf(img) == SlotArrayOf(p) + [info];
  }

  /** Appending a slot whose tuple ends at the free-space end keeps the slots contiguous. */
  lemma ContiguousSnoc(slots: seq<TupleInfo>, info: TupleInfo)
    requires Contiguous(slots) && info.offset + info.sizeBytes == FreeSpaceEnd(slots)
    ensures Contiguous(slots + [info]) && FreeSpaceEnd(slots + [info]) == info.offset
  {
    assert (slots + [info])[..|slots|] == slots;
  }

  /** A freshly initialised page is packed and holds no slots. */
  lemma InitHeaderPacked(p: seq<u8>, nextPageId: PageId)
    requires |p| == PAGE_SIZE
    ensures Packed(InitHeaderImage(p, nextPageId)) && SlotArrayOf(InitHeaderImage(p, nextPageId)) == []
  {
  }

  /**
   * Changing the tuple count changes only how many slot entries are read: the entries both
   * lengths cover are the same.
   */
  lemma SetTupleCountKeepsSlots(p: seq<u8>, tupleCount: u32)
    requires |p| == PAGE_SIZE && SlotArrayFits(p) && SlotOffset(tupleCount) <= PAGE_SIZE
    ensures var q, cnt := SetTupleCountImage(p, tupleCount), HeaderOf(p).tupleCnt;
      && SlotArrayFits(q)
      && (tupleCount <= cnt ==> SlotArrayOf(q) == SlotArrayOf(p)[..tupleCount])
      && (cnt <= tupleCount ==> SlotArrayOf(q)[..cnt] == SlotArrayOf(p))
  {
    var q, cnt := SetTupleCountImage(p, tupleCount), HeaderOf(p).tupleCnt;
    var m := if tupleCount <= cnt then tupleCount else cnt;
    assert q[TABLE_PAGE_HEADER_SIZE..SlotOffset(m)] == q[8..][8..SlotOffset(m) - 8];
    assert p[TABLE_PAGE_HEADER_SIZE..SlotOffset(m)] == p[8..][8..SlotOffset(m) - 8];
    SlotArrayPrefix(q, p, m);
    assert SlotArrayOf(p)[..cnt] == SlotArrayOf(p);
    assert SlotArrayOf(q)[..tupleCount] == SlotArrayOf(q);
  }

  /** The page with slot `i`'s entry overwritten by `e`. */
  function WriteSlotImage(p: seq<u8>, i: nat, e: TupleInfo): (r: seq<u8>)
    requires SlotArrayFits(p) && i < HeaderOf(p).tupleCnt
    ensures |r| == |p|
  {
    Splice(p, SlotOffset(i), EncodeTupleInfo(e))
  }

  /** After slot `i`'s entry is overwritten, entry `i` reads `e` and every other entry reads as before. */
  lemma WriteSlotEntryAt(p: seq<u8>, i: nat, e: TupleInfo, j: nat)
    requires SlotArrayFits(p) && i < HeaderOf(p).tupleCnt && j < HeaderOf(p).tupleCnt
    ensures DecodeTupleInfo(WriteSlotImage(p, i, e), SlotOffset(j))
      == if j == i then e else DecodeTupleInfo(p, SlotOffset(j))
  {
    var q, enc := WriteSlotImage(p, i, e), EncodeTupleInfo(e);
    if j == i {
      SpliceInside(p, SlotOffset(i), enc);
      assert enc[0..TUPLE_INFO_SIZE] == enc;
      DecodeTupleInfoFrame(q, SlotOffset(i), enc, 0);
    } else {
      SpliceOutside(p, SlotOffset(i), enc, SlotOffset(j), SlotOffset(j) + TUPLE_INFO_SIZE);
      DecodeTupleInfoFrame(q, SlotOffset(j), p, SlotOffset(j));
    }
  }

  /**
   * Writing an encoded entry into slot `i` of the slot array is an update of that one entry:
   * the header is kept, and the decoded slot array is the old one with entry `i` replaced.
   */
  lemma WriteSlotEntry(p: seq<u8>, i: nat, e: TupleInfo)
    requires SlotArrayFits(p) && i < HeaderOf(p).tupleCnt
    ensures var q := WriteSlotImage(p, i, e);
      && HeaderOf(q) == HeaderOf(p) && SlotArrayFits(q)
      && SlotArrayOf(q) == SlotArrayOf(p)[i := e]
  {
    var q := WriteSlotImage(p, i, e);
    SpliceOutside(p, SlotOffset(i), EncodeTupleInfo(e), 0, TABLE_PAGE_HEADER_SIZE);
    assert q[..TABLE_PAGE_HEADER_SIZE] == q[0..TABLE_PAGE_HEADER_SIZE];
    HeaderFrame(q, p);
    forall j | 0 <= j < HeaderOf(p).tupleCnt
      ensures SlotArrayOf(q)[j] == SlotArrayOf(p)[i := e][j]
    {
      WriteSlotEntryAt(p, i, e, j);
    }
  }

  /** Setting the next page id leaves the slots, the layout and every tuple of a packed page alone. */
  lemma SetNextPageIdKeepsTuples(p: seq<u8>, nextPageId: PageId, rid: RecordId)
    requires Packed(p)
    ensures var q := SetNextPageIdImage(p, nextPageId);
      && Packed(q) && SlotArrayOf(q) == SlotArrayOf(p)
      && (rid.slotId < HeaderOf(p).tupleCnt ==>
            Readable(p, rid.slotId) && Readable(q, rid.slotId) && GetTuple(q, rid) == GetTuple(p, rid))
  {
    var q, cnt := SetNextPageIdImage(p, nextPageId), HeaderOf(p).tupleCnt;
    BodyUnchanged(p, q);
    if rid.slotId < cnt {
      PackedReadable(p, rid.slotId);
      BodyUnchangedTuple(p, q, rid);
    }
  }

  /** Two images that differ only in the first 4 bytes have the same slot array. */
  lemma BodyUnchanged(p: seq<u8>, q: seq<u8>)
    requires SlotArrayFits(p) && |q| == |p| && q[4..] == p[4..]
    requires HeaderOf(q).tupleCnt == HeaderOf(p).tupleCnt
    ensures SlotArrayFits(q) && SlotArrayOf(q) == SlotArrayOf(p)
  {
    var cnt := HeaderOf(p).tupleCnt;
    TailFrame(p, q, 4, TABLE_PAGE_HEADER_SIZE, SlotOffset(cnt));
    SlotsOfFrame(q, p, cnt);
  }

  /** ... and the same tuples wherever a tuple lies past the header. */
  lemma BodyUnchangedTuple(p: seq<u8>, q: seq<u8>, rid: RecordId)
    requires Readable(p, rid.slotId) && |q| == |p| && q[4..] == p[4..]
    requires SlotArrayFits(q) && SlotArrayOf(q) == SlotArrayOf(p)
    requires TABLE_PAGE_HEADER_SIZE <= SlotArrayOf(p)[rid.slotId].offset
    ensures Readable(q, rid.slotId) && GetTuple(q, rid) == GetTuple(p, rid)
  {
    var info := SlotArrayOf(p)[rid.slotId];
    TailFrame(p, q, 4, info.offset, info.offset + info.sizeBytes);
    TupleKept(p, q, rid);
  }

  /** Two images that agree from byte `from` on agree on every range starting there. */
  lemma TailFrame(p: seq<u8>, q: seq<u8>, from: nat, lo: nat, hi: nat)
    requires from <= lo <= hi <= |p| == |q| && p[from..] == q[from..]
    ensures p[lo..hi] == q[lo..hi]
  {
    forall i | lo <= i < hi
      ensures p[i] == q[i]
    {
      assert p[i] == p[from..][i - from];
    }
    assert p[lo..hi] == q[lo..hi];
  }

  /** On a packed page a record id passes validation exactly when it names this page and one of its slots. */
  lemma ValidateRecordIdReadable(pageId: PageId, p: seq<u8>, rid: RecordId)
    requires Packed(p)
    ensures ValidateRecordId(pageId, p, rid).Ok? <==> rid.pageId == pageId && Readable(p, rid.slotId)
    ensures ValidateRecordId(pageId, p, rid).Err? ==> ValidateRecordId(pageId, p, rid).error == InvalidInput(rid)
  {
    if rid.slotId < HeaderOf(p).tupleCnt {
      PackedReadable(p, rid.slotId);
    }
  }

  // ---------------------------------------------------------------- the page object

  /**
   * A table page over a buffer-pool frame: the frame's page id and its byte array. Reads
   * are the decoders above applied to `data[..]`; every write is specified by the image it
   * produces.
   */
  class TablePage {
    const pageId: PageId
    const data: array<u8>

    ghost predicate Valid() {
      data.Length == PAGE_SIZE
    }

    constructor (pageId: PageId, data: array<u8>)
      requires data.Length == PAGE_SIZE
      ensures Valid() && this.pageId == pageId && this.data == data
    {
      this.pageId := pageId;
      this.data := data;
    }

    /** Copies `bytes` into the buffer starting at `at`. */
    method WriteBytes(at: nat, bytes: seq<u8>)
      requires Valid() && at + |bytes| <= PAGE_SIZE
      modifies data
      ensures data[..] == Splice(old(data[..]), at, bytes)
    {
      forall i | at <= i < at + |bytes| {
        data[i] := bytes[i - at];
      }
      assert data[..] == Splice(old(data[..]), at, bytes);
    }

    method InitHeader(nextPageId: PageId)
      requires Valid()
      modifies data
      ensures data[..] == InitHeaderImage(old(data[..]), nextPageId)
      ensures HeaderOf(data[..]) == TablePageHeader(nextPageId, 0, 0)
      ensures Packed(data[..]) && SlotArrayOf(data[..]) == []
    {
      WriteBytes(0, EncodeHeader(TablePageHeader(nextPageId, 0, 0)));
      InitHeaderPacked(old(data[..]), nextPageId);
    }

    method SetNextPageId(nextPageId: PageId)
      requires Valid()
      modifies data
      ensures data[..] == SetNextPageIdImage(old(data[..]), nextPageId)
      ensures HeaderOf(data[..]) == HeaderOf(old(data[..])).(nextPageId := nextPageId)
    {
      WriteBytes(0, EncodeU32(nextPageId));
    }

    method SetTupleCount(tupleCount: u32)
      requires Valid()
      modifies data
      ensures data[..] == SetTupleCountImage(old(data[..]), tupleCount)
      ensures HeaderOf(data[..]) == HeaderOf(old(data[..])).(tupleCnt := tupleCount)
    {
      WriteBytes(4, EncodeU32(tupleCount));
    }

    /** Assigning a whole entry of the mutable slot array: slot `i`'s entry becomes `e`, nothing else changes. */
    method SetSlot(i: nat, e: TupleInfo)
      requires Valid() && SlotArrayFits(data[..]) && i < HeaderOf(data[..]).tupleCnt
      modifies data
      ensures data[..] == WriteSlotImage(old(data[..]), i, e)
      ensures HeaderOf(data[..]) == HeaderOf(old(data[..]))
      ensures SlotArrayFits(data[..]) && SlotArrayOf(data[..]) == SlotArrayOf(old(data[..]))[i := e]
    {
      WriteSlotEntry(data[..], i, e);
      WriteBytes(SlotOffset(i), EncodeTupleInfo(e));
    }

    /**
     * `insert_tuple` as written: it places the tuple by the placement rule, bumps the count,
     * writes the slot entry and copies the bytes, without checking that they fit. It never
     * returns an error; the cases where it would panic are excluded by `InsertDefined`.
     */
    method InsertTuple(meta: TupleMetadata, tuple: seq<u8>) returns (r: Result<RecordId, Error>)
      requires Valid() && InsertDefined(data[..], |tuple|)
      modifies data
      ensures r == Ok(RecordId(pageId, HeaderOf(old(data[..])).tupleCnt))
      ensures data[..] == InsertImage(old(data[..]), meta, tuple)
    {
      var offset := NextTupleOffset(data[..], |tuple|);
      var tupleCnt := HeaderOf(data[..]).tupleCnt + 1;
      WriteBytes(4, EncodeU32(tupleCnt));
      WriteBytes(SlotOffset(tupleCnt - 1), EncodeTupleInfo(TupleInfo(offset, |tuple|, meta)));
      WriteBytes(offset as nat, tuple);
      r := Ok(RecordId(pageId, tupleCnt - 1));
    }

    /**
     * `insert_tuple` with the free-space check it lacks: on a packed page it reports
     * `OutOfSpace` and leaves the page alone exactly when the slot entry and the tuple do not
     * both fit; otherwise it performs the insert.
     */
    method InsertTupleChecked(meta: TupleMetadata, tuple: seq<u8>) returns (r: Result<RecordId, Error>)
      requires Valid() && Packed(data[..])
      modifies data
      ensures r.Err? <==> !Fits(old(data[..]), |tuple|)
      ensures r.Err? ==> r.error == OutOfSpace && data[..] == old(data[..])
      ensures r.Ok? ==>
                && InsertDefined(old(data[..]), |tuple|)
                && r.value == RecordId(pageId, HeaderOf(old(data[..])).tupleCnt)
                && data[..] == InsertImage(old(data[..]), meta, tuple)
      ensures Packed(data[..])
    {
      if !Fits(data[..], |tuple|) {
        return Err(OutOfSpace);
      }
      InsertKeepsPacked(data[..], meta, tuple);
      r := InsertTuple(meta, tuple);
    }

    /**
     * `update_tuple_metadata` as written: it reads the slot entry into a local copy and
     * sets the flag on the copy, so the page is never written.
     */
    method UpdateTupleMetadata(rid: RecordId, metadata: TupleMetadata) returns (r: Result<(), Error>)
      requires Valid() && SlotArrayFits(data[..]) && rid.slotId < HeaderOf(data[..]).tupleCnt
      ensures r == Ok(())
    {
      var tupleInfo := SlotAt(data[..], rid.slotId);
      tupleInfo := tupleInfo.(metadata := tupleInfo.metadata.SetDeleted(metadata.IsDeleted()));
      r := Ok(());
    }

    /** `update_tuple_metadata` as intended: the slot entry's deleted flag is written to the page. */
    method SetTupleMetadata(rid: RecordId, metadata: TupleMetadata) returns (r: Result<(), Error>)
      requires Valid() && SlotArrayFits(data[..]) && rid.slotId < HeaderOf(data[..]).tupleCnt
      modifies data
      ensures r == Ok(())
      ensures data[..] == SetTupleMetadataImage(old(data[..]), rid.slotId, metadata.IsDeleted())
    {
      WriteBytes(SlotOffset(rid.slotId) + 4, [if metadata.IsDeleted() then 1 else 0]);
      r := Ok(());
    }
  }

  /** The page with slot `slot`'s deleted byte set from `deleted`. */
  function SetTupleMetadataImage(p: seq<u8>, slot: nat, deleted: bool): (r: seq<u8>)
    requires SlotArrayFits(p) && slot < HeaderOf(p).tupleCnt
    ensures |r| == |p|
  {
    Splice(p, SlotOffset(slot) + 4, [if deleted then 1 else 0])
  }

  /** Slot `slot`'s entry with its deleted flag set from `deleted`. */
  function WithDeleted(info: TupleInfo, deleted: bool): TupleInfo {
    info.(metadata := info.metadata.SetDeleted(deleted))
  }

  /** Writing the deleted byte of one slot changes that slot's flag and no other slot entry. */
  lemma SetTupleMetadataEntry(p: seq<u8>, slot: nat, deleted: bool, i: nat)
    requires SlotArrayFits(p) && slot < HeaderOf(p).tupleCnt && i < HeaderOf(p).tupleCnt
    ensures var q := SetTupleMetadataImage(p, slot, deleted);
      DecodeTupleInfo(q, SlotOffset(i))
        == if i == slot then WithDeleted(DecodeTupleInfo(p, SlotOffset(i)), deleted)
           else DecodeTupleInfo(p, SlotOffset(i))
  {
    var q, at, b := SetTupleMetadataImage(p, slot, deleted), SlotOffset(i), if deleted then 1 else 0;
    if i == slot {
      assert q[at] == p[at] && q[at + 1] == p[at + 1] && q[at + 2] == p[at + 2];
      assert q[at + 3] == p[at + 3] && q[at + 4] == b && q[at + 5] == p[at + 5];
    } else {
      SpliceOutside(p, SlotOffset(slot) + 4, [b], at, at + TUPLE_INFO_SIZE);
      DecodeTupleInfoFrame(q, at, p, at);
    }
  }

  /** Slot arrays that agree on every offset and size are contiguous together. */
  lemma {:induction false} ContiguousSameExtent(a: seq<TupleInfo>, b: seq<TupleInfo>)
    requires |a| == |b|
    requires forall i :: 0 <= i < |a| ==> a[i].offset == b[i].offset && a[i].sizeBytes == b[i].sizeBytes
    ensures Contiguous(a) == Contiguous(b) && FreeSpaceEnd(a) == FreeSpaceEnd(b)
    decreases |a|
  {
    if |a| > 0 {
      ContiguousSameExtent(a[..|a| - 1], b[..|b| - 1]);
    }
  }

  /**
   * Setting a slot's deleted flag keeps the header and every other slot entry, changes
   * only that slot's flag, and keeps a packed page packed.
   */
  lemma SetTupleMetadataKeepsLayout(p: seq<u8>, slot: nat, deleted: bool)
    requires SlotArrayFits(p) && slot < HeaderOf(p).tupleCnt
    ensures var q := SetTupleMetadataImage(p, slot, deleted);
      && HeaderOf(q) == HeaderOf(p) && SlotArrayFits(q)
      && SlotArrayOf(q) == SlotArrayOf(p)[slot := WithDeleted(SlotArrayOf(p)[slot], deleted)]
      && (Packed(p) ==> Packed(q))
  {
    var q, b := SetTupleMetadataImage(p, slot, deleted), if deleted then 1 else 0;
    SpliceOutside(p, SlotOffset(slot) + 4, [b], 0, TABLE_PAGE_HEADER_SIZE);
    assert q[..TABLE_PAGE_HEADER_SIZE] == q[0..TABLE_PAGE_HEADER_SIZE];
    HeaderFrame(q, p);
    var n := HeaderOf(p).tupleCnt;
    forall i | 0 <= i < n
      ensures SlotArrayOf(q)[i] == SlotArrayOf(p)[slot := WithDeleted(SlotArrayOf(p)[slot], deleted)][i]
    {
      SetTupleMetadataEntry(p, slot, deleted, i);
    }
    ContiguousSameExtent(SlotArrayOf(p), SlotArrayOf(q));
  }

  /**
   * After setting slot `slot`'s flag on a packed page, that tuple reads back with the new
   * flag and its old bytes, and every other tuple reads as before.
   */
  lemma SetTupleMetadataTuples(p: seq<u8>, slot: nat, deleted: bool, rid: RecordId)
    requires Packed(p) && slot < HeaderOf(p).tupleCnt && rid.slotId < HeaderOf(p).tupleCnt
    ensures Readable(p, rid.slotId)
    ensures var q := SetTupleMetadataImage(p, slot, deleted);
      && Readable(q, rid.slotId)
      && GetTuple(q, rid)
           == if rid.slotId == slot
              then Ok((GetTuple(p, rid).value.0.SetDeleted(deleted), GetTuple(p, rid).value.1))
              else GetTuple(p, rid)
  {
    PackedReadable(p, rid.slotId);
    SetFlagTupleRead(p, slot, deleted, rid);
  }

  /** The same, for any slot whose tuple lies above the slot array. */
  lemma SetFlagTupleRead(p: seq<u8>, slot: nat, deleted: bool, rid: RecordId)
    requires Readable(p, rid.slotId) && slot < HeaderOf(p).tupleCnt
    requires SlotOffset(HeaderOf(p).tupleCnt) <= SlotArrayOf(p)[rid.slotId].offset
    ensures var q := SetTupleMetadataImage(p, slot, deleted);
      && Readable(q, rid.slotId)
      && GetTuple(q, rid)
           == if rid.slotId == slot
              then Ok((GetTuple(p, rid).value.0.SetDeleted(deleted), GetTuple(p, rid).value.1))
              else GetTuple(p, rid)
  {
    var q, b := SetTupleMetadataImage(p, slot, deleted), if deleted then 1 else 0;
    SetTupleMetadataKeepsLayout(p, slot, deleted);
    var info := SlotArrayOf(p)[rid.slotId];
    SpliceOutside(p, SlotOffset(slot) + 4, [b], info.offset, info.offset + info.sizeBytes);
    assert SlotArrayOf(q)[rid.slotId] == SlotAt(q, rid.slotId);
  }

  // ---------------------------------------------------------------- findings

  /**
   * `insert_tuple` never checks for room. On a freshly initialised page a tuple of
   * PAGE_SIZE - 6 bytes passes every panic check, yet its bytes start at offset 6, inside
   * the header, and overwrite the upper half of the count that was just set to 1 (and the
   * new slot entry too).
   */
  lemma InsertWithoutRoomClobbersCount(p: seq<u8>, nextPageId: PageId, meta: TupleMetadata, tuple: seq<u8>)
    requires |p| == PAGE_SIZE && |tuple| == PAGE_SIZE - 6 && tuple[0] != 0
    ensures var q := InitHeaderImage(p, nextPageId);
      && InsertDefined(q, |tuple|) && !Fits(q, |tuple|)
      && HeaderOf(InsertImage(q, meta, tuple)).tupleCnt != 1
  {
    var q := InitHeaderImage(p, nextPageId);
    assert NextTupleOffset(q, |tuple|) == 6;
    var img := InsertImage(q, meta, tuple);
    assert img[6] == tuple[0];
  }

  /**
   * A freshly initialised page takes any tuple that fits beside one slot entry: the insert
   * is defined, and afterwards the page is packed, holds one tuple, keeps its next page id,
   * and slot 0 reads back the metadata and bytes inserted.
   */
  lemma FreshPageInsert(p: seq<u8>, nextPageId: PageId, meta: TupleMetadata, tuple: seq<u8>, pageId: PageId)
    requires |p| == PAGE_SIZE && SlotOffset(1) + |tuple| <= PAGE_SIZE
    ensures var q := InitHeaderImage(p, nextPageId);
      && InsertDefined(q, |tuple|)
      && var img := InsertImage(q, meta, tuple);
      && HeaderOf(img) == TablePageHeader(nextPageId, 1, 0)
      && Packed(img) && Readable(img, 0)
      && GetTuple(img, RecordId(pageId, 0)) == Ok((meta, tuple))
  {
    var q := InitHeaderImage(p, nextPageId);
    InitHeaderPacked(p, nextPageId);
    PackedFitsDefined(q, |tuple|);
    InsertRoundTrip(q, meta, tuple, pageId);
    InsertKeepsPacked(q, meta, tuple);
  }

  /**
   * `update_tuple_metadata` is lost: asking for a live tuple to be marked deleted returns
   * `Ok`, yet the tuple still reads as live afterwards (the corrected `SetTupleMetadata`
   * marks it, by `SetTupleMetadataTuples`).
   */
  method UpdateTupleMetadataIsLost(page: TablePage, rid: RecordId) returns (deletedAfter: bool)
    requires page.Valid() && Packed(page.data[..]) && rid.slotId < HeaderOf(page.data[..]).tupleCnt
    requires !SlotArrayOf(page.data[..])[rid.slotId].metadata.IsDeleted()
    ensures !deletedAfter
  {
    PackedReadable(page.data[..], rid.slotId);
    var r := page.UpdateTupleMetadata(rid, TupleMetadata.New(true));
    deletedAfter := GetTuple(page.data[..], rid).value.0.IsDeleted();
  }
}
