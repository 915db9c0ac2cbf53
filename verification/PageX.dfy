/** Data pages and the items on them. A page starts with the offset of its free
    space; an item is [valid flag][size][data], and a row's data starts with the
    transactions that inserted and deleted it. */
module PageX {
  import opened Bytes
  import opened LogRecords
  import Visibility

  const PAGE_SIZE := 8192
  const OF_DATA := 2
  const MAX_FREE_SPACE := PAGE_SIZE - OF_DATA

  const OF_ITEM_DATA := 3
  const OF_XMAX := OF_ITEM_DATA + 8
  const OF_ROW := OF_XMAX + 8

  type Page = pg: seq<byte> | |pg| == PAGE_SIZE witness seq(PAGE_SIZE, _ => 0)

  /** The free-space offset. */
  function Fso(pg: seq<byte>): int
    requires |pg| >= OF_DATA
  {
    Decode(pg[..OF_DATA])
  }

  function WithFso(pg: Page, fso: int): Page {
    Put(pg, 0, Encode(fso, 2))
  }

  function InitRaw(): Page {
    WithFso(seq(PAGE_SIZE, _ => 0), OF_DATA)
  }

  predicate Room(pg: Page, raw: seq<byte>) {
    OF_DATA <= Fso(pg) && Fso(pg) + |raw| <= PAGE_SIZE
  }

  function Inserted(pg: Page, raw: seq<byte>): Page
    requires Room(pg, raw)
  {
    WithFso(Put(pg, Fso(pg), raw), Fso(pg) + |raw|)
  }

  predicate OnPage(offset: int, length: int) {
    OF_DATA <= offset && offset + length <= PAGE_SIZE && 0 <= length
  }

  function RecoverUpdated(pg: Page, raw: seq<byte>, offset: int): Page
    requires OnPage(offset, |raw|)
  {
    Put(pg, offset, raw)
  }

  function RecoverInserted(pg: Page, raw: seq<byte>, offset: int): Page
    requires OnPage(offset, |raw|)
  {
    var written := Put(pg, offset, raw);
    if Fso(pg) < offset + |raw| then WithFso(written, offset + |raw|) else written
  }

  function Stretch(pg: Page, offset: int, length: int): seq<byte>
    requires OnPage(offset, length)
  {
    pg[offset..offset + length]
  }

  lemma ShortFits(v: int)
    requires -PAGE_SIZE <= v <= PAGE_SIZE
    ensures Fits(v, 2)
  {
    assert Half(2) == 256 * Half(1);
  }

  lemma PutKeepsFso(pg: Page, offset: int, raw: seq<byte>)
    requires OnPage(offset, |raw|)
    ensures Fso(Put(pg, offset, raw)) == Fso(pg)
  {
    PutReads(pg, offset, raw, 0, OF_DATA);
  }

  lemma WithFsoReads(pg: Page, fso: int, offset: int, length: int)
    requires 0 <= fso <= PAGE_SIZE && OnPage(offset, length)
    ensures Fso(WithFso(pg, fso)) == fso
    ensures Stretch(WithFso(pg, fso), offset, length) == Stretch(pg, offset, length)
  {
    hide Put, Encode, Decode, Fits, Half;
    ShortFits(fso);
    EncodeDecode(fso, 2);
    PutReads(pg, 0, Encode(fso, 2), 0, OF_DATA);
    PutReads(pg, 0, Encode(fso, 2), offset, offset + length);
  }

  /** A fresh page is empty. */
  lemma InitRawIsEmpty()
    ensures Fso(InitRaw()) == OF_DATA
  {
    WithFsoReads(seq(PAGE_SIZE, _ => 0), OF_DATA, OF_DATA, 0);
  }

  /** An update changes its stretch alone and leaves the free-space offset. */
  lemma RecoverUpdatedReads(pg: Page, raw: seq<byte>, offset: int, at: int, length: int)
    requires OnPage(offset, |raw|) && OnPage(at, length)
    ensures Fso(RecoverUpdated(pg, raw, offset)) == Fso(pg)
    ensures at == offset && length == |raw| ==> Stretch(RecoverUpdated(pg, raw, offset), at, length) == raw
    ensures at + length <= offset || offset + |raw| <= at ==>
              Stretch(RecoverUpdated(pg, raw, offset), at, length) == Stretch(pg, at, length)
  {
    hide Put, Decode;
    PutKeepsFso(pg, offset, raw);
    PutReads(pg, offset, raw, at, at + length);
  }

  /** A recovered insertion changes its stretch alone and raises the free-space
      offset to its end, never lowering it. */
  lemma RecoverInsertedReads(pg: Page, raw: seq<byte>, offset: int, at: int, length: int)
    requires OnPage(offset, |raw|) && OnPage(at, length)
    ensures Fso(RecoverInserted(pg, raw, offset)) == if Fso(pg) < offset + |raw| then offset + |raw| else Fso(pg)
    ensures at == offset && length == |raw| ==> Stretch(RecoverInserted(pg, raw, offset), at, length) == raw
    ensures at + length <= offset || offset + |raw| <= at ==>
              Stretch(RecoverInserted(pg, raw, offset), at, length) == Stretch(pg, at, length)
  {
    hide Fso, WithFso, Stretch;
    RecoverUpdatedReads(pg, raw, offset, at, length);
    WithFsoReads(Put(pg, offset, raw), offset + |raw|, at, length);
  }

  /** Inserting at run time writes what redoing the logged insertion writes. */
  lemma InsertedIsRecovered(pg: Page, raw: seq<byte>)
    requires Room(pg, raw) && raw != []
    ensures Inserted(pg, raw) == RecoverInserted(pg, raw, Fso(pg))
  {
  }

  /** setDataItemRawInvalid */
  function Flagged(raw: seq<byte>): (r: seq<byte>)
    requires raw != []
    ensures |r| == |raw|
  {
    [1] + raw[1..]
  }

  predicate IsValid(item: seq<byte>)
    requires item != []
  {
    item[0] == 0
  }

  function WrapDataItemRaw(data: seq<byte>): seq<byte> {
    [0] + Encode(|data|, 2) + data
  }

  function WrapEntryRaw(xid: int, data: seq<byte>): seq<byte> {
    Encode(xid, 8) + Encode(0, 8) + data
  }

  predicate HoldsRow(item: seq<byte>) {
    |item| >= OF_ROW
  }

  function EntryOf(item: seq<byte>): Visibility.Entry
    requires HoldsRow(item)
  {
    Visibility.Entry(Decode(item[OF_ITEM_DATA..OF_XMAX]), Decode(item[OF_XMAX..OF_ROW]))
  }

  function WithXmax(item: seq<byte>, xid: int): seq<byte>
    requires HoldsRow(item)
  {
    Put(item, OF_XMAX, Encode(xid, 8))
  }

  /** A wrapped item is valid, and its size field gives back its length. */
  lemma WrappedItem(data: seq<byte>)
    requires |data| <= PAGE_SIZE
    ensures var item := WrapDataItemRaw(data);
            |item| == OF_ITEM_DATA + |data| && IsValid(item)
            && Decode(item[1..OF_ITEM_DATA]) == |data| && item[OF_ITEM_DATA..] == data
  {
    ShortFits(|data|);
    EncodeDecode(|data|, 2);
    assert WrapDataItemRaw(data)[1..OF_ITEM_DATA] == Encode(|data|, 2);
  }

  /** A new row names its inserter and no deleter. */
  lemma NewRow(xid: int, data: seq<byte>)
    requires Fits(xid, 8)
    ensures var item := WrapDataItemRaw(WrapEntryRaw(xid, data));
            HoldsRow(item) && IsValid(item) && |item| == OF_ROW + |data|
            && EntryOf(item) == Visibility.Entry(xid, 0) && item[OF_ROW..] == data
  {
    hide Encode, Decode, Half, Fits;
    ZeroFits(8);
    EncodeDecode(xid, 8);
    EncodeDecode(0, 8);
    var entry := WrapEntryRaw(xid, data);
    var item := WrapDataItemRaw(entry);
    Parts([0], Encode(|entry|, 2), Encode(xid, 8), Encode(0, 8), data);
    assert item == [0] + Encode(|entry|, 2) + Encode(xid, 8) + Encode(0, 8) + data;
  }

  /** Where an item's flag, size and data stand, and a row's inserter, deleter and data. */
  lemma RowBytes(xid: int, data: seq<byte>)
    ensures var item := WrapDataItemRaw(WrapEntryRaw(xid, data));
            && |item| == 19 + |data| && item[0] == 0 && item[1..3] == Encode(16 + |data|, 2)
            && item[3..11] == Encode(xid, 8) && item[11..19] == Encode(0, 8) && item[19..] == data
  {
    hide Encode;
    Parts([0], Encode(16 + |data|, 2), Encode(xid, 8), Encode(0, 8), data);
    assert WrapDataItemRaw(WrapEntryRaw(xid, data)) == [0] + Encode(16 + |data|, 2) + Encode(xid, 8) + Encode(0, 8) + data;
  }

  /** Setting xmax changes the deleter and nothing else. */
  lemma WithXmaxReads(item: seq<byte>, xid: int)
    requires HoldsRow(item) && Fits(xid, 8)
    ensures var marked := WithXmax(item, xid);
            |marked| == |item| && IsValid(marked) == IsValid(item) && marked[OF_ROW..] == item[OF_ROW..]
            && EntryOf(marked) == EntryOf(item).(xmax := xid)
  {
    hide Encode, Decode, Fits, Half;
    EncodeDecode(xid, 8);
    var marked := WithXmax(item, xid);
    PutReads(item, OF_XMAX, Encode(xid, 8), OF_XMAX, OF_ROW);
    PutReads(item, OF_XMAX, Encode(xid, 8), OF_ITEM_DATA, OF_XMAX);
    PutReads(item, OF_XMAX, Encode(xid, 8), OF_ROW, |item|);
  }

  /** The invalid flag is all that undoing an insertion changes. */
  lemma FlaggedReads(item: seq<byte>)
    requires HoldsRow(item)
    ensures !IsValid(Flagged(item)) && EntryOf(Flagged(item)) == EntryOf(item)
    ensures Flagged(item)[0] == 1 && Flagged(item)[1..] == item[1..]
  {
    assert Flagged(item)[OF_ITEM_DATA..OF_XMAX] == item[OF_ITEM_DATA..OF_XMAX];
    assert Flagged(item)[OF_XMAX..OF_ROW] == item[OF_XMAX..OF_ROW];
  }

  // Pages in memory are byte arrays, changed in place.

  method ArrayCopy(src: seq<byte>, dst: array<byte>, offset: nat)
    requires offset + |src| <= dst.Length
    modifies dst
    ensures dst[..] == Put(old(dst[..]), offset, src)
  {
    forall i | 0 <= i < |src| {
      dst[offset + i] := src[i];
    }
  }

  method SetFso(pg: array<byte>, fso: int)
    requires pg.Length == PAGE_SIZE
    modifies pg
    ensures pg[..] == WithFso(old(pg[..]), fso)
  {
    ArrayCopy(Encode(fso, 2), pg, 0);
  }

  method Insert(pg: array<byte>, raw: seq<byte>) returns (offset: int)
    requires pg.Length == PAGE_SIZE && Room(pg[..], raw)
    modifies pg
    ensures offset == old(Fso(pg[..])) && pg[..] == Inserted(old(pg[..]), raw)
  {
    offset := Fso(pg[..]);
    ArrayCopy(raw, pg, offset);
    SetFso(pg, offset + |raw|);
  }

  method RecoverInsert(pg: array<byte>, raw: seq<byte>, offset: int)
    requires pg.Length == PAGE_SIZE && OnPage(offset, |raw|)
    modifies pg
    ensures pg[..] == RecoverInserted(old(pg[..]), raw, offset)
  {
    PutKeepsFso(pg[..], offset, raw);
    ArrayCopy(raw, pg, offset);
    var rawFso := Fso(pg[..]);
    if rawFso < offset + |raw| {
      SetFso(pg, offset + |raw|);
    }
  }

  method RecoverUpdate(pg: array<byte>, raw: seq<byte>, offset: int)
    requires pg.Length == PAGE_SIZE && OnPage(offset, |raw|)
    modifies pg
    ensures pg[..] == RecoverUpdated(old(pg[..]), raw, offset)
  {
    ArrayCopy(raw, pg, offset);
  }

  /** An item in the page it lives on, with the copy kept while it is changed. */
  class DataItem {
    const page: array<byte>
    const pgno: int
    const start: int
    const end: int
    const oldRaw: array<byte>

    ghost predicate Valid()
      reads this
    {
      && page.Length == PAGE_SIZE && OnPage(start, end - start)
      && oldRaw != page && oldRaw.Length == end - start >= OF_ITEM_DATA
    }

    /** parseDataItem: the item's length is read from its size field. */
    constructor Parse(page: array<byte>, pgno: int, offset: int)
      requires page.Length == PAGE_SIZE && OnPage(offset, OF_ITEM_DATA)
      requires Decode(page[offset + 1..offset + OF_ITEM_DATA]) >= 0
      requires OnPage(offset, Decode(page[offset + 1..offset + OF_ITEM_DATA]) + OF_ITEM_DATA)
      ensures Valid() && this.page == page && this.pgno == pgno && start == offset && fresh(oldRaw)
      ensures end == offset + OF_ITEM_DATA + Decode(page[offset + 1..offset + OF_ITEM_DATA])
    {
      var size := Decode(page[offset + 1..offset + OF_ITEM_DATA]);
      this.page, this.pgno, start, end := page, pgno, offset, offset + OF_ITEM_DATA + size;
      oldRaw := new byte[OF_ITEM_DATA + size];
    }

    function Raw(): seq<byte>
      requires Valid()
      reads this, page
    {
      page[start..end]
    }

    /** Keeps the bytes as they were. */
    method Before()
      requires Valid()
      modifies oldRaw
      ensures oldRaw[..] == Raw() && page[..] == old(page[..])
    {
      ArrayCopy(page[start..end], oldRaw, 0);
    }

    /** Gives up a change: if only the item's bytes were changed, the page is what
        it was when the copy was taken. */
    method UnBefore(ghost was: Page)
      requires Valid() && oldRaw[..] == was[start..end]
      requires page[..start] == was[..start] && page[end..] == was[end..]
      modifies page
      ensures page[..] == was
    {
      ArrayCopy(oldRaw[..], page, start);
    }

    /** after: the log record of the change. Parsed, it names the writer and the item and
        gives the bytes before and now; so redoing it leaves the page as it is, and
        undoing it puts back the copy and touches nothing else. */
    method After(xid: int) returns (log: seq<byte>)
      requires Valid()
      ensures log == EncodeRecord(Update(xid, pgno, start, oldRaw[..], Raw()))
      ensures Fits(xid, 8) && Fits(pgno, 4) ==>
                && LongEnough(log)
                && var r := ParseRecord(log);
                   && r.Update? && r.xid == xid && AddressOf(r) == Address(pgno, start)
                   && |r.oldRaw| == |r.newRaw| == end - start
                   && RecoverUpdated(page[..], r.newRaw, start) == page[..]
                   && RecoverUpdated(page[..], r.oldRaw, start)[start..end] == oldRaw[..]
                   && RecoverUpdated(page[..], r.oldRaw, start)[..start] == page[..start]
                   && RecoverUpdated(page[..], r.oldRaw, start)[end..] == page[end..]
    {
      log := EncodeRecord(Update(xid, pgno, start, oldRaw[..], page[start..end]));
      if Fits(xid, 8) && Fits(pgno, 4) {
        AfterParses(xid, pgno, start, oldRaw[..], page[start..end]);
        PutBack(page[..], start, end, oldRaw[..]);
      }
    }

    static lemma AfterParses(xid: int, pgno: int, start: int, was: seq<byte>, now: seq<byte>)
      requires Fits(xid, 8) && Fits(pgno, 4) && OnPage(start, |now|) && |was| == |now|
      ensures LongEnough(EncodeRecord(Update(xid, pgno, start, was, now)))
      ensures ParseRecord(EncodeRecord(Update(xid, pgno, start, was, now))) == Update(xid, pgno, start, was, now)
    {
      ShortFits(start);
      RecordRoundTrip(Update(xid, pgno, start, was, now));
    }

    static lemma PutBack(pg: Page, start: nat, end: nat, was: seq<byte>)
      requires start <= end <= PAGE_SIZE && |was| == end - start
      ensures Put(pg, start, pg[start..end]) == pg
      ensures var back := Put(pg, start, was); back[start..end] == was && back[..start] == pg[..start] && back[end..] == pg[end..]
    {
    }

    /** Marks the row deleted by `xid` and returns the log record that says so,
        with the bytes before and after. */
    method SetXmax(xid: int) returns (log: seq<byte>)
      requires Valid() && end - start >= OF_ROW
      modifies page, oldRaw
      ensures page[..] == Put(old(page[..]), start, WithXmax(old(Raw()), xid))
      ensures log == EncodeRecord(Update(xid, pgno, start, old(Raw()), WithXmax(old(Raw()), xid)))
    {
      hide Encode, EncodeRecord, Put;
      Before();
      ArrayCopy(Encode(xid, 8), page, start + OF_XMAX);
      PutInside(old(page[..]), start, end, OF_XMAX, Encode(xid, 8));
      log := After(xid);
    }
  }

  /** Writing inside a stretch of a page rewrites the stretch. */
  lemma PutInside(pg: Page, start: nat, end: nat, offset: nat, data: seq<byte>)
    requires start <= end <= PAGE_SIZE && offset + |data| <= end - start
    ensures Put(pg, start + offset, data) == Put(pg, start, Put(pg[start..end], offset, data))
    ensures Put(pg, start + offset, data)[start..end] == Put(pg[start..end], offset, data)
  {
    var inner, after := Put(pg[start..end], offset, data), Put(pg, start + offset, data);
    forall k | 0 <= k < end - start ensures after[start + k] == inner[k] {
    }
    assert after[start..end] == inner;
    assert after == after[..start] + after[start..end] + after[end..];
    assert after[..start] == pg[..start] && after[end..] == pg[end..];
  }
}
