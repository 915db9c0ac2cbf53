/** The data manager: items are placed on the page that the index of free space
    selects, behind the items already there, after a log record of the insertion. */
module DataManagers {
  import opened Bytes
  import opened LogRecords
  import opened PageX
  import opened Recovery
  import opened CrashRuns
  import PI = PageIndexes
  import PC = PageCaches

  datatype InsertResult = TooLarge | Busy | Overflow | Placed(uid: int)

  datatype ReadResult = Null | Item(raw: seq<byte>)

  /** The storage part of a run's state. */
  ghost function Storage(log: seq<Record>, pages: Pages): State {
    State(log, pages, pages, map[], {}, true)
  }

  function FreeSpace(pg: Page): int {
    PAGE_SIZE - Fso(pg)
  }

  /** What the index should hold: every data page once, with its free space. */
  function Infos(pages: Pages): set<PI.PageInfo> {
    set p | p in pages && p >= 2 :: PI.PageInfo(p, FreeSpace(pages[p]))
  }

  ghost predicate Indexed(infos: multiset<PI.PageInfo>, pages: Pages) {
    infos == multiset(Infos(pages))
  }

  /** All indexed but one page, which is being filled. */
  ghost predicate IndexedBut(infos: multiset<PI.PageInfo>, pages: Pages, p: int) {
    infos == multiset(Infos(pages) - {PI.PageInfo(p, if p in pages then FreeSpace(pages[p]) else 0)})
  }

  /** The size field of every item gives back its length. */
  ghost predicate Sized(log: seq<Record>, pages: Pages) {
    forall a | Recovery.Item(log, pages, a) :: SizedItem(Content(log, pages, a))
  }

  predicate SizedItem(item: seq<byte>) {
    |item| >= OF_ITEM_DATA && Decode(item[1..OF_ITEM_DATA]) + OF_ITEM_DATA == |item|
  }

  ghost predicate StorageOk(log: seq<Record>, pages: Pages, n: int) {
    && MemReady(log, pages) && Sized(log, pages) && 1 <= n <= PC.MAX_PAGES
    && forall p :: p in pages <==> 1 <= p <= n
  }

  lemma TakenOut(infos: multiset<PI.PageInfo>, rest: multiset<PI.PageInfo>, pages: Pages, info: PI.PageInfo)
    requires Indexed(infos, pages) && infos == rest + multiset{info}
    ensures info.pgno in pages && info.pgno >= 2 && info.freeSpace == FreeSpace(pages[info.pgno])
    ensures IndexedBut(rest, pages, info.pgno)
  {
    assert info in infos;
    assert info in Infos(pages);
    forall x ensures rest[x] == multiset(Infos(pages) - {info})[x] {
      assert infos[x] == rest[x] + multiset{info}[x];
    }
  }

  lemma PutBack(rest: multiset<PI.PageInfo>, pages: Pages, p: int, pg: Page)
    requires p in pages && p >= 2 && IndexedBut(rest, pages, p)
    ensures Indexed(rest + multiset{PI.PageInfo(p, FreeSpace(pg))}, pages[p := pg])
  {
    var was, now := PI.PageInfo(p, FreeSpace(pages[p])), PI.PageInfo(p, FreeSpace(pg));
    var after := pages[p := pg];
    forall x ensures x in Infos(after) <==> x in Infos(pages) - {was} || x == now {
      if x in Infos(pages) - {was} {
        assert x.pgno != p;
        assert after[x.pgno] == pages[x.pgno];
      }
      if x in Infos(after) && x.pgno != p {
        assert after[x.pgno] == pages[x.pgno];
      }
      if x == now {
        assert after[p] == pg;
      }
    }
    assert Infos(after) == (Infos(pages) - {was}) + {now};
    assert now !in Infos(pages) - {was};
    Joined(Infos(pages) - {was}, now);
  }

  lemma Joined(s: set<PI.PageInfo>, x: PI.PageInfo)
    requires x !in s
    ensures multiset(s + {x}) == multiset(s) + multiset{x}
  {
  }

  lemma AddedPage(infos: multiset<PI.PageInfo>, pages: Pages, p: int, pg: Page)
    requires Indexed(infos, pages) && p !in pages && p >= 2
    ensures Indexed(infos + multiset{PI.PageInfo(p, FreeSpace(pg))}, pages[p := pg])
  {
    var now := PI.PageInfo(p, FreeSpace(pg));
    var after := pages[p := pg];
    forall x ensures x in Infos(after) <==> x in Infos(pages) || x == now {
      if x in Infos(pages) {
        assert after[x.pgno] == pages[x.pgno];
      }
      if x in Infos(after) && x.pgno != p {
        assert after[x.pgno] == pages[x.pgno];
      }
      if x == now {
        assert after[p] == pg;
      }
    }
    assert Infos(after) == Infos(pages) + {now};
    assert now !in Infos(pages);
    Joined(Infos(pages), now);
  }

  /** A new page has no items and changes none. */
  lemma NewPageOk(log: seq<Record>, pages: Pages, n: int)
    requires StorageOk(log, pages, n) && n < PC.MAX_PAGES
    ensures StorageOk(log, pages[n + 1 := InitRaw()], n + 1)
    ensures FreeSpace(InitRaw()) == MAX_FREE_SPACE
    ensures forall a | Recovery.Item(log, pages, a) ::
              Recovery.Item(log, pages[n + 1 := InitRaw()], a) && Content(log, pages[n + 1 := InitRaw()], a) == Content(log, pages, a)
  {
    hide InitRaw, Fso, LogOk, SizedItem, Stretch;
    InitRawIsEmpty();
    var after := pages[n + 1 := InitRaw()];
    assert Top(log, |log|, n + 1) == OF_DATA by {
      if Top(log, |log|, n + 1) != OF_DATA {
        var k := TopIsReached(log, |log|, n + 1);
      }
    }
    assert n + 1 !in pages;
    assert forall k | 0 <= k < |log| :: log[k].pgno in pages;
    forall a | Recovery.Item(log, after, a)
      ensures Recovery.Item(log, pages, a) && Content(log, after, a) == Content(log, pages, a)
    {
      ItemIsThere(log, pages, a);
    }
  }

  /** Placing an item where there is room. */
  lemma PlaceOk(log: seq<Record>, pages: Pages, n: int, xid: int, pgno: int, data: seq<byte>)
    requires StorageOk(log, pages, n) && pgno in pages && pgno >= 2 && Fits(xid, 8) && |data| <= PAGE_SIZE
    requires |WrapDataItemRaw(data)| <= FreeSpace(pages[pgno])
    ensures Room(pages[pgno], WrapDataItemRaw(data))
    ensures var raw, a := WrapDataItemRaw(data), Address(pgno, Fso(pages[pgno]));
            var more := log + [LogRecords.Insert(xid, pgno, a.offset, raw)];
            var after := pages[pgno := Inserted(pages[pgno], raw)];
            && StorageOk(more, after, n) && Length(log, |log|, a) == 0
            && Recovery.Item(more, after, a) && Content(more, after, a) == raw
            && SameElsewhere(log, pages, more, after, a)
            && 0 <= a.offset < PAGE_SIZE
  {
    var raw, a := WrapDataItemRaw(data), Address(pgno, Fso(pages[pgno]));
    WrappedItem(data);
    assert SizedItem(raw);
    hide LogOk, Inserted, Content, Recovery.Item, SizedItem, Fso;
    var s := Storage(log, pages);
    TopBounds(log, |log|, pgno);
    assert Fits(pgno, 4) by { Halves(); }
    assert Room(pages[pgno], raw);
    NoRecordsAt(log, a);
    InsertEffect(s, xid, pgno, raw);
    var after := Inserting(s, xid, pgno, raw);
    forall b | Recovery.Item(after.log, after.mem, b) ensures SizedItem(Content(after.log, after.mem, b)) {
      if b == a {
        assert SizedItem(raw);
      } else {
        ItemBefore(log, after.log, pages, after.mem, a, b);
      }
    }
  }

  /** Every item but the new one was there before. */
  lemma ItemBefore(log: seq<Record>, more: seq<Record>, pages: Pages, after: Pages, a: Address, b: Address)
    requires Ready(log, pages) && |more| == |log| + 1 && more[..|log|] == log && AddressOf(more[|log|]) == a != b
    requires Recovery.Item(more, after, b)
    ensures Recovery.Item(log, pages, b)
  {
    hide Ready;
    assert more == log + [more[|log|]];
    Appended(log, more[|log|], |log|, b.pgno, b);
    ItemIsThere(log, pages, b);
  }

  /** A read finds the size of an item on its page. */
  lemma ReadsItem(log: seq<Record>, pages: Pages, n: int, a: Address)
    requires StorageOk(log, pages, n) && Recovery.Item(log, pages, a)
    ensures a.pgno in pages && OnPage(a.offset, OF_ITEM_DATA)
    ensures var size := Decode(pages[a.pgno][a.offset + 1..a.offset + OF_ITEM_DATA]);
            OnPage(a.offset, size + OF_ITEM_DATA) && pages[a.pgno][a.offset..a.offset + size + OF_ITEM_DATA] == Content(log, pages, a)
  {
    hide MemReady, Decode;
    var item := Content(log, pages, a);
    assert SizedItem(item);
    SliceOfSlice(pages[a.pgno], a.offset, a.offset + |item|, 1, OF_ITEM_DATA);
  }

  lemma SliceOfSlice(pg: seq<byte>, i: nat, j: nat, m: nat, n: nat)
    requires i <= j <= |pg| && m <= n <= j - i
    ensures pg[i..j][m..n] == pg[i + m..i + n]
  {
    var left, right := pg[i..j][m..n], pg[i + m..i + n];
    assert |left| == |right|;
    forall k | 0 <= k < |left| ensures left[k] == right[k] {
      assert left[k] == pg[i..j][m + k] == pg[i + m + k];
    }
  }

  lemma AddressFits(log: seq<Record>, pages: Pages, n: int, a: Address)
    requires StorageOk(log, pages, n) && Recovery.Item(log, pages, a)
    ensures Fits(a.pgno, 4) && Fits(a.offset, 2) && a.offset >= 0
  {
    ShortFits(a.offset);
    Halves();
  }

  class DataManager {
    var pages: Pages
    var pageNumbers: int
    var pIndex: PI.PageIndex
    var logs: seq<seq<byte>>
    ghost var records: seq<Record>

    ghost predicate Valid()
      reads this, pIndex, pIndex.lists
    {
      && pIndex.Valid() && StorageOk(records, pages, pageNumbers)
      && Indexed(pIndex.Contents(), pages)
    }

    /** Opening over recovered pages: the index is filled page by page. */
    constructor (pages: Pages, pageNumbers: int, logs: seq<seq<byte>>, ghost records: seq<Record>)
      requires StorageOk(records, pages, pageNumbers)
      ensures Valid() && fresh(pIndex) && fresh(pIndex.lists)
      ensures this.pages == pages && this.pageNumbers == pageNumbers && this.logs == logs && this.records == records
    {
      this.pages, this.pageNumbers, this.logs, this.records := pages, pageNumbers, logs, records;
      pIndex := new PI.PageIndex();
      new;
      hide StorageOk, Indexed;
      NothingBelow(records, pages, pageNumbers);
      var i := 2;
      while i <= pageNumbers
        invariant 2 <= i <= pageNumbers + 1
        invariant pIndex.Valid() && Indexed(pIndex.Contents(), Below(pages, i))
        invariant this.pages == pages && this.pageNumbers == pageNumbers && this.logs == logs && this.records == records
        invariant fresh(pIndex) && fresh(pIndex.lists)
        modifies pIndex.lists
      {
        BelowGrows(records, pages, pageNumbers, i);
        AddedPage(pIndex.Contents(), Below(pages, i), i, pages[i]);
        pIndex.Add(i, FreeSpace(pages[i]));
        i := i + 1;
      }
      AllBelow(records, pages, pageNumbers, i);
    }

    static lemma NothingBelow(log: seq<Record>, pages: Pages, n: int)
      requires StorageOk(log, pages, n)
      ensures Indexed(multiset{}, Below(pages, 2)) && 1 <= n
    {
      assert Infos(Below(pages, 2)) == {};
    }

    static lemma BelowGrows(log: seq<Record>, pages: Pages, n: int, i: int)
      requires StorageOk(log, pages, n) && 2 <= i <= n
      ensures i in pages && i !in Below(pages, i) && Below(pages, i)[i := pages[i]] == Below(pages, i + 1)
      ensures 0 <= FreeSpace(pages[i]) <= PAGE_SIZE
    {
      TopBounds(log, |log|, i);
    }

    static lemma AllBelow(log: seq<Record>, pages: Pages, n: int, i: int)
      requires StorageOk(log, pages, n) && i > n
      ensures Below(pages, i) == pages
    {
    }

    static function Below(pages: Pages, i: int): Pages {
      map p | p in pages && p < i :: pages[p]
    }

    static ghost predicate Selected(infos: multiset<PI.PageInfo>, pages: Pages, info: PI.PageInfo, size: nat) {
      && info.pgno in pages && info.pgno >= 2 && IndexedBut(infos, pages, info.pgno) && info.freeSpace == FreeSpace(pages[info.pgno])
      && (size <= PI.INTERVALS_NO * PI.THRESHOLD ==> size <= info.freeSpace)
    }

    static ghost predicate SameItems(log: seq<Record>, pages: Pages, after: Pages) {
      forall a | Recovery.Item(log, pages, a) :: Recovery.Item(log, after, a) && Content(log, after, a) == Content(log, pages, a)
    }

    /** Appends a fresh page and indexes it. */
    method AddPage()
      requires Valid() && pageNumbers < PC.MAX_PAGES
      modifies `pages, `pageNumbers, pIndex.lists
      ensures Valid() && pageNumbers == old(pageNumbers) + 1
      ensures PI.PageInfo(pageNumbers, MAX_FREE_SPACE) in pIndex.Contents()
      ensures SameItems(records, old(pages), pages)
    {
      hide Indexed, MemReady, Sized, Content, Recovery.Item, InitRaw, Fso;
      NewPageOk(records, pages, pageNumbers);
      AddedPage(pIndex.Contents(), pages, pageNumbers + 1, InitRaw());
      pages, pageNumbers := pages[pageNumbers + 1 := InitRaw()], pageNumbers + 1;
      pIndex.Add(pageNumbers, MAX_FREE_SPACE);
    }

    /** No page has 204 bytes more than asked for. */
    static ghost predicate NoneRoomy(pages: Pages, size: nat) {
      forall p | p in pages && p >= 2 :: !PI.PageIndex.Roomy(PI.PageInfo(p, FreeSpace(pages[p])), size)
    }

    static lemma IndexShows(infos: multiset<PI.PageInfo>, pages: Pages, size: nat)
      requires Indexed(infos, pages)
      ensures (forall info | info in infos :: !PI.PageIndex.Roomy(info, size)) ==> NoneRoomy(pages, size)
    {
      forall p | p in pages && p >= 2 ensures PI.PageInfo(p, FreeSpace(pages[p])) in infos {
        assert PI.PageInfo(p, FreeSpace(pages[p])) in Infos(pages);
      }
    }

    /** Takes a page out of the index, adding pages until one is found. The first page
        added is always found, so at most one is. */
    method TakePage(size: nat) returns (pi: PI.Selection)
      requires Valid() && pageNumbers < PC.MAX_PAGES && size <= MAX_FREE_SPACE
      modifies `pages, `pageNumbers, pIndex.lists
      ensures pIndex.Valid() && StorageOk(records, pages, pageNumbers) && pageNumbers <= old(pageNumbers) + 1
      ensures pi.Found? && Selected(pIndex.Contents(), pages, pi.info, size)
      ensures SameItems(records, old(pages), pages)
      ensures pageNumbers > old(pageNumbers) ==> NoneRoomy(old(pages), size)
    {
      IndexShows(pIndex.Contents(), pages, size);
      hide Indexed, IndexedBut, StorageOk, SameItems, NoneRoomy;
      pi := PI.NoPage;
      SameToItself(records, pages);
      var i := 0;
      while i < 5 && pi.NoPage?
        invariant 0 <= i <= 5 && pIndex.Valid() && StorageOk(records, pages, pageNumbers)
        invariant pi.NoPage? ==> i <= 1 && Valid() && pageNumbers == old(pageNumbers) + i
        invariant pi.NoPage? && i == 1 ==> PI.PageInfo(pageNumbers, MAX_FREE_SPACE) in pIndex.Contents()
        invariant pageNumbers <= old(pageNumbers) + 1
        invariant i == 0 ==> pIndex.Contents() == old(pIndex.Contents()) && pageNumbers == old(pageNumbers)
        invariant pageNumbers > old(pageNumbers) ==> NoneRoomy(old(pages), size)
        invariant pi.Found? ==> Selected(pIndex.Contents(), pages, pi.info, size)
        invariant SameItems(records, old(pages), pages)
        decreases 5 - i
      {
        ghost var infos, was := pIndex.Contents(), pages;
        pi := pIndex.SelectPage(size);
        if pi.NoPage? {
          assert i == 0 by { PI.StartInRange(size); }
          AddPage();
          SameFollows(records, old(pages), was, pages);
        } else {
          TakenOut(infos, pIndex.Contents(), pages, pi.info);
        }
        i := i + 1;
      }
    }

    /** Inserting an item. Whatever is not too large finds a page at once or after one
        new page, so the database is never busy; up to 8160 bytes it finds room too.
        The item goes to a new address and every other item keeps its bytes. On a page
        without room nothing is written, but the record is in the log already. */
    method Insert(xid: int, data: seq<byte>) returns (res: InsertResult)
      requires Valid() && Fits(xid, 8) && pageNumbers < PC.MAX_PAGES
      modifies `pages, `pageNumbers, `logs, `records, pIndex.lists
      ensures res.TooLarge? <==> OF_ITEM_DATA + |data| > MAX_FREE_SPACE
      ensures !res.Busy?
      ensures OF_ITEM_DATA + |data| <= PI.INTERVALS_NO * PI.THRESHOLD ==> !res.Overflow?
      ensures Valid()
      ensures pageNumbers > old(pageNumbers) ==> !res.TooLarge? && NoneRoomy(old(pages), OF_ITEM_DATA + |data|)
      ensures res.TooLarge? ==> records == old(records) && pages == old(pages) && logs == old(logs)
      ensures res.Overflow? ==> records == old(records) && SameItems(records, old(pages), pages) && |logs| == |old(logs)| + 1
      ensures res.Placed? ==>
                && AddedRecord(old(records), records, logs, old(logs), xid, WrapDataItemRaw(data), UidToAddress(res.uid))
                && AddedItem(old(records), old(pages), records, pages, WrapDataItemRaw(data), UidToAddress(res.uid))
      ensures InsertStep(Store(old(records), old(pages)), Call(data, res), Store(records, pages))
    {
      hide StorageOk, Indexed, IndexedBut, Inserted, SameItems, AddedRecord, AddedItem;
      var raw := WrapDataItemRaw(data);
      if |raw| > MAX_FREE_SPACE {
        return TooLarge;
      }
      var pi := TakePage(|raw|);
      if pi.NoPage? {
        return Busy;
      }
      var pgno := pi.info.pgno;
      var offset := Fso(pages[pgno]);
      logs := logs + [EncodeRecord(LogRecords.Insert(xid, pgno, offset, raw))];
      if offset + |raw| > PAGE_SIZE {
        PutBack(pIndex.Contents(), pages, pgno, pages[pgno]);
        assert pages[pgno := pages[pgno]] == pages;
        SpaceFits(records, pages, pageNumbers, pgno);
        pIndex.Add(pgno, FreeSpace(pages[pgno]));
        return Overflow;
      }
      PlaceFacts(records, old(pages), pages, pageNumbers, xid, pgno, data, old(logs));
      var pg := Inserted(pages[pgno], raw);
      PutBack(pIndex.Contents(), pages, pgno, pg);
      FreeSpaceFits(records, pages, pageNumbers, xid, pgno, data);
      records := records + [LogRecords.Insert(xid, pgno, offset, raw)];
      pages := pages[pgno := pg];
      pIndex.Add(pgno, FreeSpace(pg));
      res := Placed(AddressToUid(pgno, offset));
    }

    /** One record was logged: the insertion of `raw` at an address where there was no
        item. */
    static ghost predicate AddedRecord(log: seq<Record>, more: seq<Record>, logs: seq<seq<byte>>, wasLogs: seq<seq<byte>>,
                                       xid: int, raw: seq<byte>, a: Address) {
      var r := LogRecords.Insert(xid, a.pgno, a.offset, raw);
      more == log + [r] && logs == wasLogs + [EncodeRecord(r)] && Length(log, |log|, a) == 0
    }

    /** The item is there, and every item there was is as it was. */
    static ghost predicate AddedItem(log: seq<Record>, pages: Pages, more: seq<Record>, after: Pages, raw: seq<byte>, a: Address) {
      && Recovery.Item(more, after, a) && Content(more, after, a) == raw
      && forall b | Recovery.Item(log, pages, b) ::
           b != a && Recovery.Item(more, after, b) && Content(more, after, b) == Content(log, pages, b)
    }

    static lemma SameToItself(log: seq<Record>, pages: Pages)
      ensures SameItems(log, pages, pages)
    {
    }

    static lemma SameFollows(log: seq<Record>, first: Pages, middle: Pages, last: Pages)
      requires SameItems(log, first, middle) && SameItems(log, middle, last)
      ensures SameItems(log, first, last)
    {
    }

    static lemma PageFits4(log: seq<Record>, pages: Pages, n: int, pgno: int)
      requires StorageOk(log, pages, n) && pgno in pages
      ensures Fits(pgno, 4)
    {
      Halves();
    }

    static lemma PlaceFacts(log: seq<Record>, was: Pages, pages: Pages, n: int, xid: int, pgno: int, data: seq<byte>, logs: seq<seq<byte>>)
      requires StorageOk(log, pages, n) && pgno in pages && pgno >= 2 && Fits(xid, 8) && |data| <= PAGE_SIZE
      requires |WrapDataItemRaw(data)| <= FreeSpace(pages[pgno]) && SameItems(log, was, pages)
      ensures Room(pages[pgno], WrapDataItemRaw(data))
      ensures var raw, offset := WrapDataItemRaw(data), Fso(pages[pgno]);
              var r := LogRecords.Insert(xid, pgno, offset, raw);
              var after := pages[pgno := Inserted(pages[pgno], raw)];
              && StorageOk(log + [r], after, n) && UidToAddress(AddressToUid(pgno, offset)) == Address(pgno, offset)
              && AddedRecord(log, log + [r], logs + [EncodeRecord(r)], logs, xid, raw, Address(pgno, offset))
              && AddedItem(log, was, log + [r], after, raw, Address(pgno, offset))
    {
      PageFits4(log, pages, n, pgno);
      hide StorageOk, Inserted, Content, EncodeRecord, Fso;
      PlaceOk(log, pages, n, xid, pgno, data);
      var a := Address(pgno, Fso(pages[pgno]));
      ShortFits(a.offset);
      AddressRoundTrip(pgno, a.offset);
    }

    static lemma SpaceFits(log: seq<Record>, pages: Pages, n: int, pgno: int)
      requires StorageOk(log, pages, n) && pgno in pages && pgno >= 2
      ensures 0 <= FreeSpace(pages[pgno]) <= PAGE_SIZE
    {
      TopBounds(log, |log|, pgno);
    }

    static lemma FreeSpaceFits(log: seq<Record>, pages: Pages, n: int, xid: int, pgno: int, data: seq<byte>)
      requires StorageOk(log, pages, n) && pgno in pages && pgno >= 2 && Fits(xid, 8) && |data| <= PAGE_SIZE
      requires |WrapDataItemRaw(data)| <= FreeSpace(pages[pgno])
      ensures Room(pages[pgno], WrapDataItemRaw(data))
      ensures 0 <= FreeSpace(Inserted(pages[pgno], WrapDataItemRaw(data))) <= PAGE_SIZE
    {
      hide Inserted, Fso, LogOk;
      PlaceOk(log, pages, n, xid, pgno, data);
      var more := log + [LogRecords.Insert(xid, pgno, Fso(pages[pgno]), WrapDataItemRaw(data))];
      TopBounds(more, |more|, pgno);
    }

    /** Reading back: the bytes of the item at a uid, or null if it is flagged. */
    method Read(uid: int, ghost a: Address) returns (r: ReadResult)
      requires Valid() && Recovery.Item(records, pages, a) && uid == AddressToUid(a.pgno, a.offset)
      ensures r == if IsValid(Content(records, pages, a)) then Item(Content(records, pages, a)) else Null
    {
      hide MemReady, Content, Decode, Indexed;
      AddressFits(records, pages, pageNumbers, a);
      AddressRoundTrip(a.pgno, a.offset);
      ReadsItem(records, pages, pageNumbers, a);
      var address := UidToAddress(uid);
      var pg := pages[address.pgno];
      var size := Decode(pg[address.offset + 1..address.offset + OF_ITEM_DATA]);
      var raw := pg[address.offset..address.offset + size + OF_ITEM_DATA];
      r := if raw[0] == 0 then Item(raw) else Null;
    }
  }

  // --------------------------------------------------------------- whole runs

  datatype Store = Store(log: seq<Record>, pages: Pages)
  datatype Call = Call(data: seq<byte>, res: InsertResult)

  /** What one insertion does to the items, by its result. */
  ghost predicate InsertStep(s: Store, c: Call, s': Store) {
    match c.res
    case TooLarge => s' == s
    case Busy => false
    case Overflow => s'.log == s.log && DataManager.SameItems(s.log, s.pages, s'.pages)
    case Placed(uid) =>
      DataManager.AddedItem(s.log, s.pages, s'.log, s'.pages, WrapDataItemRaw(c.data), UidToAddress(uid))
  }

  /** The states before, between and after a run's insertions. */
  ghost predicate InsertRun(states: seq<Store>, calls: seq<Call>) {
    && |states| == |calls| + 1
    && forall i, j | 0 <= i < |calls| && j == i + 1 :: InsertStep(states[i], calls[i], states[j])
  }

  ghost predicate Holds(s: Store, a: Address, raw: seq<byte>) {
    Recovery.Item(s.log, s.pages, a) && Content(s.log, s.pages, a) == raw
  }

  lemma StepHolds(s: Store, c: Call, s': Store, a: Address, raw: seq<byte>)
    requires InsertStep(s, c, s') && Holds(s, a, raw)
    ensures Holds(s', a, raw)
  {
    hide Recovery.Item, Content;
  }

  lemma {:induction false} ItemStays(states: seq<Store>, calls: seq<Call>, i: nat, j: nat, a: Address, raw: seq<byte>)
    requires InsertRun(states, calls) && i <= j < |states| && Holds(states[i], a, raw)
    ensures Holds(states[j], a, raw)
  {
    if i < j {
      hide Holds, InsertStep;
      ItemStays(states, calls, i, j - 1, a, raw);
      StepHolds(states[j - 1], calls[j - 1], states[j], a, raw);
    }
  }

  /** Over any run of insertions no uid is handed out twice, and at its end every item
      that was placed is read back at its uid, as are all items there were before. */
  lemma RunsKeepItems(states: seq<Store>, calls: seq<Call>)
    requires InsertRun(states, calls)
    ensures forall i | 0 <= i < |calls| && calls[i].res.Placed? ::
              Holds(states[|calls|], UidToAddress(calls[i].res.uid), WrapDataItemRaw(calls[i].data))
    ensures forall i, j | 0 <= i < j < |calls| && calls[i].res.Placed? && calls[j].res.Placed? ::
              calls[i].res.uid != calls[j].res.uid
    ensures forall a, raw | Holds(states[0], a, raw) :: Holds(states[|calls|], a, raw)
  {
    hide WrapDataItemRaw, UidToAddress;
    forall i | 0 <= i < |calls| && calls[i].res.Placed?
      ensures Holds(states[|calls|], UidToAddress(calls[i].res.uid), WrapDataItemRaw(calls[i].data))
    {
      PlacedHolds(states, calls, i);
      ItemStays(states, calls, i + 1, |calls|, UidToAddress(calls[i].res.uid), WrapDataItemRaw(calls[i].data));
    }
    forall i, j | 0 <= i < j < |calls| && calls[i].res.Placed? && calls[j].res.Placed?
      ensures calls[i].res.uid != calls[j].res.uid
    {
      PlacedHolds(states, calls, i);
      ItemStays(states, calls, i + 1, j, UidToAddress(calls[i].res.uid), WrapDataItemRaw(calls[i].data));
      var k := j + 1;
      assert InsertStep(states[j], calls[j], states[k]);
    }
    forall a, raw | Holds(states[0], a, raw) ensures Holds(states[|calls|], a, raw) {
      ItemStays(states, calls, 0, |calls|, a, raw);
    }
  }

  lemma PlacedHolds(states: seq<Store>, calls: seq<Call>, i: nat)
    requires InsertRun(states, calls) && i < |calls| && calls[i].res.Placed?
    ensures Holds(states[i + 1], UidToAddress(calls[i].res.uid), WrapDataItemRaw(calls[i].data))
  {
    hide WrapDataItemRaw, UidToAddress;
    var j := i + 1;
    assert InsertStep(states[i], calls[i], states[j]);
  }
}
