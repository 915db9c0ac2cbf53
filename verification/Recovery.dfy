/** Recovery from the log: redo of every record whose transaction is not active,
    then undo of the active ones, over whatever pages the crash left behind. */
module Recovery {
  import opened Bytes
  import opened LogRecords
  import opened PageX

  type Pages = map<int, Page>

  // What the log says about where things are.

  /** The free-space offset of a page after all logged insertions into it. */
  function Top(log: seq<Record>, n: nat, pgno: int): int
    requires n <= |log|
  {
    if n == 0 then OF_DATA
    else
      var r := log[n - 1];
      if r.Insert? && r.pgno == pgno then r.offset + |r.raw| else Top(log, n - 1, pgno)
  }

  /** How long the item at an address is; 0 where none was inserted. */
  function Length(log: seq<Record>, n: nat, a: Address): nat
    requires n <= |log|
  {
    if n == 0 then 0
    else
      var r := log[n - 1];
      if r.Insert? && AddressOf(r) == a then |r.raw| else Length(log, n - 1, a)
  }

  /** Record k is one that inserting and updating items can have appended: an
      insertion starts where its page's free space started, and an update replaces
      an item inserted before by one of the same length. */
  predicate RecordOk(log: seq<Record>, k: nat)
    requires k < |log|
  {
    var r := log[k];
    && r.pgno >= 1 && WellFormed(r)
    && match r
       case Insert(_, pgno, offset, raw) =>
         offset == Top(log, k, pgno) && OF_ITEM_DATA <= |raw| && offset + |raw| <= PAGE_SIZE
       case Update(_, _, _, oldRaw, newRaw) =>
         Length(log, k, AddressOf(r)) == |newRaw| > 0
  }

  ghost predicate LogOk(log: seq<Record>) {
    forall k: nat | k < |log| :: RecordOk(log, k)
  }

  lemma {:induction false} TopBounds(log: seq<Record>, n: nat, pgno: int)
    requires LogOk(log) && n <= |log|
    ensures OF_DATA <= Top(log, n, pgno) <= PAGE_SIZE
  {
    if n > 0 {
      TopBounds(log, n - 1, pgno);
      assert RecordOk(log, n - 1);
    }
  }

  lemma {:induction false} TopGrows(log: seq<Record>, m: nat, n: nat, pgno: int)
    requires LogOk(log) && m <= n <= |log|
    ensures Top(log, m, pgno) <= Top(log, n, pgno)
  {
    if m < n {
      TopGrows(log, m, n - 1, pgno);
      assert RecordOk(log, n - 1);
    }
  }

  /** An item lies on its page, below the free space. */
  lemma {:induction false} ItemBelowTop(log: seq<Record>, n: nat, a: Address)
    requires LogOk(log) && n <= |log| && Length(log, n, a) > 0
    ensures OF_DATA <= a.offset && a.offset + Length(log, n, a) <= Top(log, n, a.pgno) <= PAGE_SIZE
    ensures OnPage(a.offset, Length(log, n, a)) && a.pgno >= 1
  {
    TopBounds(log, n, a.pgno);
    var r := log[n - 1];
    assert RecordOk(log, n - 1);
    TopBounds(log, n - 1, a.pgno);
    if !(r.Insert? && AddressOf(r) == a) {
      ItemBelowTop(log, n - 1, a);
      TopGrows(log, n - 1, n, a.pgno);
    }
  }

  predicate Apart(a: Address, m: nat, b: Address, n: nat) {
    a.pgno != b.pgno || a.offset + m <= b.offset || b.offset + n <= a.offset
  }

  /** Items at different addresses never overlap. */
  lemma {:induction false} ItemsApart(log: seq<Record>, n: nat, a: Address, b: Address)
    requires LogOk(log) && n <= |log| && a != b && Length(log, n, a) > 0 && Length(log, n, b) > 0
    ensures Apart(a, Length(log, n, a), b, Length(log, n, b))
  {
    var r := log[n - 1];
    assert RecordOk(log, n - 1);
    if r.Insert? && AddressOf(r) == a {
      ItemBelowTop(log, n - 1, b);
    } else if r.Insert? && AddressOf(r) == b {
      ItemBelowTop(log, n - 1, a);
    } else {
      ItemsApart(log, n - 1, a, b);
    }
  }

  /** An item keeps its length: nothing is inserted at its address again. */
  lemma {:induction false} LengthStays(log: seq<Record>, m: nat, n: nat, a: Address)
    requires LogOk(log) && m <= n <= |log| && Length(log, m, a) > 0
    ensures Length(log, n, a) == Length(log, m, a)
  {
    if m < n {
      LengthStays(log, m, n - 1, a);
      assert RecordOk(log, n - 1);
      ItemBelowTop(log, n - 1, a);
    }
  }

  function RawOf(r: Record, undo: bool): seq<byte>
    requires r.Insert? ==> r.raw != []
  {
    match r
    case Insert(_, _, _, raw) => if undo then Flagged(raw) else raw
    case Update(_, _, _, oldRaw, newRaw) => if undo then oldRaw else newRaw
  }

  /** Record k writes at its item's address, and exactly the item's length. */
  lemma RecordFits(log: seq<Record>, k: nat, undo: bool)
    requires LogOk(log) && k < |log|
    ensures var a := AddressOf(log[k]);
            && (log[k].Insert? ==> log[k].raw != [])
            && Length(log, |log|, a) == |RawOf(log[k], undo)| > 0
            && OnPage(a.offset, |RawOf(log[k], undo)|)
            && a.offset + |RawOf(log[k], undo)| <= Top(log, |log|, a.pgno)
  {
    var a := AddressOf(log[k]);
    assert RecordOk(log, k);
    assert Length(log, k + 1, a) == |RawOf(log[k], undo)|;
    LengthStays(log, k + 1, |log|, a);
    ItemBelowTop(log, |log|, a);
  }

  // Redo and undo on the pages.

  /** doInsertLog and doUpdateLog */
  function Apply(pages: Pages, r: Record, undo: bool): Pages
    requires r.pgno in pages && (r.Insert? ==> r.raw != []) && OnPage(r.offset, |RawOf(r, undo)|)
  {
    var raw := RawOf(r, undo);
    pages[r.pgno := if r.Insert? then RecoverInserted(pages[r.pgno], raw, r.offset)
                    else RecoverUpdated(pages[r.pgno], raw, r.offset)]
  }

  /** The pages a crash can leave: every logged page is there, and no free-space
      offset is ahead of the log. Their other bytes are arbitrary. */
  ghost predicate DiskOk(log: seq<Record>, pages: Pages) {
    && (forall k | 0 <= k < |log| :: log[k].pgno in pages)
    && (forall pgno | pgno in pages :: Fso(pages[pgno]) <= Top(log, |log|, pgno))
  }

  ghost predicate Ready(log: seq<Record>, pages: Pages) {
    LogOk(log) && DiskOk(log, pages)
  }

  function ItemAt(pages: Pages, a: Address, length: nat): seq<byte>
    requires a.pgno in pages && OnPage(a.offset, length)
  {
    Stretch(pages[a.pgno], a.offset, length)
  }

  ghost predicate Item(log: seq<Record>, pages: Pages, a: Address) {
    Length(log, |log|, a) > 0 && a.pgno in pages && OnPage(a.offset, Length(log, |log|, a))
  }

  ghost function Content(log: seq<Record>, pages: Pages, a: Address): (item: seq<byte>)
    requires Item(log, pages, a)
    ensures |item| == Length(log, |log|, a)
  {
    ItemAt(pages, a, Length(log, |log|, a))
  }

  lemma {:induction false} InsertedAt(log: seq<Record>, n: nat, a: Address) returns (k: nat)
    requires n <= |log| && Length(log, n, a) > 0
    ensures k < n && log[k].Insert? && AddressOf(log[k]) == a && |log[k].raw| == Length(log, n, a)
  {
    if log[n - 1].Insert? && AddressOf(log[n - 1]) == a {
      k := n - 1;
    } else {
      k := InsertedAt(log, n - 1, a);
    }
  }

  lemma ItemIsThere(log: seq<Record>, pages: Pages, a: Address)
    requires Ready(log, pages) && Length(log, |log|, a) > 0
    ensures Item(log, pages, a)
  {
    var k := InsertedAt(log, |log|, a);
    ItemBelowTop(log, |log|, a);
  }

  predicate Applicable(log: seq<Record>, pages: Pages, k: nat, undo: bool) {
    && k < |log| && log[k].pgno in pages && (log[k].Insert? ==> log[k].raw != [])
    && OnPage(log[k].offset, |RawOf(log[k], undo)|)
  }

  lemma CanApply(log: seq<Record>, pages: Pages, k: nat, undo: bool)
    requires Ready(log, pages) && k < |log|
    ensures Applicable(log, pages, k, undo)
  {
    RecordFits(log, k, undo);
  }

  /** The effect of one record: its own item is overwritten, every other item is
      untouched, and free-space offsets grow, never past the log. */
  lemma ApplyReads(log: seq<Record>, pages: Pages, k: nat, undo: bool)
    requires Ready(log, pages) && k < |log|
    ensures Applicable(log, pages, k, undo)
    ensures var after := Apply(pages, log[k], undo);
            && Ready(log, after) && after.Keys == pages.Keys
            && (forall a | Item(log, pages, a) ::
                  && Item(log, after, a)
                  && Content(log, after, a) ==
                     if a == AddressOf(log[k]) then RawOf(log[k], undo) else Content(log, pages, a))
            && (forall pgno | pgno in pages ::
                  Fso(after[pgno]) ==
                    if log[k].Insert? && pgno == log[k].pgno && Fso(pages[pgno]) < log[k].offset + |log[k].raw|
                    then log[k].offset + |log[k].raw| else Fso(pages[pgno]))
  {
    var r := log[k];
    CanApply(log, pages, k, undo);
    RecordFits(log, k, undo);
    var raw := RawOf(r, undo);
    var after := Apply(pages, r, undo);
    var b := AddressOf(r);
    assert r.Insert? ==> |raw| == |r.raw|;
    hide LogOk, Fso, RecoverInserted, RecoverUpdated, RawOf, Top, Length, Stretch, OnPage, WellFormed;
    forall a | Item(log, pages, a)
      ensures Item(log, after, a)
      ensures Content(log, after, a) == if a == b then raw else Content(log, pages, a)
    {
      var n := Length(log, |log|, a);
      if a.pgno == b.pgno {
        if a != b {
          ItemsApart(log, |log|, a, b);
        }
        if r.Insert? {
          RecoverInsertedReads(pages[r.pgno], raw, r.offset, a.offset, n);
        } else {
          RecoverUpdatedReads(pages[r.pgno], raw, r.offset, a.offset, n);
        }
      }
    }
    if r.Insert? {
      RecoverInsertedReads(pages[r.pgno], raw, r.offset, r.offset, |raw|);
    } else {
      RecoverUpdatedReads(pages[r.pgno], raw, r.offset, r.offset, |raw|);
    }
  }

  /** One record redone or undone. */
  ghost function Step(log: seq<Record>, pages: Pages, k: nat, undo: bool): (after: Pages)
    requires Ready(log, pages) && k < |log|
    ensures Ready(log, after) && after.Keys == pages.Keys
  {
    ApplyReads(log, pages, k, undo);
    Apply(pages, log[k], undo)
  }

  /** redoTranscations, up to record n */
  ghost function Redo(log: seq<Record>, active: set<int>, pages: Pages, n: nat): (after: Pages)
    requires Ready(log, pages) && n <= |log|
    ensures Ready(log, after) && after.Keys == pages.Keys
  {
    if n == 0 then pages
    else
      var before := Redo(log, active, pages, n - 1);
      if log[n - 1].xid in active then before else Step(log, before, n - 1, false)
  }

  /** The records of one transaction undone backwards, from record n - 1 on. */
  ghost function Undo(log: seq<Record>, xid: int, pages: Pages, n: nat): (after: Pages)
    requires Ready(log, pages) && n <= |log|
    ensures Ready(log, after) && after.Keys == pages.Keys
    decreases n
  {
    if n == 0 then pages
    else Undo(log, xid, if log[n - 1].xid == xid then Step(log, pages, n - 1, true) else pages, n - 1)
  }

  /** undoTranscations: one transaction after the other, in the order `xids`. */
  ghost function UndoAll(log: seq<Record>, xids: seq<int>, pages: Pages, n: nat): (after: Pages)
    requires Ready(log, pages) && n <= |xids|
    ensures Ready(log, after) && after.Keys == pages.Keys
  {
    if n == 0 then pages else Undo(log, xids[n - 1], UndoAll(log, xids, pages, n - 1), |log|)
  }

  ghost function Recovered(log: seq<Record>, active: set<int>, xids: seq<int>, pages: Pages): (after: Pages)
    requires Ready(log, pages)
    ensures Ready(log, after) && after.Keys == pages.Keys
  {
    UndoAll(log, xids, Redo(log, active, pages, |log|), |xids|)
  }

  predicate Writes(r: Record, xid: int, a: Address) {
    r.xid == xid && AddressOf(r) == a
  }

  ghost predicate Touched(log: seq<Record>, xid: int, a: Address, n: nat)
    requires n <= |log|
  {
    exists k :: 0 <= k < n && Writes(log[k], xid, a)
  }

  /** `xids` lists the active transactions with records in the log: the keys of the
      cache that undo goes through, in any order. */
  ghost predicate Lists(xids: seq<int>, log: seq<Record>, active: set<int>) {
    forall x :: x in xids <==> x in active && exists k :: 0 <= k < |log| && log[k].xid == x
  }

  /** What row locks guarantee: nobody else writes an item after a transaction that
      is still active. */
  ghost predicate LockRule(log: seq<Record>, active: set<int>) {
    forall i, j :: 0 <= i < j < |log| && AddressOf(log[i]) == AddressOf(log[j]) && log[i].xid in active ==>
                     log[j].xid == log[i].xid
  }

  /** What the log alone says an item's bytes are after recovery: the last write
      that is not active, or what was there before the first active one. */
  ghost function Settled(log: seq<Record>, active: set<int>, a: Address, n: nat): seq<byte>
    requires n <= |log| && LogOk(log)
  {
    if n == 0 then []
    else
      var r := log[n - 1];
      assert RecordOk(log, n - 1);
      if AddressOf(r) != a then Settled(log, active, a, n - 1)
      else if r.xid !in active then RawOf(r, false)
      else if Touched(log, r.xid, a, n - 1) then Settled(log, active, a, n - 1)
      else RawOf(r, true)
  }

  lemma StepReads(log: seq<Record>, pages: Pages, k: nat, undo: bool, a: Address)
    requires Ready(log, pages) && k < |log| && Item(log, pages, a)
    ensures var after := Step(log, pages, k, undo);
            && Item(log, after, a) && (log[k].Insert? ==> log[k].raw != [])
            && Content(log, after, a) == if a == AddressOf(log[k]) then RawOf(log[k], undo) else Content(log, pages, a)
  {
    hide Ready, Item, Content, Apply, RawOf, Fso, OnPage, WellFormed;
    ApplyReads(log, pages, k, undo);
  }

  lemma StepFso(log: seq<Record>, pages: Pages, k: nat, undo: bool, pgno: int)
    requires Ready(log, pages) && k < |log| && pgno in pages
    ensures var after := Step(log, pages, k, undo);
            && Fso(pages[pgno]) <= Fso(after[pgno])
            && (log[k].Insert? && log[k].pgno == pgno ==> log[k].offset + |log[k].raw| <= Fso(after[pgno]))
  {
    hide Ready, Item, Content, Apply, RawOf, Fso, OnPage, WellFormed;
    ApplyReads(log, pages, k, undo);
  }

  // One item through redo and undo.

  ghost predicate Quiet(log: seq<Record>, active: set<int>, a: Address) {
    forall k | 0 <= k < |log| :: AddressOf(log[k]) == a ==> log[k].xid !in active
  }

  /** Redo leaves an untouched-by-active item at its last write. */
  lemma {:induction false} RedoSettles(log: seq<Record>, active: set<int>, pages: Pages, n: nat, a: Address)
    requires Ready(log, pages) && n <= |log| && Quiet(log, active, a) && Item(log, pages, a)
    ensures var after := Redo(log, active, pages, n);
            && Item(log, after, a)
            && (Length(log, n, a) > 0 ==> Content(log, after, a) == Settled(log, active, a, n))
  {
    hide Ready, LogOk, Item, Content, Step;
    if n > 0 {
      RedoSettles(log, active, pages, n - 1, a);
      var before := Redo(log, active, pages, n - 1);
      if log[n - 1].xid !in active {
        StepReads(log, before, n - 1, false, a);
      }
      FirstWriteInserts(log, pages, n, a);
    }
  }

  /** An item's first record is its insertion. */
  lemma FirstWriteInserts(log: seq<Record>, pages: Pages, n: nat, a: Address)
    requires Ready(log, pages) && 0 < n <= |log|
    ensures AddressOf(log[n - 1]) == a ==> log[n - 1].Insert? || Length(log, n - 1, a) > 0
  {
    assert RecordOk(log, n - 1);
  }

  ghost predicate Untouched(log: seq<Record>, xid: int, a: Address, n: nat)
    requires n <= |log|
  {
    forall k | 0 <= k < n :: !Writes(log[k], xid, a)
  }

  lemma {:induction false} UndoSkips(log: seq<Record>, xid: int, pages: Pages, n: nat, a: Address)
    requires Ready(log, pages) && n <= |log| && Untouched(log, xid, a, n) && Item(log, pages, a)
    ensures var after := Undo(log, xid, pages, n);
            Item(log, after, a) && Content(log, after, a) == Content(log, pages, a)
    decreases n
  {
    hide Ready, LogOk, Item, Content, Step;
    if n > 0 {
      assert !Writes(log[n - 1], xid, a);
      if log[n - 1].xid == xid {
        StepReads(log, pages, n - 1, true, a);
        UndoSkips(log, xid, Step(log, pages, n - 1, true), n - 1, a);
      } else {
        UndoSkips(log, xid, pages, n - 1, a);
      }
    }
  }

  /** Undoing a transaction brings back what its first write to the item found. */
  lemma {:induction false} UndoRestores(log: seq<Record>, xid: int, pages: Pages, n: nat, a: Address, first: nat)
    requires Ready(log, pages) && first < n <= |log| && Item(log, pages, a)
    requires Writes(log[first], xid, a) && Untouched(log, xid, a, first)
    ensures var after := Undo(log, xid, pages, n);
            && Item(log, after, a) && (log[first].Insert? ==> log[first].raw != [])
            && Content(log, after, a) == RawOf(log[first], true)
    decreases n
  {
    hide Ready, LogOk, Item, Content, Step, Untouched;
    if log[n - 1].xid == xid {
      StepReads(log, pages, n - 1, true, a);
      var before := Step(log, pages, n - 1, true);
      if n - 1 == first {
        UndoSkips(log, xid, before, n - 1, a);
      } else {
        UndoRestores(log, xid, before, n - 1, a, first);
      }
    } else {
      UndoRestores(log, xid, pages, n - 1, a, first);
    }
  }

  lemma {:induction false} UndoAllSkips(log: seq<Record>, xids: seq<int>, pages: Pages, n: nat, a: Address)
    requires Ready(log, pages) && n <= |xids| && Item(log, pages, a)
    requires forall i | 0 <= i < n :: Untouched(log, xids[i], a, |log|)
    ensures var after := UndoAll(log, xids, pages, n);
            Item(log, after, a) && Content(log, after, a) == Content(log, pages, a)
  {
    hide Ready, LogOk, Item, Content, Step, Untouched, Undo;
    if n > 0 {
      UndoAllSkips(log, xids, pages, n - 1, a);
      UndoSkips(log, xids[n - 1], UndoAll(log, xids, pages, n - 1), |log|, a);
    }
  }

  /** Whatever the others' order, the item ends as before its one active writer. */
  lemma {:induction false} UndoAllRestores(log: seq<Record>, xids: seq<int>, pages: Pages, n: nat, a: Address, xid: int, first: nat)
    requires Ready(log, pages) && n <= |xids| && Item(log, pages, a) && first < |log|
    requires Writes(log[first], xid, a) && Untouched(log, xid, a, first) && xid in xids[..n]
    requires forall i | 0 <= i < n && xids[i] != xid :: Untouched(log, xids[i], a, |log|)
    ensures var after := UndoAll(log, xids, pages, n);
            && Item(log, after, a) && (log[first].Insert? ==> log[first].raw != [])
            && Content(log, after, a) == RawOf(log[first], true)
  {
    hide Ready, LogOk, Item, Content, Step, Untouched, Undo;
    UndoAllItem(log, xids, pages, n - 1, a);
    var before := UndoAll(log, xids, pages, n - 1);
    if xids[n - 1] == xid {
      UndoRestores(log, xid, before, |log|, a, first);
    } else {
      assert xids[..n] == xids[..n - 1] + [xids[n - 1]];
      UndoAllRestores(log, xids, pages, n - 1, a, xid, first);
      UndoSkips(log, xids[n - 1], before, |log|, a);
    }
  }

  lemma UndoAllItem(log: seq<Record>, xids: seq<int>, pages: Pages, n: nat, a: Address)
    requires Ready(log, pages) && n <= |xids| && Item(log, pages, a)
    ensures Item(log, UndoAll(log, xids, pages, n), a)
  {
  }

  /** Once an active transaction has touched an item, only the state before its
      first write counts. */
  lemma {:induction false} SettledAtFirst(log: seq<Record>, active: set<int>, a: Address, n: nat, first: nat, xid: int)
    requires LogOk(log) && LockRule(log, active) && first < n <= |log| && xid in active
    requires Writes(log[first], xid, a) && Untouched(log, xid, a, first)
    ensures (log[first].Insert? ==> log[first].raw != []) && Settled(log, active, a, n) == RawOf(log[first], true)
  {
    assert RecordOk(log, first);
    if n - 1 == first {
      assert !Touched(log, xid, a, first);
    } else {
      SettledAtFirst(log, active, a, n - 1, first, xid);
      if AddressOf(log[n - 1]) == a {
        assert log[n - 1].xid == xid;
        assert Writes(log[first], xid, a);
        assert Touched(log, xid, a, n - 1);
      }
    }
  }

  lemma {:induction false} FirstTouch(log: seq<Record>, xid: int, a: Address, k: nat) returns (first: nat)
    requires k < |log| && Writes(log[k], xid, a)
    ensures first <= k && Writes(log[first], xid, a) && Untouched(log, xid, a, first)
  {
    first := 0;
    while !Writes(log[first], xid, a)
      invariant first <= k && Untouched(log, xid, a, first)
      decreases k - first
    {
      first := first + 1;
    }
  }

  /** The bytes of every item after recovery are those the log settles, whatever
      the pages held before and in whatever order transactions are undone. */
  lemma RecoveryIsDeterminedByTheLog(log: seq<Record>, active: set<int>, xids: seq<int>, pages: Pages, a: Address)
    requires Ready(log, pages) && LockRule(log, active) && Lists(xids, log, active) && Length(log, |log|, a) > 0
    ensures var after := Recovered(log, active, xids, pages);
            Item(log, after, a) && Content(log, after, a) == Settled(log, active, a, |log|)
  {
    hide Item, Content, Step, Undo, UndoAll, Redo, LogOk, DiskOk, Untouched;
    ItemIsThere(log, pages, a);
    var redone := Redo(log, active, pages, |log|);
    ItemIsThere(log, redone, a);
    if Quiet(log, active, a) {
      RedoSettles(log, active, pages, |log|, a);
      forall i | 0 <= i < |xids| ensures Untouched(log, xids[i], a, |log|) {
        assert xids[i] in xids;
        QuietUntouched(log, active, a, xids[i]);
      }
      UndoAllSkips(log, xids, redone, |xids|, a);
    } else {
      var k: nat :| k < |log| && AddressOf(log[k]) == a && log[k].xid in active;
      var xid := log[k].xid;
      assert Writes(log[k], xid, a);
      var first := FirstTouch(log, xid, a, k);
      SettledAtFirst(log, active, a, |log|, first, xid);
      assert xid in xids && xids[..|xids|] == xids;
      forall i | 0 <= i < |xids| && xids[i] != xid ensures Untouched(log, xids[i], a, |log|) {
        assert xids[i] in xids;
        OneActiveWriter(log, active, a, first, xids[i]);
      }
      UndoAllRestores(log, xids, redone, |xids|, a, xid, first);
    }
  }

  lemma QuietUntouched(log: seq<Record>, active: set<int>, a: Address, xid: int)
    requires Quiet(log, active, a) && xid in active
    ensures Untouched(log, xid, a, |log|)
  {
  }

  lemma OneActiveWriter(log: seq<Record>, active: set<int>, a: Address, first: nat, other: int)
    requires LockRule(log, active) && first < |log| && AddressOf(log[first]) == a && log[first].xid in active
    requires other in active && other != log[first].xid
    ensures Untouched(log, other, a, |log|)
  {
    forall k | 0 <= k < |log| ensures !Writes(log[k], other, a) {
      var b := AddressOf(log[k]);
      assert b == a ==> k == first || log[k].xid == log[first].xid || log[k].xid !in active;
    }
  }

  /** Of all transactions undone the i-th is the last that wrote the item. */
  ghost predicate LastUndone(log: seq<Record>, xids: seq<int>, a: Address, i: nat) {
    && i < |xids| && Touched(log, xids[i], a, |log|)
    && forall j | i < j < |xids| :: Untouched(log, xids[j], a, |log|)
  }

  lemma {:induction false} UndoAllEnds(log: seq<Record>, xids: seq<int>, pages: Pages, n: nat, a: Address, i: nat, first: nat)
    requires Ready(log, pages) && i < n <= |xids| && Item(log, pages, a) && first < |log|
    requires Writes(log[first], xids[i], a) && Untouched(log, xids[i], a, first)
    requires forall j | i < j < n :: Untouched(log, xids[j], a, |log|)
    ensures var after := UndoAll(log, xids, pages, n);
            && Item(log, after, a) && (log[first].Insert? ==> log[first].raw != [])
            && Content(log, after, a) == RawOf(log[first], true)
  {
    hide Ready, LogOk, Item, Content, Step, Untouched, Undo;
    UndoAllItem(log, xids, pages, n - 1, a);
    var before := UndoAll(log, xids, pages, n - 1);
    if n - 1 == i {
      UndoRestores(log, xids[i], before, |log|, a, first);
    } else {
      UndoAllEnds(log, xids, pages, n - 1, a, i, first);
      UndoSkips(log, xids[n - 1], before, |log|, a);
    }
  }

  /** Whoever wrote an item when, and however undoing is ordered: recovery leaves what
      the first write of the last transaction undone there found. */
  lemma RecoveryUndoes(log: seq<Record>, active: set<int>, xids: seq<int>, pages: Pages, a: Address, i: nat, first: nat)
    requires Ready(log, pages) && Length(log, |log|, a) > 0 && LastUndone(log, xids, a, i)
    requires first < |log| && Writes(log[first], xids[i], a) && Untouched(log, xids[i], a, first)
    ensures var after := Recovered(log, active, xids, pages);
            && Item(log, after, a) && (log[first].Insert? ==> log[first].raw != [])
            && Content(log, after, a) == RawOf(log[first], true)
  {
    hide Item, Content, Step, Undo, UndoAll, Redo, LogOk, DiskOk, Untouched;
    var redone := Redo(log, active, pages, |log|);
    ItemIsThere(log, redone, a);
    UndoAllEnds(log, xids, redone, |xids|, a, i, first);
  }

  /** If no active transaction wrote the item, its last write is left. */
  lemma RecoveryRedoes(log: seq<Record>, active: set<int>, xids: seq<int>, pages: Pages, a: Address, k: nat)
    requires Ready(log, pages) && Length(log, |log|, a) > 0 && Lists(xids, log, active) && Quiet(log, active, a)
    requires k < |log| && AddressOf(log[k]) == a && forall j | k < j < |log| :: AddressOf(log[j]) != a
    ensures var after := Recovered(log, active, xids, pages);
            && Item(log, after, a) && (log[k].Insert? ==> log[k].raw != [])
            && Content(log, after, a) == RawOf(log[k], false)
  {
    assert RecordOk(log, k);
    hide Item, Content, Step, Undo, UndoAll, Redo, LogOk, DiskOk, Untouched;
    ItemIsThere(log, pages, a);
    var redone := Redo(log, active, pages, |log|);
    RedoSettles(log, active, pages, |log|, a);
    SettledAtLast(log, active, a, k, |log|);
    forall i | 0 <= i < |xids| ensures Untouched(log, xids[i], a, |log|) {
      assert xids[i] in xids;
      QuietUntouched(log, active, a, xids[i]);
    }
    UndoAllSkips(log, xids, redone, |xids|, a);
  }

  lemma {:induction false} SettledAtLast(log: seq<Record>, active: set<int>, a: Address, k: nat, n: nat)
    requires LogOk(log) && k < n <= |log| && AddressOf(log[k]) == a && log[k].xid !in active
    requires forall j | k < j < n :: AddressOf(log[j]) != a
    ensures (log[k].Insert? ==> log[k].raw != []) && Settled(log, active, a, n) == RawOf(log[k], false)
  {
    assert RecordOk(log, k);
    if n - 1 > k {
      SettledAtLast(log, active, a, k, n - 1);
    }
  }

  /** An active transaction that wrote the item is among those undone, so one is last. */
  lemma {:induction false} SomeLastUndone(log: seq<Record>, xids: seq<int>, a: Address, n: nat) returns (i: nat)
    requires n <= |xids| && (exists j :: 0 <= j < n && Touched(log, xids[j], a, |log|))
    requires forall j | n <= j < |xids| :: Untouched(log, xids[j], a, |log|)
    ensures LastUndone(log, xids, a, i)
  {
    if Touched(log, xids[n - 1], a, |log|) {
      i := n - 1;
    } else {
      i := SomeLastUndone(log, xids, a, n - 1);
    }
  }

  // Free-space offsets through redo and undo.

  lemma {:induction false} RedoFso(log: seq<Record>, active: set<int>, pages: Pages, n: nat, pgno: int)
    requires Ready(log, pages) && n <= |log| && pgno in pages
    ensures var after := Redo(log, active, pages, n);
            && Fso(pages[pgno]) <= Fso(after[pgno])
            && (forall k | 0 <= k < n && log[k].Insert? && log[k].pgno == pgno && log[k].xid !in active ::
                  log[k].offset + |log[k].raw| <= Fso(after[pgno]))
  {
    hide Ready, LogOk, Step, Fso;
    if n > 0 {
      RedoFso(log, active, pages, n - 1, pgno);
      var before := Redo(log, active, pages, n - 1);
      if log[n - 1].xid !in active {
        StepFso(log, before, n - 1, false, pgno);
      }
    }
  }

  lemma {:induction false} UndoFso(log: seq<Record>, xid: int, pages: Pages, n: nat, pgno: int)
    requires Ready(log, pages) && n <= |log| && pgno in pages
    ensures var after := Undo(log, xid, pages, n);
            && Fso(pages[pgno]) <= Fso(after[pgno])
            && (forall k | 0 <= k < n && log[k].Insert? && log[k].pgno == pgno && log[k].xid == xid ::
                  log[k].offset + |log[k].raw| <= Fso(after[pgno]))
    decreases n
  {
    hide Ready, LogOk, Step, Fso;
    if n > 0 {
      if log[n - 1].xid == xid {
        StepFso(log, pages, n - 1, true, pgno);
        UndoFso(log, xid, Step(log, pages, n - 1, true), n - 1, pgno);
      } else {
        UndoFso(log, xid, pages, n - 1, pgno);
      }
    }
  }

  lemma {:induction false} UndoAllFso(log: seq<Record>, xids: seq<int>, pages: Pages, n: nat, pgno: int)
    requires Ready(log, pages) && n <= |xids| && pgno in pages
    ensures var after := UndoAll(log, xids, pages, n);
            && Fso(pages[pgno]) <= Fso(after[pgno])
            && (forall k | 0 <= k < |log| && log[k].Insert? && log[k].pgno == pgno && log[k].xid in xids[..n] ::
                  log[k].offset + |log[k].raw| <= Fso(after[pgno]))
  {
    hide Ready, LogOk, Undo, Fso;
    if n > 0 {
      UndoAllFso(log, xids, pages, n - 1, pgno);
      UndoFso(log, xids[n - 1], UndoAll(log, xids, pages, n - 1), |log|, pgno);
      assert xids[..n] == xids[..n - 1] + [xids[n - 1]];
    }
  }

  lemma {:induction false} TopIsReached(log: seq<Record>, n: nat, pgno: int) returns (k: nat)
    requires n <= |log| && Top(log, n, pgno) != OF_DATA
    ensures k < n && log[k].Insert? && log[k].pgno == pgno && log[k].offset + |log[k].raw| == Top(log, n, pgno)
  {
    if log[n - 1].Insert? && log[n - 1].pgno == pgno {
      k := n - 1;
    } else {
      k := TopIsReached(log, n - 1, pgno);
    }
  }

  /** The free space of every page that was initialised or inserted into starts, after recovery,
      at the end of its last logged insertion. */
  lemma RecoveredFso(log: seq<Record>, active: set<int>, xids: seq<int>, pages: Pages, pgno: int)
    requires Ready(log, pages) && Lists(xids, log, active) && pgno in pages
    requires OF_DATA <= Fso(pages[pgno]) || Top(log, |log|, pgno) != OF_DATA
    ensures Fso(Recovered(log, active, xids, pages)[pgno]) == Top(log, |log|, pgno)
  {
    assert DiskOk(log, Recovered(log, active, xids, pages));
    hide Ready, LogOk, Redo, UndoAll, Fso;
    var redone := Redo(log, active, pages, |log|);
    RedoFso(log, active, pages, |log|, pgno);
    UndoAllFso(log, xids, redone, |xids|, pgno);
    if Top(log, |log|, pgno) != OF_DATA {
      var k := TopIsReached(log, |log|, pgno);
      if log[k].xid in active {
        assert log[k].xid in xids;
        assert xids[..|xids|] == xids;
      }
    }
  }

  // The pages of an uninterrupted run.

  /** The bytes most recently logged for an item. */
  function Image(log: seq<Record>, a: Address, n: nat): seq<byte>
    requires n <= |log|
  {
    if n == 0 then []
    else if AddressOf(log[n - 1]) == a then (if log[n - 1].Insert? then log[n - 1].raw else log[n - 1].newRaw)
    else Image(log, a, n - 1)
  }

  /** Every update found the bytes logged last: true of a log with no crash in it. */
  ghost predicate Chained(log: seq<Record>) {
    forall k | 0 <= k < |log| && log[k].Update? :: log[k].oldRaw == Image(log, AddressOf(log[k]), k)
  }

  /** Playing only the records that are not active, in order, with the active
      insertions present but flagged. */
  ghost function Replay(log: seq<Record>, active: set<int>, a: Address, n: nat): seq<byte>
    requires n <= |log| && LogOk(log)
  {
    if n == 0 then []
    else
      var r := log[n - 1];
      assert RecordOk(log, n - 1);
      if AddressOf(r) != a then Replay(log, active, a, n - 1)
      else if r.xid !in active then RawOf(r, false)
      else if r.Insert? then Flagged(r.raw)
      else Replay(log, active, a, n - 1)
  }

  ghost predicate QuietBefore(log: seq<Record>, active: set<int>, a: Address, n: nat)
    requires n <= |log|
  {
    forall k | 0 <= k < n :: AddressOf(log[k]) == a ==> log[k].xid !in active
  }

  lemma {:induction false} ReplayIsImage(log: seq<Record>, active: set<int>, a: Address, n: nat)
    requires LogOk(log) && n <= |log| && QuietBefore(log, active, a, n)
    ensures Replay(log, active, a, n) == Image(log, a, n)
  {
    if n > 0 {
      ReplayIsImage(log, active, a, n - 1);
      assert RecordOk(log, n - 1);
    }
  }

  /** With no earlier crash in the log, what recovery settles is the replay of the
      records that are not active. */
  lemma {:induction false} SettledIsReplay(log: seq<Record>, active: set<int>, a: Address, n: nat)
    requires LogOk(log) && LockRule(log, active) && Chained(log) && n <= |log|
    ensures Settled(log, active, a, n) == Replay(log, active, a, n)
  {
    if n > 0 {
      var r := log[n - 1];
      SettledIsReplay(log, active, a, n - 1);
      assert RecordOk(log, n - 1);
      if AddressOf(r) == a && r.xid in active {
        if Touched(log, r.xid, a, n - 1) {
          var k :| 0 <= k < n - 1 && Writes(log[k], r.xid, a);
          OneInsert(log, k, n - 1);
        } else {
          assert QuietBefore(log, active, a, n - 1) by {
            forall k | 0 <= k < n - 1 ensures AddressOf(log[k]) == a ==> log[k].xid !in active {
              assert !Writes(log[k], r.xid, a);
            }
          }
          ReplayIsImage(log, active, a, n - 1);
        }
      }
    }
  }

  /** Only the first record of an item is an insertion. */
  lemma OneInsert(log: seq<Record>, k: nat, n: nat)
    requires LogOk(log) && k < n < |log| && AddressOf(log[k]) == AddressOf(log[n])
    ensures log[n].Update?
  {
    var a := AddressOf(log[n]);
    assert RecordOk(log, k) && RecordOk(log, n);
    LengthStays(log, k + 1, n, a);
    ItemBelowTop(log, n, a);
  }

  lemma TouchedIsInserted(log: seq<Record>, k: nat, n: nat, a: Address)
    requires LogOk(log) && k < n <= |log| && AddressOf(log[k]) == a
    ensures Length(log, n, a) > 0
  {
    assert RecordOk(log, k);
    LengthStays(log, k + 1, n, a);
  }
}
