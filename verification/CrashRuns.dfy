/** The storage engine through any number of crashes: rows are inserted and marked
    in memory after their log records, pages reach the disk at any time, and a
    recovery may itself be cut short before one finishes. */
module CrashRuns {
  import opened Bytes
  import opened LogRecords
  import opened PageX
  import opened Recovery
  import opened RecoveredRows
  import opened RecoverProgram
  import opened Visibility

  /** `rows` are the addresses of rows; the other items hold index nodes and the
      like, written under the super transaction. */
  datatype State = State(
    log: seq<Record>, mem: Pages, disk: Pages, status: map<int, Status>, rows: set<Address>, up: bool)

  datatype Event =
    | Begin(xid: int)
    | Commit(xid: int)
    | Abort(xid: int)
    | NewPage(pgno: int)
    | InsertRow(xid: int, pgno: int, data: seq<byte>)
    | SetXmax(xid: int, row: Address)
    | InsertItem(pgno: int, raw: seq<byte>)
    | WriteItem(item: Address, raw: seq<byte>)
    | Flush(pgno: int)
    | Crash
    | Truncate
    | ReplayOne(k: nat, undo: bool)
    | AbortLeft(xid: int)
    | Recover(xids: seq<int>)

  function Live(status: map<int, Status>): set<int> {
    set x | x in status && status[x] != Aborted
  }

  predicate IsActive(status: map<int, Status>, xid: int) {
    xid in status && status[xid] == Active
  }

  function RowRaw(xid: int, data: seq<byte>): seq<byte> {
    WrapDataItemRaw(WrapEntryRaw(xid, data))
  }

  /** Nobody else who is still active has written the row. */
  ghost predicate Locked(log: seq<Record>, status: map<int, Status>, xid: int, a: Address) {
    forall k | 0 <= k < |log| && AddressOf(log[k]) == a :: IsActive(status, log[k].xid) ==> log[k].xid == xid
  }

  ghost predicate CanInsert(s: State, pgno: int, raw: seq<byte>) {
    && s.up && pgno in s.mem && pgno >= 2 && Fits(pgno, 4)
    && OF_ITEM_DATA <= |raw| && Room(s.mem[pgno], raw)
  }

  /** When an event can happen. A row is marked only while it is valid, locked by
      its marker, and not marked by a committed transaction. */
  ghost predicate Can(s: State, e: Event) {
    match e
    case Begin(xid) => s.up && xid !in s.status && 0 < xid && Fits(xid, 8)
    case Commit(xid) => s.up && IsActive(s.status, xid)
    case Abort(xid) => s.up && IsActive(s.status, xid)
    case NewPage(pgno) => s.up && pgno !in s.mem && pgno - 1 in s.mem && pgno >= 2
    case InsertRow(xid, pgno, data) =>
      IsActive(s.status, xid) && Fits(xid, 8) && CanInsert(s, pgno, RowRaw(xid, data))
    case SetXmax(xid, row) =>
      && s.up && IsActive(s.status, xid) && Fits(xid, 8) && row in s.rows && Item(s.log, s.mem, row)
      && HoldsRow(Content(s.log, s.mem, row)) && Locked(s.log, s.status, xid, row)
      && IsValid(Content(s.log, s.mem, row))
      && (EntryOf(Content(s.log, s.mem, row)).xmax == 0 || !IsCommitted(s.status, EntryOf(Content(s.log, s.mem, row)).xmax))
    case InsertItem(pgno, raw) => CanInsert(s, pgno, raw)
    case WriteItem(item, raw) =>
      s.up && item !in s.rows && Item(s.log, s.mem, item) && |raw| == Length(s.log, |s.log|, item)
    case Flush(pgno) => s.up && pgno in s.mem && pgno in s.disk
    case Crash => s.up
    case Truncate => !s.up
    case ReplayOne(k, undo) => !s.up && k < |s.log| && Ready(s.log, s.disk)
    case AbortLeft(xid) => !s.up && IsActive(s.status, xid)
    case Recover(xids) =>
      && !s.up && Lists(xids, s.log, ActiveSet(s.status))
      && Ready(s.log, Truncated(s.disk, LastPage(s.log)))
  }

  ghost function Inserting(s: State, xid: int, pgno: int, raw: seq<byte>): State
    requires CanInsert(s, pgno, raw)
  {
    s.(log := s.log + [Insert(xid, pgno, Fso(s.mem[pgno]), raw)],
       mem := s.mem[pgno := Inserted(s.mem[pgno], raw)])
  }

  ghost function Overwriting(s: State, xid: int, a: Address, raw: seq<byte>): State
    requires Item(s.log, s.mem, a) && |raw| == Length(s.log, |s.log|, a)
  {
    s.(log := s.log + [Update(xid, a.pgno, a.offset, Content(s.log, s.mem, a), raw)],
       mem := s.mem[a.pgno := RecoverUpdated(s.mem[a.pgno], raw, a.offset)])
  }

  ghost function Next(s: State, e: Event): State
    requires Can(s, e)
  {
    match e
    case Begin(xid) => s.(status := s.status[xid := Active])
    case Commit(xid) => s.(status := s.status[xid := Committed])
    case Abort(xid) => s.(status := s.status[xid := Aborted])
    case NewPage(pgno) => s.(mem := s.mem[pgno := InitRaw()], disk := s.disk[pgno := InitRaw()])
    case InsertRow(xid, pgno, data) =>
      Inserting(s, xid, pgno, RowRaw(xid, data)).(rows := s.rows + {Address(pgno, Fso(s.mem[pgno]))})
    case SetXmax(xid, row) => Overwriting(s, xid, row, WithXmax(Content(s.log, s.mem, row), xid))
    case InsertItem(pgno, raw) => Inserting(s, SUPER_XID, pgno, raw)
    case WriteItem(item, raw) => Overwriting(s, SUPER_XID, item, raw)
    case Flush(pgno) => s.(disk := s.disk[pgno := s.mem[pgno]])
    case Crash => s.(up := false)
    case Truncate => s.(disk := Truncated(s.disk, LastPage(s.log)))
    case ReplayOne(k, undo) => s.(disk := Step(s.log, s.disk, k, undo))
    case AbortLeft(xid) => s.(status := s.status[xid := Aborted])
    case Recover(xids) =>
      var after := Recovered(s.log, ActiveSet(s.status), xids, Truncated(s.disk, LastPage(s.log)));
      s.(mem := after, disk := after, status := Withdrawn(s.status, Elements(xids)), up := true)
  }

  // What every run keeps.

  ghost predicate LogPart(s: State) {
    && LogOk(s.log)
    && 0 !in s.status
    && (forall k | 0 <= k < |s.log| :: s.log[k].pgno >= 2 && s.log[k].pgno in s.disk)
    && (forall k | 0 <= k < |s.log| :: s.log[k].xid in s.status || (s.log[k].xid == SUPER_XID && AddressOf(s.log[k]) !in s.rows))
    && (forall k | 0 <= k < |s.log| :: s.log[k].xid == SUPER_XID || AddressOf(s.log[k]) in s.rows)
    && LockRule(s.log, ActiveSet(s.status))
    && forall a | a in s.rows :: RowAt(s.log, a) && NoOverwrite(s.log, s.status, a)
  }

  ghost predicate DiskPart(log: seq<Record>, disk: Pages) {
    && 1 in disk && (forall p | p in disk :: p >= 1)
    && (forall p, q | p in disk && 1 <= q <= p :: q in disk)
    && NotAhead(log, disk)
    && forall p | p in disk && p >= 2 :: OF_DATA <= Fso(disk[p])
  }

  ghost predicate MemPart(s: State) {
    && s.mem.Keys == s.disk.Keys
    && NotAhead(s.log, s.mem)
    && (forall p | p in s.mem && p >= 2 :: Fso(s.mem[p]) == Top(s.log, |s.log|, p))
    && forall a | a in s.rows :: RowInMem(s, a)
  }

  ghost predicate RowInMem(s: State, a: Address) {
    Item(s.log, s.mem, a) && RowOk(Content(s.log, s.mem, a), s.log, Live(s.status), a)
  }

  ghost predicate Ok(s: State) {
    LogPart(s) && DiskPart(s.log, s.disk) && (s.up ==> MemPart(s))
  }

  ghost function Init(): State {
    State([], map[1 := ZeroPage()], map[1 := ZeroPage()], map[], {}, true)
  }

  lemma InitOk()
    ensures Ok(Init())
  {
    ZeroPageIsEmpty();
  }

  // Appending to the log.

  lemma {:induction false} Appended(log: seq<Record>, r: Record, n: nat, pgno: int, a: Address)
    requires n <= |log|
    ensures Top(log + [r], n, pgno) == Top(log, n, pgno) && Length(log + [r], n, a) == Length(log, n, a)
  {
    if n > 0 {
      Appended(log, r, n - 1, pgno, a);
      assert (log + [r])[n - 1] == log[n - 1];
    }
  }

  lemma AppendOk(log: seq<Record>, r: Record)
    requires LogOk(log) && RecordOk(log + [r], |log|)
    ensures LogOk(log + [r])
  {
    var more := log + [r];
    forall k: nat | k < |more| ensures RecordOk(more, k) {
      if k < |log| {
        assert RecordOk(log, k) && more[k] == log[k];
        Appended(log, r, k, log[k].pgno, AddressOf(log[k]));
      }
    }
  }

  lemma AppendReady(log: seq<Record>, r: Record, pages: Pages)
    requires Ready(log, pages) && LogOk(log + [r]) && r.pgno in pages
    ensures Ready(log + [r], pages)
  {
    forall p | p in pages ensures Fso(pages[p]) <= Top(log + [r], |log + [r]|, p) {
      Appended(log, r, |log|, p, AddressOf(r));
      TopGrows(log + [r], |log|, |log| + 1, p);
    }
  }

  lemma AppendMarks(log: seq<Record>, r: Record, n: nat, x: int, a: Address)
    requires n <= |log|
    ensures InsertedBy(log + [r], n, x, a) == InsertedBy(log, n, x, a)
    ensures DeletedBy(log + [r], n, x, a) == DeletedBy(log, n, x, a)
    ensures InsertedBy(log + [r], |log| + 1, x, a) == (InsertedBy(log, |log|, x, a) || (r.Insert? && Writes(r, x, a)))
    ensures DeletedBy(log + [r], |log| + 1, x, a) == (DeletedBy(log, |log|, x, a) || Deletion(r, x, a))
  {
    var more := log + [r];
    assert forall k | 0 <= k < |log| :: more[k] == log[k];
    assert more[|log|] == r;
  }

  lemma AppendRowRecord(log: seq<Record>, r: Record, k: nat)
    requires k < |log| && RowRecord(log, k)
    ensures RowRecord(log + [r], k)
  {
    hide InsertedBy, DeletedBy;
    assert (log + [r])[k] == log[k];
    match log[k]
    case Insert(_, _, _, _) =>
    case Update(_, _, _, oldRaw, _) =>
      AppendMarks(log, r, k, EntryOf(oldRaw).xmin, AddressOf(log[k]));
      AppendMarks(log, r, k, EntryOf(oldRaw).xmax, AddressOf(log[k]));
  }

  /** A record elsewhere leaves a row's history as it was. */
  lemma AppendElsewhere(log: seq<Record>, r: Record, status: map<int, Status>, live: set<int>, item: seq<byte>, a: Address)
    requires AddressOf(r) != a
    ensures RowAt(log, a) ==> RowAt(log + [r], a)
    ensures NoOverwrite(log, status, a) ==> NoOverwrite(log + [r], status, a)
    ensures RowOk(item, log, live, a) ==> RowOk(item, log + [r], live, a)
    ensures Length(log + [r], |log| + 1, a) == Length(log, |log|, a)
  {
    hide InsertedBy, DeletedBy, RowRecord;
    var more := log + [r];
    assert forall k | 0 <= k < |log| :: more[k] == log[k];
    Appended(log, r, |log|, a.pgno, a);
    if RowAt(log, a) {
      forall k: nat | k < |more| && AddressOf(more[k]) == a ensures RowRecord(more, k) {
        AppendRowRecord(log, r, k);
      }
    }
    if RowOk(item, log, live, a) {
      AppendMarks(log, r, |log|, EntryOf(item).xmin, a);
      AppendMarks(log, r, |log|, EntryOf(item).xmax, a);
      forall x | DeletedBy(more, |more|, x, a) && x in live ensures EntryOf(item).xmax == x {
        AppendMarks(log, r, |log|, x, a);
      }
    }
  }

  // Writing an item.

  ghost predicate MemReady(log: seq<Record>, mem: Pages) {
    && Ready(log, mem)
    && (forall p | p in mem && p >= 2 :: Fso(mem[p]) == Top(log, |log|, p))
  }

  ghost predicate SameElsewhere(log: seq<Record>, mem: Pages, more: seq<Record>, after: Pages, a: Address) {
    forall b | b != a && Item(log, mem, b) :: Item(more, after, b) && Content(more, after, b) == Content(log, mem, b)
  }

  lemma NoRecordsAt(log: seq<Record>, a: Address)
    requires LogOk(log) && a.offset == Top(log, |log|, a.pgno)
    ensures Length(log, |log|, a) == 0 && forall k | 0 <= k < |log| :: AddressOf(log[k]) != a
  {
    if Length(log, |log|, a) > 0 {
      ItemBelowTop(log, |log|, a);
    }
    forall k | 0 <= k < |log| ensures AddressOf(log[k]) != a {
      if AddressOf(log[k]) == a {
        TouchedIsInserted(log, k, |log|, a);
      }
    }
  }

  /** An insertion opens a new item at the end of its page's items and touches no
      other. */
  lemma InsertEffect(s: State, xid: int, pgno: int, raw: seq<byte>)
    requires MemReady(s.log, s.mem) && CanInsert(s, pgno, raw) && Fits(xid, 8)
    ensures var after, a := Inserting(s, xid, pgno, raw), Address(pgno, Fso(s.mem[pgno]));
            && LogOk(after.log) && MemReady(after.log, after.mem) && after.mem.Keys == s.mem.Keys
            && (forall k | 0 <= k < |s.log| :: AddressOf(s.log[k]) != a)
            && Item(after.log, after.mem, a) && Content(after.log, after.mem, a) == raw
            && SameElsewhere(s.log, s.mem, after.log, after.mem, a)
  {
    hide RecoverInserted, Inserted, Stretch, Content, Fits, Half;
    var off := Fso(s.mem[pgno]);
    var r, a := Insert(xid, pgno, off, raw), Address(pgno, off);
    var more := s.log + [r];
    assert off == Top(s.log, |s.log|, pgno);
    NoRecordsAt(s.log, a);
    Appended(s.log, r, |s.log|, pgno, a);
    ShortFits(off);
    assert more[|s.log|] == r && WellFormed(r);
    assert RecordOk(more, |s.log|);
    AppendOk(s.log, r);
    AppendReady(s.log, r, s.mem);
    InsertedIsRecovered(s.mem[pgno], raw);
    Written(s.log, r, s.mem);
  }

  lemma ContentStays(log: seq<Record>, more: seq<Record>, pages: Pages, after: Pages, a: Address)
    requires Item(log, pages, a) && Length(more, |more|, a) == Length(log, |log|, a)
    requires a.pgno in after && after[a.pgno] == pages[a.pgno]
    ensures Item(more, after, a) && Content(more, after, a) == Content(log, pages, a)
  {
  }

  lemma OneRecordOk(log: seq<Record>, k: nat)
    requires LogOk(log) && k < |log|
    ensures RecordOk(log, k)
  {
  }

  /** Redoing the newest record is what the running engine does to its pages. */
  lemma Written(log: seq<Record>, r: Record, mem: Pages)
    requires MemReady(log, mem) && Ready(log + [r], mem)
    ensures Applicable(log + [r], mem, |log|, false)
    ensures var more, after := log + [r], Apply(mem, r, false);
            && MemReady(more, after) && after.Keys == mem.Keys
            && Item(more, after, AddressOf(r)) && Content(more, after, AddressOf(r)) == RawOf(r, false)
            && SameElsewhere(log, mem, more, after, AddressOf(r))
  {
    hide RecoverInserted, RecoverUpdated, Content, LogOk, DiskOk, Apply, WellFormed;
    var more := log + [r];
    assert more[|log|] == r;
    ApplyReads(more, mem, |log|, false);
    var after := Apply(mem, r, false);
    ItemIsThere(more, mem, AddressOf(r)) by { RecordFits(more, |log|, false); }
    forall b | b != AddressOf(r) && Item(log, mem, b)
      ensures Item(more, after, b) && Content(more, after, b) == Content(log, mem, b)
    {
      Appended(log, r, |log|, b.pgno, b);
      ContentStays(log, more, mem, mem, b);
    }
    forall p | p in after && p >= 2 ensures Fso(after[p]) == Top(more, |more|, p) {
      Appended(log, r, |log|, p, AddressOf(r));
      OneRecordOk(more, |log|);
    }
  }

  /** Overwriting an item changes it alone. */
  lemma OverwriteEffect(s: State, xid: int, a: Address, raw: seq<byte>)
    requires MemReady(s.log, s.mem) && Item(s.log, s.mem, a) && |raw| == Length(s.log, |s.log|, a)
    requires Fits(xid, 8) && Fits(a.pgno, 4)
    ensures var after := Overwriting(s, xid, a, raw);
            && LogOk(after.log) && MemReady(after.log, after.mem) && after.mem.Keys == s.mem.Keys
            && Item(after.log, after.mem, a) && Content(after.log, after.mem, a) == raw
            && SameElsewhere(s.log, s.mem, after.log, after.mem, a)
  {
    hide RecoverUpdated, Stretch, Content, Fits, Half;
    ItemBelowTop(s.log, |s.log|, a);
    var r := Update(xid, a.pgno, a.offset, Content(s.log, s.mem, a), raw);
    var more := s.log + [r];
    Appended(s.log, r, |s.log|, a.pgno, a);
    ShortFits(a.offset);
    assert more[|s.log|] == r && WellFormed(r);
    assert RecordOk(more, |s.log|);
    AppendOk(s.log, r);
    AppendReady(s.log, r, s.mem);
    Written(s.log, r, s.mem);
  }

  // Every event keeps Ok.

  lemma UpReady(s: State)
    requires Ok(s) && s.up
    ensures MemReady(s.log, s.mem)
  {
  }

  lemma DiskStays(s: State, r: Record, after: State)
    requires Ok(s) && LogOk(after.log) && after.log == s.log + [r] && after.disk == s.disk && r.pgno in s.disk
    ensures DiskPart(after.log, after.disk)
  {
    hide LogOk, Fso;
    forall p | p in s.disk ensures Fso(s.disk[p]) <= Top(after.log, |after.log|, p) {
      Appended(s.log, r, |s.log|, p, AddressOf(r));
      TopGrows(after.log, |s.log|, |after.log|, p);
    }
  }

  lemma AppendLocks(log: seq<Record>, r: Record, active: set<int>)
    requires LockRule(log, active)
    requires forall k | 0 <= k < |log| && AddressOf(log[k]) == AddressOf(r) && log[k].xid in active :: log[k].xid == r.xid
    ensures LockRule(log + [r], active)
  {
    var more := log + [r];
    assert forall k | 0 <= k < |log| :: more[k] == log[k];
  }

  lemma LogGrows(s: State, r: Record, after: State)
    requires LogPart(s) && after.log == s.log + [r] && after.status == s.status && after.disk == s.disk
    requires LogOk(after.log) && LockRule(after.log, ActiveSet(s.status)) && r.pgno >= 2 && r.pgno in s.disk
    requires r.xid in s.status || (r.xid == SUPER_XID && AddressOf(r) !in after.rows)
    requires r.xid == SUPER_XID || AddressOf(r) in after.rows
    requires s.rows <= after.rows <= s.rows + {AddressOf(r)}
    requires AddressOf(r) in s.rows || AddressOf(r) !in after.rows || forall k | 0 <= k < |s.log| :: AddressOf(s.log[k]) != AddressOf(r)
    requires forall b | b in after.rows :: RowAt(after.log, b) && NoOverwrite(after.log, s.status, b)
    ensures LogPart(after)
  {
    hide LogOk, LockRule, RowAt, NoOverwrite;
    forall k | 0 <= k < |after.log| ensures after.log[k] == if k < |s.log| then s.log[k] else r {
    }
  }

  /** The rows other than the one written stay as they are. */
  lemma OtherRow(s: State, r: Record, after: State, b: Address)
    requires b in s.rows && RowAt(s.log, b) && NoOverwrite(s.log, s.status, b) && RowInMem(s, b)
    requires after.log == s.log + [r] && after.status == s.status && AddressOf(r) != b
    requires SameElsewhere(s.log, s.mem, after.log, after.mem, AddressOf(r))
    ensures RowAt(after.log, b) && NoOverwrite(after.log, after.status, b) && RowInMem(after, b)
  {
    hide RowOk, RowAt, NoOverwrite, Content, Item;
    AppendElsewhere(s.log, r, s.status, Live(s.status), Content(s.log, s.mem, b), b);
  }

  lemma RowRawReads(xid: int, data: seq<byte>)
    requires Fits(xid, 8)
    ensures HoldsRow(RowRaw(xid, data)) && IsValid(RowRaw(xid, data)) && EntryOf(RowRaw(xid, data)) == Entry(xid, 0)
  {
    NewRow(xid, data);
  }

  lemma NewRowOk(log: seq<Record>, r: Record, status: map<int, Status>, live: set<int>, data: seq<byte>)
    requires r.Insert? && Fits(r.xid, 8) && r.raw == RowRaw(r.xid, data)
    requires forall k | 0 <= k < |log| :: AddressOf(log[k]) != AddressOf(r)
    ensures var a := AddressOf(r);
            RowAt(log + [r], a) && NoOverwrite(log + [r], status, a) && RowOk(r.raw, log + [r], live, a)
  {
    var more, a := log + [r], AddressOf(r);
    hide RowRaw, EntryOf, IsValid;
    RowRawReads(r.xid, data);
    assert forall k | 0 <= k < |log| :: more[k] == log[k];
    assert more[|log|] == r && Writes(r, r.xid, a);
    assert RowRecord(more, |log|);
    forall x ensures !DeletedBy(more, |more|, x, a) {
    }
  }

  lemma InsertRowOk(s: State, e: Event)
    requires Ok(s) && e.InsertRow? && Can(s, e)
    ensures Ok(Next(s, e))
  {
    hide Content, Item, RowOk, RowAt, NoOverwrite, LogOk, RowRaw, Inserted, Fits, Room;
    var raw := RowRaw(e.xid, e.data);
    var a := Address(e.pgno, Fso(s.mem[e.pgno]));
    var r := Insert(e.xid, e.pgno, a.offset, raw);
    UpReady(s);
    InsertEffect(s, e.xid, e.pgno, raw);
    var after := Next(s, e);
    DiskStays(s, r, after);
    AppendLocks(s.log, r, ActiveSet(s.status));
    NewRowOk(s.log, r, s.status, Live(s.status), e.data);
    forall b | b in after.rows ensures RowAt(after.log, b) && NoOverwrite(after.log, after.status, b) && RowInMem(after, b) {
      if b != a {
        OtherRow(s, r, Inserting(s, e.xid, e.pgno, raw), b);
      }
    }
    LogGrows(s, r, after);
  }

  lemma NoRowAt(log: seq<Record>, a: Address, b: Address)
    requires LogOk(log) && a.offset == Top(log, |log|, a.pgno) && RowAt(log, b)
    ensures b != a
  {
    NoRecordsAt(log, a);
  }

  lemma InsertItemOk(s: State, e: Event)
    requires Ok(s) && e.InsertItem? && Can(s, e)
    ensures Ok(Next(s, e))
  {
    hide Content, Item, RowOk, RowAt, NoOverwrite, LogOk, Inserted, Room;
    var a := Address(e.pgno, Fso(s.mem[e.pgno]));
    var r := Insert(SUPER_XID, e.pgno, a.offset, e.raw);
    UpReady(s);
    Halves();
    InsertEffect(s, SUPER_XID, e.pgno, e.raw);
    var after := Next(s, e);
    DiskStays(s, r, after);
    AppendLocks(s.log, r, ActiveSet(s.status));
    forall b | b in after.rows ensures b != a && RowAt(after.log, b) && NoOverwrite(after.log, after.status, b) && RowInMem(after, b) {
      assert RowAt(s.log, b) && RowInMem(s, b);
      NoRowAt(s.log, a, b);
      OtherRow(s, r, after, b);
    }
    LogGrows(s, r, after);
  }

  /** Marking a valid row whose mark no committed deleter holds keeps the row's
      history in order. */
  lemma MarkedRowOk(log: seq<Record>, status: map<int, Status>, a: Address, r: Record, xid: int)
    requires LogOk(log) && RowAt(log, a) && NoOverwrite(log, status, a) && LockRule(log, ActiveSet(status))
    requires r.Update? && AddressOf(r) == a && r.xid == xid && IsActive(status, xid) && Fits(xid, 8)
    requires HoldsRow(r.oldRaw) && r.newRaw == WithXmax(r.oldRaw, xid) && IsValid(r.oldRaw)
    requires RowOk(r.oldRaw, log, Live(status), a) && Locked(log, status, xid, a)
    requires EntryOf(r.oldRaw).xmax == 0 || !IsCommitted(status, EntryOf(r.oldRaw).xmax)
    requires 0 !in status
    requires forall k | 0 <= k < |log| && AddressOf(log[k]) == a :: log[k].xid in status
    ensures RowAt(log + [r], a) && NoOverwrite(log + [r], status, a)
    ensures RowOk(r.newRaw, log + [r], Live(status), a)
  {
    hide LogOk, IsValid, EntryOf, WithXmax, RowRecord, InsertedBy, DeletedBy;
    var more, e := log + [r], EntryOf(r.oldRaw);
    WithXmaxReads(r.oldRaw, xid);
    assert forall k | 0 <= k < |log| :: more[k] == log[k];
    assert more[|log|] == r && Deletion(r, xid, a);
    AppendMarks(log, r, |log|, e.xmin, a);
    AppendMarks(log, r, |log|, e.xmax, a);
    AppendMarks(log, r, |log|, xid, a);
    MarkIsRowRecord(log, r);
    forall k: nat | k < |more| && AddressOf(more[k]) == a ensures RowRecord(more, k) {
      if k < |log| {
        AppendRowRecord(log, r, k);
      }
    }
    Appended(log, r, |log|, a.pgno, a);
    forall k | 0 <= k < |log| && AddressOf(log[k]) == a && log[k].Update? ensures !IsCommitted(status, log[k].xid) {
      assert Deletion(log[k], log[k].xid, a);
      DeletedHere(log, k);
      var x := log[k].xid;
      assert x in status && IsCommitted(status, x) ==> x in Live(status);
    }
    forall x | DeletedBy(more, |more|, x, a) && x in Live(status) ensures x == xid {
      AppendMarks(log, r, |log|, x, a);
      if DeletedBy(log, |log|, x, a) {
        var k := DeletionOf(log, x, a);
        assert IsActive(status, log[k].xid);
      }
    }
  }

  lemma MarkIsRowRecord(log: seq<Record>, r: Record)
    requires r.Update? && HoldsRow(r.oldRaw) && HoldsRow(r.newRaw) && IsValid(r.oldRaw) && IsValid(r.newRaw)
    requires EntryOf(r.newRaw) == Entry(EntryOf(r.oldRaw).xmin, r.xid)
    requires InsertedBy(log + [r], |log|, EntryOf(r.oldRaw).xmin, AddressOf(r))
    requires EntryOf(r.oldRaw).xmax == 0 || DeletedBy(log + [r], |log|, EntryOf(r.oldRaw).xmax, AddressOf(r))
    ensures RowRecord(log + [r], |log|)
  {
    hide IsValid, EntryOf, InsertedBy, DeletedBy;
    assert (log + [r])[|log|] == r;
  }

  lemma DeletedHere(log: seq<Record>, k: nat)
    requires k < |log| && log[k].Update?
    ensures DeletedBy(log, |log|, log[k].xid, AddressOf(log[k]))
  {
    assert Deletion(log[k], log[k].xid, AddressOf(log[k]));
  }

  lemma DeletionOf(log: seq<Record>, xid: int, a: Address) returns (k: nat)
    requires DeletedBy(log, |log|, xid, a)
    ensures k < |log| && Deletion(log[k], xid, a)
  {
    var i :| 0 <= i < |log| && Deletion(log[i], xid, a);
    k := i;
  }

  lemma SetXmaxOk(s: State, e: Event)
    requires Ok(s) && e.SetXmax? && Can(s, e)
    ensures Ok(Next(s, e))
  {
    hide Content, RowOk, RowAt, NoOverwrite, LogOk, WithXmax, IsValid, EntryOf, Fits;
    var a, was := e.row, Content(s.log, s.mem, e.row);
    assert RowInMem(s, a);
    var r := Update(e.xid, a.pgno, a.offset, was, WithXmax(was, e.xid));
    UpReady(s);
    PageFits(s, a);
    WithXmaxReads(was, e.xid);
    OverwriteEffect(s, e.xid, a, WithXmax(was, e.xid));
    var after := Next(s, e);
    DiskStays(s, r, after);
    AppendLocks(s.log, r, ActiveSet(s.status));
    forall k | 0 <= k < |s.log| && AddressOf(s.log[k]) == a ensures s.log[k].xid in s.status {
    }
    MarkedRowOk(s.log, s.status, a, r, e.xid);
    forall b | b in after.rows ensures RowAt(after.log, b) && NoOverwrite(after.log, after.status, b) && RowInMem(after, b) {
      if b != a {
        OtherRow(s, r, after, b);
      }
    }
    LogGrows(s, r, after);
  }

  /** The page number of an item was logged, so it fits its field. */
  lemma PageFits(s: State, a: Address)
    requires LogPart(s) && Length(s.log, |s.log|, a) > 0
    ensures Fits(a.pgno, 4) && a.pgno >= 2 && a.pgno in s.disk
  {
    var k := InsertedAt(s.log, |s.log|, a);
    assert RecordOk(s.log, k);
  }

  lemma WriteItemOk(s: State, e: Event)
    requires Ok(s) && e.WriteItem? && Can(s, e)
    ensures Ok(Next(s, e))
  {
    hide Content, RowOk, RowAt, NoOverwrite, LogOk;
    var a := e.item;
    var r := Update(SUPER_XID, a.pgno, a.offset, Content(s.log, s.mem, a), e.raw);
    UpReady(s);
    PageFits(s, a);
    Halves();
    OverwriteEffect(s, SUPER_XID, a, e.raw);
    var after := Next(s, e);
    DiskStays(s, r, after);
    AppendLocks(s.log, r, ActiveSet(s.status));
    forall b | b in after.rows ensures RowAt(after.log, b) && NoOverwrite(after.log, after.status, b) && RowInMem(after, b) {
      OtherRow(s, r, after, b);
    }
    LogGrows(s, r, after);
  }

  /** Begin, Commit and Abort: a transaction that ends gives up its locks, so its
      deletions are the last of their rows when it commits. */
  lemma StatusOk(s: State, e: Event)
    requires Ok(s) && (e.Begin? || e.Commit? || e.Abort? || e.AbortLeft?) && Can(s, e)
    ensures Ok(Next(s, e))
  {
    hide LogOk, Content, Item, RowAt, DiskPart, RowOk, NoOverwrite, LockRule;
    var after := Next(s, e);
    assert forall k | 0 <= k < |s.log| :: e.Begin? ==> s.log[k].xid != e.xid;
    StatusChanges(s.log, s.status, after.status, e.xid);
    forall a | a in s.rows ensures NoOverwrite(s.log, after.status, a) {
      EndedDeletion(s.log, s.status, after.status, e.xid, a);
    }
    if after.up {
      forall a | a in s.rows ensures RowInMem(after, a) {
        assert RowInMem(s, a);
        LiveShrinks(Content(s.log, s.mem, a), s.log, Live(s.status), Live(after.status), a);
      }
    }
  }

  ghost predicate OneMoves(log: seq<Record>, status: map<int, Status>, now: map<int, Status>, xid: int) {
    || (xid !in status && now == status[xid := Active] && forall k | 0 <= k < |log| :: log[k].xid != xid)
    || (IsActive(status, xid) && (now == status[xid := Committed] || now == status[xid := Aborted]))
  }

  lemma StatusChanges(log: seq<Record>, status: map<int, Status>, now: map<int, Status>, xid: int)
    requires LockRule(log, ActiveSet(status)) && OneMoves(log, status, now, xid)
    ensures LockRule(log, ActiveSet(now))
  {
    assert forall k | 0 <= k < |log| :: log[k].xid in ActiveSet(now) ==> log[k].xid in ActiveSet(status);
  }

  /** When a deleter commits, the lock rule has kept everyone else from writing the
      row after it. */
  lemma EndedDeletion(log: seq<Record>, status: map<int, Status>, now: map<int, Status>, xid: int, a: Address)
    requires LockRule(log, ActiveSet(status)) && OneMoves(log, status, now, xid) && NoOverwrite(log, status, a)
    ensures NoOverwrite(log, now, a)
  {
    forall i, j | 0 <= i < j < |log| && AddressOf(log[i]) == a && AddressOf(log[j]) == a
      ensures log[i].Update? && IsCommitted(now, log[i].xid) ==> log[j].xid == log[i].xid
    {
      assert IsCommitted(now, log[i].xid) ==> IsCommitted(status, log[i].xid) || log[i].xid in ActiveSet(status);
    }
  }

  /** Only transactions with records in the log matter to its rows. */
  lemma LiveShrinks(item: seq<byte>, log: seq<Record>, live: set<int>, now: set<int>, a: Address)
    requires RowOk(item, log, live, a)
    requires forall k | 0 <= k < |log| :: log[k].xid in now ==> log[k].xid in live
    ensures RowOk(item, log, now, a)
  {
    hide EntryOf, IsValid;
  }

  lemma PagesOk(s: State, e: Event)
    requires Ok(s) && (e.NewPage? || e.Flush? || e.Crash?) && Can(s, e)
    ensures Ok(Next(s, e))
  {
    hide LogOk, RowOk, RowAt, NoOverwrite, Fso, InitRaw;
    var after := Next(s, e);
    if e.NewPage? {
      InitRawIsEmpty();
      assert Top(s.log, |s.log|, e.pgno) == OF_DATA by {
        if Top(s.log, |s.log|, e.pgno) != OF_DATA {
          var k := TopIsReached(s.log, |s.log|, e.pgno);
        }
      }
      forall a | a in s.rows ensures RowInMem(after, a) {
        assert RowInMem(s, a);
      }
    } else {
      forall a | a in s.rows && after.up ensures RowInMem(after, a) {
        assert RowInMem(s, a);
      }
    }
  }

  // Crashing and coming back.

  /** No logged page is beyond the cut, so truncation adds no page and drops none
      that holds an item. */
  lemma TruncateOk(log: seq<Record>, disk: Pages)
    requires LogOk(log) && DiskPart(log, disk) && forall k | 0 <= k < |log| :: log[k].pgno in disk
    ensures var after := Truncated(disk, LastPage(log));
            && DiskPart(log, after) && Ready(log, after)
            && (forall p | p in after :: p in disk && after[p] == disk[p])
            && forall k | 0 <= k < |log| :: log[k].pgno in after
  {
    hide LogOk, Fso;
    TruncatedIsReady(log, disk);
    LastPageIsThere(log, disk, |log|);
    assert forall p | 1 <= p <= LastPage(log) :: p in disk;
  }

  lemma {:induction false} LastPageIsThere(log: seq<Record>, disk: Pages, n: nat)
    requires n <= |log| && forall k | 0 <= k < n :: log[k].pgno in disk
    ensures MaxPgno(log, n) == 0 || MaxPgno(log, n) in disk
  {
    if n > 0 {
      LastPageIsThere(log, disk, n - 1);
    }
  }

  lemma DownOk(s: State, e: Event)
    requires Ok(s) && (e.Truncate? || e.ReplayOne?) && Can(s, e)
    ensures Ok(Next(s, e))
  {
    hide LogOk, Fso, RowAt, NoOverwrite, LockRule, Step;
    if e.Truncate? {
      TruncateOk(s.log, s.disk);
    } else {
      forall p | p in s.disk && p >= 2 ensures OF_DATA <= Fso(Next(s, e).disk[p]) {
        StepFso(s.log, s.disk, e.k, e.undo, p);
      }
    }
  }

  /** A finished recovery leaves pages that insertions can go on with. */
  lemma RecoveredPagesOk(log: seq<Record>, active: set<int>, xids: seq<int>, disk: Pages)
    requires LogOk(log) && DiskPart(log, disk) && Lists(xids, log, active)
    requires forall k | 0 <= k < |log| :: log[k].pgno in disk
    requires Ready(log, Truncated(disk, LastPage(log)))
    ensures var after := Recovered(log, active, xids, Truncated(disk, LastPage(log)));
            && DiskPart(log, after) && NotAhead(log, after) && (forall k | 0 <= k < |log| :: log[k].pgno in after)
            && forall p | p in after && p >= 2 :: Fso(after[p]) == Top(log, |log|, p)
  {
    hide LogOk, Fso, Recovered, Lists, Truncated, LastPage;
    var pages := Truncated(disk, LastPage(log));
    TruncateOk(log, disk);
    var after := Recovered(log, active, xids, pages);
    forall p | p in after && p >= 2 ensures OF_DATA <= Fso(after[p]) == Top(log, |log|, p) {
      RecoveredFso(log, active, xids, pages, p);
      TopBounds(log, |log|, p);
    }
  }

  lemma FewerLocks(log: seq<Record>, active: set<int>, now: set<int>)
    requires LockRule(log, active) && now <= active
    ensures LockRule(log, now)
  {
  }

  lemma SameCommitted(log: seq<Record>, status: map<int, Status>, now: map<int, Status>, a: Address)
    requires RowAt(log, a) && NoOverwrite(log, status, a) && forall x :: IsCommitted(now, x) == IsCommitted(status, x)
    ensures NoOverwrite(log, now, a) && Length(log, |log|, a) > 0
  {
  }

  /** A finished recovery brings the engine up with every row in order. */
  lemma RecoverOk(s: State, e: Event)
    requires Ok(s) && e.Recover? && Can(s, e)
    ensures Ok(Next(s, e))
  {
    hide LogOk, Fso, RowAt, NoOverwrite, LockRule, Recovered, Content, Item, RowOk, Lists, Truncated, LastPage, DiskPart, Ready;
    var active := ActiveSet(s.status);
    var pages := Truncated(s.disk, LastPage(s.log));
    RecoveredPagesOk(s.log, active, e.xids, s.disk);
    var after := Next(s, e);
    WithdrawnStatus(s.log, s.status, e.xids);
    FewerLocks(s.log, active, ActiveSet(after.status));
    forall a | a in s.rows ensures NoOverwrite(s.log, after.status, a) && RowInMem(after, a) {
      SameCommitted(s.log, s.status, after.status, a);
      var committed := set x | x in s.status && s.status[x] == Committed;
      SettledRowOk(s.log, active, s.status, committed, a);
      RecoveryIsDeterminedByTheLog(s.log, active, e.xids, pages, a);
      LiveShrinks(Content(s.log, after.mem, a), s.log, committed, Live(after.status), a);
    }
  }

  /** Recovery aborts exactly the active transactions that left records. */
  lemma WithdrawnStatus(log: seq<Record>, status: map<int, Status>, xids: seq<int>)
    requires Lists(xids, log, ActiveSet(status))
    requires 0 !in status
    ensures var now := Withdrawn(status, Elements(xids));
            && now.Keys == status.Keys
            && (forall x :: IsCommitted(now, x) == IsCommitted(status, x))
            && (forall x | x in ActiveSet(now) :: x in ActiveSet(status))
            && forall k | 0 <= k < |log| :: log[k].xid in Live(now) ==> status[log[k].xid] == Committed
  {
    var now := Withdrawn(status, Elements(xids));
    forall x ensures x in Elements(xids) ==> x in ActiveSet(status) {
      assert x in Elements(xids) <==> x in xids;
    }
    forall k | 0 <= k < |log| && log[k].xid in Live(now) ensures status[log[k].xid] == Committed {
      assert log[k].xid in Elements(xids) <==> log[k].xid in xids;
    }
  }

  /** Every event keeps Ok. */
  lemma NextOk(s: State, e: Event)
    requires Ok(s) && Can(s, e)
    ensures Ok(Next(s, e))
  {
    hide Ok, Can, Next;
    match e
    case Begin(_) => StatusOk(s, e);
    case Commit(_) => StatusOk(s, e);
    case Abort(_) => StatusOk(s, e);
    case AbortLeft(_) => StatusOk(s, e);
    case NewPage(_) => PagesOk(s, e);
    case Flush(_) => PagesOk(s, e);
    case Crash => PagesOk(s, e);
    case InsertRow(_, _, _) => InsertRowOk(s, e);
    case SetXmax(_, _) => SetXmaxOk(s, e);
    case InsertItem(_, _) => InsertItemOk(s, e);
    case WriteItem(_, _) => WriteItemOk(s, e);
    case Truncate => DownOk(s, e);
    case ReplayOne(_, _) => DownOk(s, e);
    case Recover(_) => RecoverOk(s, e);
  }

  // Runs.

  ghost predicate Runs(s: State, events: seq<Event>, n: nat)
    requires n <= |events|
    decreases |events| - n
  {
    n == |events| || (Can(s, events[n]) && Runs(Next(s, events[n]), events, n + 1))
  }

  ghost function After(s: State, events: seq<Event>, n: nat): State
    requires n <= |events| && Runs(s, events, n)
    decreases |events| - n
  {
    if n == |events| then s else After(Next(s, events[n]), events, n + 1)
  }

  lemma {:induction false} RunOk(s: State, events: seq<Event>, n: nat)
    requires Ok(s) && n <= |events| && Runs(s, events, n)
    ensures Ok(After(s, events, n))
    decreases |events| - n
  {
    hide Ok, Can, Next;
    if n < |events| {
      NextOk(s, events[n]);
      RunOk(Next(s, events[n]), events, n + 1);
    }
  }

  lemma RowWriters(s: State, a: Address, x: int)
    requires LogPart(s) && a in s.rows && (InsertedBy(s.log, |s.log|, x, a) || DeletedBy(s.log, |s.log|, x, a))
    ensures x in s.status
  {
    hide LogOk, LockRule, RowAt, NoOverwrite;
    if InsertedBy(s.log, |s.log|, x, a) {
      var k :| 0 <= k < |s.log| && s.log[k].Insert? && Writes(s.log[k], x, a);
      assert s.log[k].xid in s.status;
    } else {
      var k :| 0 <= k < |s.log| && Deletion(s.log[k], x, a);
      assert s.log[k].xid in s.status;
    }
  }

  lemma LogPartHas(s: State)
    requires LogPart(s)
    ensures LogOk(s.log) && 0 !in s.status
  {
  }

  /** In every run, through any number of crashes and cut-short recoveries, a reader
      beginning after everything logged sees a row exactly when its inserter
      committed and none of its deleters did. */
  lemma RowsSurviveCrashes(events: seq<Event>, a: Address, t: Transaction)
    requires Runs(Init(), events, 0)
    requires var s := After(Init(), events, 0); s.up && a in s.rows && FreshReader(s.log, t)
    ensures var s := After(Init(), events, 0);
            && Item(s.log, s.mem, a) && HoldsRow(Content(s.log, s.mem, a))
            && (Seen(Content(s.log, s.mem, a), s.status, t) <==> CommittedRow(s.log, s.status, a))
  {
    hide Content, Item, Seen, LogOk, CommittedRow, InsertedBy, DeletedBy, LogPart, DiskPart, FreshReader, Runs, After;
    InitOk();
    RunOk(Init(), events, 0);
    var s := After(Init(), events, 0);
    assert RowInMem(s, a);
    forall x | InsertedBy(s.log, |s.log|, x, a) || DeletedBy(s.log, |s.log|, x, a) ensures x in s.status {
      RowWriters(s, a, x);
    }
    LogPartHas(s);
    RowOkIsSeen(Content(s.log, s.mem, a), s.log, s.status, Live(s.status), a, t);
  }

  ghost predicate Later(s: State, t: State) {
    && s.log <= t.log && s.rows <= t.rows
    && forall x :: IsCommitted(s.status, x) ==> IsCommitted(t.status, x)
  }

  /** The log and the committed transactions only grow. */
  lemma NextLater(s: State, e: Event)
    requires Ok(s) && Can(s, e)
    ensures Later(s, Next(s, e))
  {
    hide LogOk, DiskPart, MemPart, RowAt, NoOverwrite, LockRule;
    if e.Recover? {
      WithdrawnStatus(s.log, s.status, e.xids);
    }
  }

  lemma {:induction false} RunLater(s: State, events: seq<Event>, n: nat)
    requires Ok(s) && n <= |events| && Runs(s, events, n)
    ensures Later(s, After(s, events, n))
    decreases |events| - n
  {
    hide Ok, Can, Next;
    if n < |events| {
      NextOk(s, events[n]);
      NextLater(s, events[n]);
      RunLater(Next(s, events[n]), events, n + 1);
    }
  }

  /** Durability: a committed row stays one, whatever crashes follow, until a
      transaction that deletes it commits. */
  lemma CommittedRowsAreDurable(s: State, events: seq<Event>, a: Address)
    requires Ok(s) && Runs(s, events, 0) && CommittedRow(s.log, s.status, a)
    ensures var later := After(s, events, 0);
            || CommittedRow(later.log, later.status, a)
            || exists x :: DeletedBy(later.log, |later.log|, x, a) && IsCommitted(later.status, x)
  {
    hide Ok, Can, Next;
    RunLater(s, events, 0);
    var later := After(s, events, 0);
    var x :| InsertedBy(s.log, |s.log|, x, a) && IsCommitted(s.status, x);
    var k :| 0 <= k < |s.log| && s.log[k].Insert? && Writes(s.log[k], x, a);
    assert later.log[k] == s.log[k];
    assert InsertedBy(later.log, |later.log|, x, a);
  }

  /** A recovery can always be started, and finished, once the engine is down. */
  lemma RecoveryIsPossible(s: State, xids: seq<int>)
    requires Ok(s) && !s.up && Lists(xids, s.log, ActiveSet(s.status))
    ensures Can(s, Recover(xids))
  {
    hide Lists, LogOk;
    TruncateOk(s.log, s.disk);
  }

  // Until the first recovery the log is chained, so that what that recovery
  // settles is the replay of the records that are not active.

  ghost predicate InImage(s: State) {
    && Chained(s.log)
    && (s.up ==> forall a | Item(s.log, s.mem, a) :: Content(s.log, s.mem, a) == Image(s.log, a, |s.log|))
  }

  lemma {:induction false} AppendImage(log: seq<Record>, r: Record, a: Address, n: nat)
    requires n <= |log|
    ensures Image(log + [r], a, n) == Image(log, a, n)
  {
    if n > 0 {
      AppendImage(log, r, a, n - 1);
      assert (log + [r])[n - 1] == log[n - 1];
    }
  }

  lemma AppendChained(log: seq<Record>, r: Record)
    requires Chained(log) && (r.Update? ==> r.oldRaw == Image(log, AddressOf(r), |log|))
    ensures Chained(log + [r])
  {
    var more := log + [r];
    forall k | 0 <= k < |more| && more[k].Update? ensures more[k].oldRaw == Image(more, AddressOf(more[k]), k) {
      AppendImage(log, r, AddressOf(more[k]), k);
    }
  }

  /** Writing the newest record keeps every item at its last logged bytes. */
  lemma WrittenInImage(s: State, r: Record, after: State)
    requires InImage(s) && s.up && after.up && after.log == s.log + [r]
    requires MemReady(after.log, after.mem) && MemReady(s.log, s.mem) && after.mem.Keys == s.mem.Keys
    requires r.Insert? || (Item(s.log, s.mem, AddressOf(r)) && r.oldRaw == Content(s.log, s.mem, AddressOf(r)))
    requires Item(after.log, after.mem, AddressOf(r)) && (r.Insert? ==> r.raw != [])
    requires Content(after.log, after.mem, AddressOf(r)) == RawOf(r, false)
    requires SameElsewhere(s.log, s.mem, after.log, after.mem, AddressOf(r))
    ensures InImage(after)
  {
    hide Content, MemReady;
    AppendChained(s.log, r);
    assert after.log[|s.log|] == r;
    forall a | Item(after.log, after.mem, a) ensures Content(after.log, after.mem, a) == Image(after.log, a, |after.log|) {
      AppendImage(s.log, r, a, |s.log|);
      if a != AddressOf(r) {
        Appended(s.log, r, |s.log|, a.pgno, a);
        assert Item(s.log, s.mem, a);
      }
    }
  }

  lemma OtherRowSet(s: State, rows: set<Address>)
    requires InImage(s)
    ensures InImage(s.(rows := rows))
  {
  }

  lemma WritesInImage(s: State, e: Event)
    requires Ok(s) && Can(s, e) && InImage(s)
    requires e.InsertRow? || e.InsertItem? || e.SetXmax? || e.WriteItem?
    ensures InImage(Next(s, e))
  {
    hide Content, Item, LogOk, WithXmax, RowRaw, Inserted, RecoverUpdated, Fits, IsValid, EntryOf, Locked, InImage, Room;
    UpReady(s);
    var after := Next(s, e);
    ZeroFits(8);
    match e
    case InsertRow(xid, pgno, data) =>
      InsertEffect(s, xid, pgno, RowRaw(xid, data));
      WrittenInImage(s, Insert(xid, pgno, Fso(s.mem[pgno]), RowRaw(xid, data)), Inserting(s, xid, pgno, RowRaw(xid, data)));
      OtherRowSet(Inserting(s, xid, pgno, RowRaw(xid, data)), after.rows);
    case InsertItem(pgno, raw) =>
      InsertEffect(s, SUPER_XID, pgno, raw);
      WrittenInImage(s, Insert(SUPER_XID, pgno, Fso(s.mem[pgno]), raw), after);
    case SetXmax(xid, a) =>
      var raw := WithXmax(Content(s.log, s.mem, a), xid);
      ItemFacts(s, a);
      WithXmaxReads(Content(s.log, s.mem, a), xid);
      OverwriteEffect(s, xid, a, raw);
      WrittenInImage(s, Update(xid, a.pgno, a.offset, Content(s.log, s.mem, a), raw), after);
    case WriteItem(a, raw) =>
      ItemFacts(s, a);
      OverwriteEffect(s, SUPER_XID, a, raw);
      WrittenInImage(s, Update(SUPER_XID, a.pgno, a.offset, Content(s.log, s.mem, a), raw), after);
  }

  lemma ItemFacts(s: State, a: Address)
    requires LogPart(s) && Item(s.log, s.mem, a)
    ensures Fits(a.pgno, 4)
  {
    PageFits(s, a);
  }

  lemma {:induction false} RunInImage(s: State, events: seq<Event>, n: nat)
    requires Ok(s) && InImage(s) && n <= |events| && Runs(s, events, n)
    requires forall i | n <= i < |events| :: !events[i].Recover?
    ensures InImage(After(s, events, n))
    decreases |events| - n
  {
    hide Ok, Can, Next, InImage;
    if n < |events| {
      NextOk(s, events[n]);
      NextInImage(s, events[n]);
      RunInImage(Next(s, events[n]), events, n + 1);
    }
  }

  lemma NextInImage(s: State, e: Event)
    requires Ok(s) && Can(s, e) && InImage(s) && !e.Recover?
    ensures InImage(Next(s, e))
  {
    hide Content, Chained, Image, InitRaw, LogOk, DiskPart;
    if e.InsertRow? || e.InsertItem? || e.SetXmax? || e.WriteItem? {
      WritesInImage(s, e);
    } else if e.NewPage? {
      var after := Next(s, e);
      forall a | Item(after.log, after.mem, a) ensures Content(after.log, after.mem, a) == Image(after.log, a, |after.log|) {
        var k := InsertedAt(s.log, |s.log|, a);
        assert s.log[k].pgno in s.mem;
        ContentStays(s.log, s.log, s.mem, after.mem, a);
      }
    }
  }

  lemma InitInImage()
    ensures InImage(Init())
  {
  }

  /** The first recovery of a run gives every item the bytes of replaying, in order,
      the records whose transactions are not active, with active insertions present
      but flagged. */
  lemma FirstRecoveryIsReplay(events: seq<Event>, xids: seq<int>, a: Address)
    requires Runs(Init(), events, 0) && forall i | 0 <= i < |events| :: !events[i].Recover?
    requires var s := After(Init(), events, 0);
             !s.up && Lists(xids, s.log, ActiveSet(s.status)) && Length(s.log, |s.log|, a) > 0
    ensures var s := After(Init(), events, 0);
            && LogOk(s.log) && Can(s, Recover(xids))
            && var up := Next(s, Recover(xids));
               && Item(s.log, up.mem, a)
               && Content(s.log, up.mem, a) == Replay(s.log, ActiveSet(s.status), a, |s.log|)
  {
    hide Runs, After, Content, Item, Settled, Chained, LogOk, LockRule, DiskPart, Lists;
    InitOk();
    InitInImage();
    RunOk(Init(), events, 0);
    RunInImage(Init(), events, 0);
    var s := After(Init(), events, 0);
    RecoveryIsPossible(s, xids);
    RecoveryIsDeterminedByTheLog(s.log, ActiveSet(s.status), xids, Truncated(s.disk, LastPage(s.log)), a);
    SettledIsReplay(s.log, ActiveSet(s.status), a, |s.log|);
  }
}
