/** The version manager on top of the storage: every step of the one is a step of the
    other, and a crash leaves the committed database as it was. */
module Engine {
  import opened LogRecords
  import opened Bytes
  import opened PageX
  import opened Recovery
  import opened RecoveredRows
  import opened RecoverProgram
  import opened Visibility
  import M = Mvcc
  import C = CrashRuns

  /** The transactions and their meaning, the storage, and where the rows are. */
  datatype State = State(db: M.Db, m: M.Meaning, s: C.State, at: map<int, Address>)

  /** The files say of a transaction what the version manager knows, except that one
      which wrote nothing may be left active there by a crash. */
  ghost predicate StatusAgree(status: map<int, Status>, files: map<int, Status>, log: seq<Record>) {
    && status.Keys == files.Keys
    && (forall x | x in status :: status[x] == Committed <==> files[x] == Committed)
    && (forall x | x in status && status[x] == Active :: files[x] == Active)
    && (forall k | 0 <= k < |log| && log[k].xid in status :: status[log[k].xid] == files[log[k].xid])
  }

  /** The row's bytes carry its header; only an aborted insertion may be flagged. */
  ghost predicate Carries(status: map<int, Status>, s: C.State, a: Address, e: Entry) {
    && a in s.rows && Item(s.log, s.mem, a) && HoldsRow(Content(s.log, s.mem, a))
    && EntryOf(Content(s.log, s.mem, a)) == e
    && (IsValid(Content(s.log, s.mem, a)) || (e.xmin in status && status[e.xmin] == Aborted))
  }

  /** Active transactions that wrote the row are named in its header. */
  ghost predicate WritersNamed(status: map<int, Status>, log: seq<Record>, a: Address, e: Entry) {
    forall k | 0 <= k < |log| && AddressOf(log[k]) == a && log[k].xid in status && status[log[k].xid] == Active ::
      log[k].xid == e.xmin || log[k].xid == e.xmax
  }

  ghost predicate Stores(db: M.Db, s: C.State, at: map<int, Address>) {
    && s.up && at.Keys == db.entries.Keys && Fits(db.counter, 8)
    && StatusAgree(db.status, s.status, s.log)
    && (forall u, v | u in at && v in at && u != v :: at[u] != at[v])
    && (forall u | u in at :: Carries(db.status, s, at[u], db.entries[u]))
    && (forall u | u in at :: WritersNamed(db.status, s.log, at[u], db.entries[u]))
  }

  ghost predicate Ok(w: State) {
    M.Ok(w.db, w.m) && C.Ok(w.s) && Stores(w.db, w.s, w.at)
  }

  // ------------------------------------------------------------- logical steps

  /** The delete of row u by x goes through. */
  predicate Marks(db: M.Db, x: int, u: int) {
    && M.Waiting(db, x) && db.active[x].waitingFor == Some(u)
    && u in db.entries && u in db.owner && db.owner[u] == x
    && db.entries[u].xmax != x && !IsVersionSkip(db.status, db.active[x], db.entries[u])
  }

  lemma OkParts(w: State)
    requires Ok(w)
    ensures M.Ok(w.db, w.m) && C.Ok(w.s) && Stores(w.db, w.s, w.at) && w.s.up
  {
  }

  /** What the locks, visibility and skip tests of the version manager say about a row
      that is marked. */
  lemma MarkFacts(db: M.Db, m: M.Meaning, x: int, u: int)
    requires M.Ok(db, m) && Marks(db, x, u)
    ensures 0 < x <= db.counter && x in db.status && db.status[x] == Active && 0 !in db.status
    ensures var e := db.entries[u];
            && (e.xmin == x || IsCommitted(db.status, e.xmin)) && e.xmin in db.status
            && (e.xmax == 0 || (e.xmax in db.status && db.status[e.xmax] == Aborted))
  {
    hide IsVersionSkip;
    M.MarkIsFree(db, m, x, u);
    assert M.TxnOk(db, x) && M.WorkOk(db, m.work[x], x, u) && M.EntryOk(db, u);
  }

  /** They are what the storage asks of a marker: nobody else who wrote the row is
      active, the row is valid, and the mark found is not a committed one. */
  lemma MarkIsAllowed(w: State, x: int, u: int)
    requires Ok(w) && Marks(w.db, x, u)
    ensures u in w.at && C.Can(w.s, C.SetXmax(x, w.at[u]))
    ensures x in w.db.status && w.db.status[x] == Active
    ensures w.db.entries[u].xmax == 0 || (w.db.entries[u].xmax in w.db.status && w.db.status[w.db.entries[u].xmax] == Aborted)
  {
    var db, s := w.db, w.s;
    hide Ok, M.Ok, C.Ok, IsVersionSkip, IsVisible, Content, Item, Fits, IsValid, EntryOf;
    OkParts(w);
    MarkFacts(db, w.m, x, u);
    assert u in w.at;
    var a, e := w.at[u], w.db.entries[u];
    assert Carries(db.status, s, a, e) && WritersNamed(db.status, s.log, a, e);
    FitsBelow(x, db.counter);
    LockedByMarker(db.status, s.status, s.log, a, e, x);
  }

  lemma LockedByMarker(status: map<int, Status>, files: map<int, Status>, log: seq<Record>, a: Address, e: Entry, x: int)
    requires StatusAgree(status, files, log) && WritersNamed(status, log, a, e)
    requires e.xmin == x || IsCommitted(status, e.xmin)
    requires 0 !in status && (e.xmax == 0 || (e.xmax in status && status[e.xmax] == Aborted))
    ensures C.Locked(log, files, x, a)
  {
    forall k | 0 <= k < |log| && AddressOf(log[k]) == a && C.IsActive(files, log[k].xid) ensures log[k].xid == x {
      assert status[log[k].xid] == Active;
    }
  }

  lemma FitsBelow(x: int, n: int)
    requires 0 <= x <= n && Fits(n, 8)
    ensures Fits(x, 8)
  {
  }

  /** Steps that change no header and no status leave the storage alone. */
  lemma QuietStores(w: State, db: M.Db)
    requires Ok(w) && db.status == w.db.status && db.entries == w.db.entries && db.counter == w.db.counter
    ensures Stores(db, w.s, w.at)
  {
    hide C.Ok, M.Ok, Carries, WritersNamed, StatusAgree, Fits;
  }

  /** Where the log stays and nobody becomes active who wrote the row, the row carries
      what it carried. */
  lemma StatusCarries(status: map<int, Status>, now: map<int, Status>, s: C.State, s': C.State, a: Address, e: Entry)
    requires Carries(status, s, a, e) && WritersNamed(status, s.log, a, e)
    requires s'.log == s.log && s'.mem == s.mem && s'.rows == s.rows
    requires forall x | x in status && status[x] == Aborted :: x in now && now[x] == Aborted
    requires forall k | 0 <= k < |s.log| && s.log[k].xid in now && now[s.log[k].xid] == Active ::
               s.log[k].xid in status && status[s.log[k].xid] == Active
    ensures Carries(now, s', a, e) && WritersNamed(now, s'.log, a, e)
  {
    hide Content, Item, IsValid, EntryOf;
  }

  lemma AllCarry(w: State, db: M.Db, s': C.State)
    requires Stores(w.db, w.s, w.at) && db.entries == w.db.entries && Fits(db.counter, 8)
    requires s'.up && s'.log == w.s.log && s'.mem == w.s.mem && s'.rows == w.s.rows
    requires forall x | x in w.db.status && w.db.status[x] == Aborted :: x in db.status && db.status[x] == Aborted
    requires forall k | 0 <= k < |w.s.log| && w.s.log[k].xid in db.status && db.status[w.s.log[k].xid] == Active ::
               w.s.log[k].xid in w.db.status && w.db.status[w.s.log[k].xid] == Active
    requires StatusAgree(db.status, s'.status, s'.log)
    ensures Stores(db, s', w.at)
  {
    hide Carries, WritersNamed, Fits, StatusAgree;
    forall u | u in w.at ensures Carries(db.status, s', w.at[u], db.entries[u]) && WritersNamed(db.status, s'.log, w.at[u], db.entries[u]) {
      StatusCarries(w.db.status, db.status, w.s, s', w.at[u], db.entries[u]);
    }
  }

  lemma BeginStores(w: State, db: M.Db)
    requires Ok(w) && db.counter == w.db.counter + 1 && Fits(db.counter, 8)
    requires db.status == w.db.status[db.counter := Active] && db.entries == w.db.entries
    ensures C.Can(w.s, C.Begin(db.counter)) && Stores(db, C.Next(w.s, C.Begin(db.counter)), w.at)
  {
    hide Ok, C.Ok, M.Ok, Carries, WritersNamed, Fits;
    OkParts(w);
    NobodyYet(w, db.counter);
    AllCarry(w, db, C.Next(w.s, C.Begin(db.counter)));
  }

  /** The next number is new, to the log as well. */
  lemma NobodyYet(w: State, x: int)
    requires Ok(w) && x == w.db.counter + 1
    ensures x !in w.db.status && x !in w.s.status && x > 0
    ensures forall k | 0 <= k < |w.s.log| :: w.s.log[k].xid != x
  {
    assert C.LogPart(w.s);
    hide LogOk, LockRule, RowAt, NoOverwrite, C.DiskPart, C.MemPart, Carries, WritersNamed;
  }

  /** A transaction that ends: its status changes in both. */
  lemma EndStores(w: State, x: int, status: Status, db: M.Db)
    requires Ok(w) && x in w.db.status && w.db.status[x] == Active && status != Active
    requires db.status == w.db.status[x := status] && db.entries == w.db.entries && db.counter == w.db.counter
    ensures C.IsActive(w.s.status, x)
    ensures Stores(db, w.s.(status := w.s.status[x := status]), w.at)
  {
    hide Ok, C.Ok, M.Ok, Carries, WritersNamed, Fits;
    OkParts(w);
    AllCarry(w, db, w.s.(status := w.s.status[x := status]));
  }

  /** Where another item was written a row carries what it carried. */
  lemma CarriesOn(status: map<int, Status>, s: C.State, s': C.State, r: Record, a: Address, e: Entry)
    requires Carries(status, s, a, e) && WritersNamed(status, s.log, a, e) && a != AddressOf(r)
    requires s'.log == s.log + [r] && s.rows <= s'.rows && C.SameElsewhere(s.log, s.mem, s'.log, s'.mem, AddressOf(r))
    ensures Carries(status, s', a, e) && WritersNamed(status, s'.log, a, e)
  {
    hide Content, Item, IsValid, EntryOf;
    assert forall k | 0 <= k < |s.log| :: s'.log[k] == s.log[k];
  }

  /** One row written: the others carry what they carried. */
  lemma OneWritten(w: State, db: M.Db, s': C.State, at: map<int, Address>, u: int, r: Record)
    requires Stores(w.db, w.s, w.at) && db.status == w.db.status && db.counter == w.db.counter
    requires db.entries.Keys == w.db.entries.Keys + {u} && forall v | v in w.db.entries && v != u :: db.entries[v] == w.db.entries[v]
    requires s'.up && s'.log == w.s.log + [r] && s'.status == w.s.status && w.s.rows <= s'.rows
    requires C.SameElsewhere(w.s.log, w.s.mem, s'.log, s'.mem, AddressOf(r))
    requires at == w.at[u := AddressOf(r)] && forall v | v in w.at && v != u :: w.at[v] != AddressOf(r)
    requires Carries(db.status, s', AddressOf(r), db.entries[u]) && WritersNamed(db.status, s'.log, AddressOf(r), db.entries[u])
    requires r.xid in db.status ==> db.status[r.xid] == w.s.status[r.xid]
    ensures Stores(db, s', at)
  {
    hide Carries, WritersNamed, Fits, C.SameElsewhere;
    assert forall k | 0 <= k < |w.s.log| :: s'.log[k] == w.s.log[k];
    forall v | v in at ensures Carries(db.status, s', at[v], db.entries[v]) && WritersNamed(db.status, s'.log, at[v], db.entries[v]) {
      if v != u {
        CarriesOn(w.db.status, w.s, s', r, w.at[v], w.db.entries[v]);
      }
    }
  }

  lemma InsertStores(w: State, x: int, u: int, pgno: int, data: seq<byte>) returns (at: map<int, Address>)
    requires Ok(w) && x in w.db.status && w.db.status[x] == Active && u !in w.db.entries
    requires C.CanInsert(w.s, pgno, C.RowRaw(x, data))
    ensures C.Can(w.s, C.InsertRow(x, pgno, data))
    ensures Stores(M.InsertDb(w.db, x, u), C.Next(w.s, C.InsertRow(x, pgno, data)), at)
    ensures at == w.at[u := Address(pgno, Fso(w.s.mem[pgno]))]
  {
    hide Ok, C.RowRaw, C.Ok, M.Ok, Carries, WritersNamed, Inserted, Room, Fits, C.SameElsewhere, Item, Content, IsValid, EntryOf, Fso;
    OkParts(w);
    var a := Address(pgno, Fso(w.s.mem[pgno]));
    var r := LogRecords.Insert(x, pgno, a.offset, C.RowRaw(x, data));
    at := w.at[u := a];
    InLife(w, x);
    InsertedRow(w.s, x, pgno, data);
    var s', db := C.Next(w.s, C.InsertRow(x, pgno, data)), M.InsertDb(w.db, x, u);
    forall v | v in w.at ensures w.at[v] != a {
      RowOfCarried(w.db.status, w.s, w.at[v], w.db.entries[v]);
      RowIsLogged(w.s, w.at[v]);
    }
    NewCarries(db.status, s', a, Entry(x, 0));
    NewNamed(db.status, w.s.log, r, Entry(x, 0));
    AgreeOn(w, x);
    OneWritten(w, db, s', at, u, r);
  }

  lemma RowOfCarried(status: map<int, Status>, s: C.State, a: Address, e: Entry)
    requires Carries(status, s, a, e)
    ensures a in s.rows
  {
  }

  lemma NewCarries(status: map<int, Status>, s: C.State, a: Address, e: Entry)
    requires a in s.rows && Item(s.log, s.mem, a) && HoldsRow(Content(s.log, s.mem, a))
    requires EntryOf(Content(s.log, s.mem, a)) == e && IsValid(Content(s.log, s.mem, a))
    ensures Carries(status, s, a, e)
  {
  }

  lemma NewNamed(status: map<int, Status>, log: seq<Record>, r: Record, e: Entry)
    requires r.xid == e.xmin && forall k | 0 <= k < |log| :: AddressOf(log[k]) != AddressOf(r)
    ensures WritersNamed(status, log + [r], AddressOf(r), e)
  {
    assert forall k | 0 <= k < |log| :: (log + [r])[k] == log[k];
  }

  /** What the storage holds after a row's insertion. */
  lemma InsertedRow(s: C.State, x: int, pgno: int, data: seq<byte>)
    requires C.Ok(s) && s.up && C.IsActive(s.status, x) && Fits(x, 8) && C.CanInsert(s, pgno, C.RowRaw(x, data))
    ensures C.Can(s, C.InsertRow(x, pgno, data))
    ensures var s', a := C.Next(s, C.InsertRow(x, pgno, data)), Address(pgno, Fso(s.mem[pgno]));
            && s'.log == s.log + [LogRecords.Insert(x, pgno, a.offset, C.RowRaw(x, data))]
            && s'.up && s'.status == s.status && s'.rows == s.rows + {a}
            && C.SameElsewhere(s.log, s.mem, s'.log, s'.mem, a)
            && (forall k | 0 <= k < |s.log| :: AddressOf(s.log[k]) != a)
            && Item(s'.log, s'.mem, a) && HoldsRow(Content(s'.log, s'.mem, a))
            && EntryOf(Content(s'.log, s'.mem, a)) == Entry(x, 0) && IsValid(Content(s'.log, s'.mem, a))
  {
    C.UpReady(s);
    hide C.RowRaw, Content, Item, C.Ok, Fits, IsValid, EntryOf, Inserted, Room, C.MemReady;
    C.InsertEffect(s, x, pgno, C.RowRaw(x, data));
    C.RowRawReads(x, data);
  }

  /** What the storage holds after a row was marked. */
  lemma MarkedRow(s: C.State, x: int, a: Address)
    requires C.Ok(s) && C.Can(s, C.SetXmax(x, a))
    ensures var s', was := C.Next(s, C.SetXmax(x, a)), Content(s.log, s.mem, a);
            && s'.log == s.log + [Update(x, a.pgno, a.offset, was, WithXmax(was, x))]
            && s'.up && s'.status == s.status && s'.rows == s.rows
            && C.SameElsewhere(s.log, s.mem, s'.log, s'.mem, a)
            && Item(s'.log, s'.mem, a) && HoldsRow(Content(s'.log, s'.mem, a))
            && EntryOf(Content(s'.log, s'.mem, a)) == EntryOf(was).(xmax := x) && IsValid(Content(s'.log, s'.mem, a))
  {
    C.UpReady(s);
    C.PageFits(s, a);
    var was := Content(s.log, s.mem, a);
    hide Content, Item, C.Ok, Fits, IsValid, EntryOf, WithXmax, C.MemReady, C.Locked;
    WithXmaxReads(was, x);
    C.OverwriteEffect(s, x, a, WithXmax(was, x));
  }

  lemma InLife(w: State, x: int)
    requires Ok(w) && x in w.db.status && w.db.status[x] == Active
    ensures C.IsActive(w.s.status, x) && Fits(x, 8) && 0 < x && w.s.up
  {
    FitsBelow(x, w.db.counter);
  }

  lemma RowIsLogged(s: C.State, a: Address)
    requires C.Ok(s) && s.up && a in s.rows
    ensures exists k :: 0 <= k < |s.log| && AddressOf(s.log[k]) == a
  {
    assert C.RowInMem(s, a);
    hide C.LogPart, C.DiskPart, LogOk, Item;
    var e := EntryOf(Content(s.log, s.mem, a));
    var k :| 0 <= k < |s.log| && s.log[k].Insert? && Writes(s.log[k], e.xmin, a);
    assert AddressOf(s.log[k]) == a;
  }

  lemma MarkStores(w: State, x: int, u: int)
    requires Ok(w) && Marks(w.db, x, u)
    ensures u in w.at && C.Can(w.s, C.SetXmax(x, w.at[u]))
    ensures Stores(M.FinishDb(w.db, x), C.Next(w.s, C.SetXmax(x, w.at[u])), w.at)
  {
    hide Ok, IsVersionSkip, Content, Item, C.Ok, M.Ok, Fits, IsValid, EntryOf, WithXmax, Carries, C.SameElsewhere, StatusAgree,
      WritersNamed, C.Locked;
    OkParts(w);
    MarkIsAllowed(w, x, u);
    InLife(w, x);
    ZeroUnused(w);
    var s, a, db := w.s, w.at[u], M.FinishDb(w.db, x);
    var was := Content(s.log, s.mem, a);
    MarkedRow(s, x, a);
    var s', e := C.Next(s, C.SetXmax(x, a)), w.db.entries[u];
    HeaderCarried(w.db.status, s, a, e);
    NewCarries(db.status, s', a, e.(xmax := x));
    AgreeOn(w, x);
    MarkNamed(db.status, s.log, Update(x, a.pgno, a.offset, was, WithXmax(was, x)), e);
    assert w.at == w.at[u := a];
    OneWritten(w, db, s', w.at, u, Update(x, a.pgno, a.offset, was, WithXmax(was, x)));
  }

  lemma HeaderCarried(status: map<int, Status>, s: C.State, a: Address, e: Entry)
    requires Carries(status, s, a, e)
    ensures EntryOf(Content(s.log, s.mem, a)) == e
  {
  }

  lemma AgreeOn(w: State, x: int)
    requires Ok(w) && x in w.db.status && w.db.status[x] == Active
    ensures x in w.s.status && w.s.status[x] == Active
  {
  }

  lemma MarkNamed(status: map<int, Status>, log: seq<Record>, r: Record, e: Entry)
    requires WritersNamed(status, log, AddressOf(r), e)
    requires e.xmax == 0 || (e.xmax in status && status[e.xmax] == Aborted)
    requires 0 !in status
    ensures WritersNamed(status, log + [r], AddressOf(r), e.(xmax := r.xid))
  {
    assert forall k | 0 <= k < |log| :: (log + [r])[k] == log[k];
  }

  // ------------------------------------------------------------------ all steps

  /** Where the storage puts a new row, and its data. */
  datatype Place = Place(pgno: int, data: seq<byte>)

  predicate Inserts(db: M.Db, e: M.Event) {
    e.Insert? && M.Ready(db, e.xid) && e.uid !in db.entries
  }

  /** Deletes keep a snapshot, numbers are longs, and there is room for a new row. */
  ghost predicate Enabled(w: State, e: M.Event, pl: Place) {
    && M.Allowed(w.db, e)
    && (e.Begin? ==> Fits(w.db.counter + 1, 8))
    && (Inserts(w.db, e) ==> C.CanInsert(w.s, pl.pgno, C.RowRaw(e.xid, pl.data)))
  }

  /** A delete that finds its version out of date aborts the transaction. */
  predicate Skips(db: M.Db, x: int) {
    && M.Waiting(db, x)
    && var u := db.active[x].waitingFor.uid;
       && u in db.entries && u in db.owner && db.owner[u] == x
       && db.entries[u].xmax != x && IsVersionSkip(db.status, db.active[x], db.entries[u])
  }

  /** What a step of the version manager asks of the storage. */
  function Asks(db: M.Db, at: map<int, Address>, e: M.Event, pl: Place): seq<C.Event> {
    match e
    case Begin(_) => [C.Begin(db.counter + 1)]
    case Insert(xid, _) => if Inserts(db, e) then [C.InsertRow(xid, pl.pgno, pl.data)] else []
    case LockRefused(xid) => if M.Waiting(db, xid) then [C.Abort(xid)] else []
    case DeleteFinish(xid) =>
      if Skips(db, xid) then [C.Abort(xid)]
      else if M.Waiting(db, xid) && Marks(db, xid, db.active[xid].waitingFor.uid) && db.active[xid].waitingFor.uid in at
      then [C.SetXmax(xid, at[db.active[xid].waitingFor.uid])]
      else []
    case Commit(xid) => if M.Ready(db, xid) then [C.Commit(xid)] else []
    case Abort(xid) =>
      if xid in db.active && db.active[xid].waitingFor.None? && !db.active[xid].failed then [C.Abort(xid)] else []
    case _ => []
  }

  ghost predicate Goes(s: C.State, es: seq<C.Event>, s': C.State)
    decreases |es|
  {
    if es == [] then s' == s else C.Can(s, es[0]) && Goes(C.Next(s, es[0]), es[1..], s')
  }

  /** Version manager and storage make the step together. */
  ghost predicate Together(w: State, e: M.Event, pl: Place, w': State) {
    && w'.db == M.Next(w.db, e) && w'.m == M.NextMeaning(w.m, w.db, e)
    && Goes(w.s, Asks(w.db, w.at, e, pl), w'.s)
    && w'.at == if Inserts(w.db, e) then w.at[e.uid := PlaceOf(w.s, pl)] else w.at
  }

  ghost function PlaceOf(s: C.State, pl: Place): Address {
    Address(pl.pgno, if pl.pgno in s.mem then Fso(s.mem[pl.pgno]) else 0)
  }

  lemma OneGoes(s: C.State, e: C.Event)
    requires C.Can(s, e)
    ensures Goes(s, [e], C.Next(s, e))
  {
    hide C.Can, C.Next;
    assert [e][1..] == [];
    assert Goes(C.Next(s, e), [], C.Next(s, e));
  }

  lemma Doing(w: State, e: M.Event, pl: Place, db: M.Db, m: M.Meaning, asked: C.Event, at: map<int, Address>) returns (w': State)
    requires Ok(w) && M.Ok(db, m) && db == M.Next(w.db, e) && m == M.NextMeaning(w.m, w.db, e)
    requires Asks(w.db, w.at, e, pl) == [asked] && C.Can(w.s, asked) && Stores(db, C.Next(w.s, asked), at)
    requires at == if Inserts(w.db, e) then w.at[e.uid := PlaceOf(w.s, pl)] else w.at
    ensures Together(w, e, pl, w') && Ok(w')
  {
    OkParts(w);
    hide C.Can, C.Next, C.Ok, M.Ok, Stores, M.Next, M.NextMeaning, Asks, Goes;
    w' := State(db, m, C.Next(w.s, asked), at);
    C.NextOk(w.s, asked);
    OneGoes(w.s, asked);
  }

  lemma DoingNothing(w: State, e: M.Event, pl: Place, db: M.Db, m: M.Meaning) returns (w': State)
    requires Ok(w) && M.Ok(db, m) && db == M.Next(w.db, e) && m == M.NextMeaning(w.m, w.db, e)
    requires Asks(w.db, w.at, e, pl) == [] && !Inserts(w.db, e) && Stores(db, w.s, w.at)
    ensures Together(w, e, pl, w') && Ok(w')
  {
    OkParts(w);
    hide C.Can, C.Next, C.Ok, M.Ok, Stores, M.Next, M.NextMeaning, Asks;
    w' := State(db, m, w.s, w.at);
    assert Goes(w.s, [], w.s);
  }

  /** Every step of the version manager can be made on the storage, whose conditions for
      it are met, and keeps the two together. */
  lemma LogicalStep(w: State, e: M.Event, pl: Place) returns (w': State)
    requires Ok(w) && Enabled(w, e, pl)
    ensures Together(w, e, pl, w') && Ok(w')
  {
    hide Ok, M.Ok, Stores, C.Ok, M.NextMeaning, C.CanInsert, C.RowRaw, Fso, IsVersionSkip, IsVisible;
    OkParts(w);
    var db, m := M.Next(w.db, e), M.NextMeaning(w.m, w.db, e);
    M.NextOk(w.db, w.m, e);
    if e.Begin? {
      BeginIs(w.db, e.level);
      BeginStores(w, db);
      w' := Doing(w, e, pl, db, m, C.Begin(db.counter), w.at);
    } else if Inserts(w.db, e) {
      ActiveIs(w, e.xid);
      var at := InsertStores(w, e.xid, e.uid, pl.pgno, pl.data);
      RoomIsThere(w.s, pl, e.xid);
      w' := Doing(w, e, pl, db, m, C.InsertRow(e.xid, pl.pgno, pl.data), at);
    } else if e.DeleteFinish? {
      w' := FinishStep(w, e, pl);
    } else if e.Commit? && M.Ready(w.db, e.xid) {
      ActiveIs(w, e.xid);
      EndStores(w, e.xid, Committed, db);
      w' := Doing(w, e, pl, db, m, C.Commit(e.xid), w.at);
    } else if Asks(w.db, w.at, e, pl) != [] {
      ActiveIs(w, e.xid);
      EndStores(w, e.xid, Aborted, db);
      w' := Doing(w, e, pl, db, m, C.Abort(e.xid), w.at);
    } else {
      NothingAsked(w, e, pl);
      QuietStores(w, db);
      w' := DoingNothing(w, e, pl, db, m);
    }
  }

  lemma BeginIs(db: M.Db, level: IsolationLevel)
    ensures var db' := M.Next(db, M.Begin(level));
            db'.counter == db.counter + 1 && db'.status == db.status[db'.counter := Active] && db'.entries == db.entries
  {
  }

  lemma ActiveIs(w: State, x: int)
    requires Ok(w) && x in w.db.active && !w.db.active[x].failed
    ensures x in w.db.status && w.db.status[x] == Active && C.IsActive(w.s.status, x) && w.s.up
  {
    assert M.TxnOk(w.db, x);
  }

  lemma RoomIsThere(s: C.State, pl: Place, x: int)
    requires C.CanInsert(s, pl.pgno, C.RowRaw(x, pl.data))
    ensures PlaceOf(s, pl) == Address(pl.pgno, Fso(s.mem[pl.pgno]))
  {
  }

  /** Where the storage is asked for nothing, no header and no status changes. */
  lemma NothingAsked(w: State, e: M.Event, pl: Place)
    requires Ok(w) && Asks(w.db, w.at, e, pl) == [] && !e.DeleteFinish? && !Inserts(w.db, e)
    ensures var db := M.Next(w.db, e); db.status == w.db.status && db.entries == w.db.entries && db.counter == w.db.counter
  {
    hide IsVisible, IsVersionSkip, Stores, C.Ok;
    if e.Abort? && e.xid in w.db.active {
      assert M.TxnOk(w.db, e.xid);
    }
  }

  lemma FinishStep(w: State, e: M.Event, pl: Place) returns (w': State)
    requires Ok(w) && e.DeleteFinish? && M.Ok(M.Next(w.db, e), M.NextMeaning(w.m, w.db, e))
    ensures Together(w, e, pl, w') && Ok(w')
  {
    hide Ok, M.Ok, Stores, C.Ok, M.NextMeaning, IsVersionSkip;
    var db, m, x := M.Next(w.db, e), M.NextMeaning(w.m, w.db, e), e.xid;
    if Skips(w.db, x) {
      ActiveIs(w, x);
      EndStores(w, x, Aborted, db);
      w' := Doing(w, e, pl, db, m, C.Abort(x), w.at);
    } else if M.Waiting(w.db, x) && Marks(w.db, x, w.db.active[x].waitingFor.uid) {
      MarkStores(w, x, w.db.active[x].waitingFor.uid);
      w' := Doing(w, e, pl, db, m, C.SetXmax(x, w.at[w.db.active[x].waitingFor.uid]), w.at);
    } else {
      QuietStores(w, db);
      w' := DoingNothing(w, e, pl, db, m);
    }
  }

  // -------------------------------------------------------------- storage alone

  /** Steps of the storage that no transaction asks for. */
  predicate Own(e: C.Event) {
    e.NewPage? || e.InsertItem? || e.WriteItem? || e.Flush?
  }

  lemma OwnStep(w: State, e: C.Event)
    requires Ok(w) && Own(e) && C.Can(w.s, e)
    ensures Ok(w.(s := C.Next(w.s, e)))
  {
    C.NextOk(w.s, e);
    var s' := C.Next(w.s, e);
    if e.InsertItem? || e.WriteItem? {
      OwnRecord(w.s, e);
      hide M.Ok, C.Ok, C.Can, C.Next, Carries, WritersNamed, Fits, C.SameElsewhere;
      var r := s'.log[|w.s.log|];
      ZeroUnused(w);
      OwnStores(w, s', r);
    } else {
      OwnPages(w.s, e);
      hide M.Ok, C.Ok, C.Can, C.Next, Fits, Content, Item, IsValid, EntryOf;
      forall u | u in w.at ensures Carries(w.db.status, s', w.at[u], w.db.entries[u]) && WritersNamed(w.db.status, s'.log, w.at[u], w.db.entries[u]) {
        assert Carries(w.db.status, w.s, w.at[u], w.db.entries[u]) && WritersNamed(w.db.status, w.s.log, w.at[u], w.db.entries[u]);
      }
    }
  }

  lemma ZeroUnused(w: State)
    requires Ok(w)
    ensures SUPER_XID !in w.db.status
  {
  }

  /** The super transaction writes no rows. */
  lemma OwnRecord(s: C.State, e: C.Event)
    requires C.Ok(s) && (e.InsertItem? || e.WriteItem?) && C.Can(s, e)
    ensures var s' := C.Next(s, e);
            && |s'.log| == |s.log| + 1 && s'.log == s.log + [s'.log[|s.log|]]
            && s'.log[|s.log|].xid == SUPER_XID && AddressOf(s'.log[|s.log|]) !in s.rows
            && s'.up && s'.status == s.status && s'.rows == s.rows
            && C.SameElsewhere(s.log, s.mem, s'.log, s'.mem, AddressOf(s'.log[|s.log|]))
  {
    C.UpReady(s);
    Halves();
    var s' := C.Next(s, e);
    hide Content, Item, C.DiskPart, C.MemReady, C.MemPart, Inserted, RecoverUpdated, LogOk, RowAt, NoOverwrite, LockRule;
    if e.InsertItem? {
      C.InsertEffect(s, SUPER_XID, e.pgno, e.raw);
      var a := Address(e.pgno, Fso(s.mem[e.pgno]));
      if a in s.rows {
        RowIsLogged(s, a);
      }
    } else {
      C.PageFits(s, e.item);
      C.OverwriteEffect(s, SUPER_XID, e.item, e.raw);
    }
  }

  lemma OwnStores(w: State, s': C.State, r: Record)
    requires Stores(w.db, w.s, w.at) && s'.up && s'.log == w.s.log + [r] && s'.status == w.s.status && s'.rows == w.s.rows
    requires r.xid == SUPER_XID && AddressOf(r) !in w.s.rows && SUPER_XID !in w.db.status
    requires C.SameElsewhere(w.s.log, w.s.mem, s'.log, s'.mem, AddressOf(r))
    ensures Stores(w.db, s', w.at)
  {
    hide WritersNamed, Fits, C.SameElsewhere, Content, Item, IsValid, EntryOf;
    assert forall k | 0 <= k < |w.s.log| :: s'.log[k] == w.s.log[k];
    forall u | u in w.at ensures Carries(w.db.status, s', w.at[u], w.db.entries[u]) && WritersNamed(w.db.status, s'.log, w.at[u], w.db.entries[u]) {
      CarriesOn(w.db.status, w.s, s', r, w.at[u], w.db.entries[u]);
    }
  }

  lemma OwnPages(s: C.State, e: C.Event)
    requires C.Ok(s) && (e.NewPage? || e.Flush?) && C.Can(s, e)
    ensures var s' := C.Next(s, e);
            && s'.up && s'.log == s.log && s'.status == s.status && s'.rows == s.rows
            && forall a | Item(s.log, s.mem, a) :: Item(s'.log, s'.mem, a) && Content(s'.log, s'.mem, a) == Content(s.log, s.mem, a)
  {
    hide InitRaw, RowAt, NoOverwrite, LockRule, C.DiskPart;
    if e.NewPage? {
      var s' := C.Next(s, e);
      forall a | Item(s.log, s.mem, a) ensures Item(s'.log, s'.mem, a) && Content(s'.log, s'.mem, a) == Content(s.log, s.mem, a) {
        var k := InsertedAt(s.log, |s.log|, a);
        C.ContentStays(s.log, s.log, s.mem, s'.mem, a);
      }
    }
  }

  // ------------------------------------------------------------------ restarting

  /** What happens while the engine is down, before a recovery that finishes. */
  predicate WhileDown(e: C.Event) {
    e.Truncate? || e.ReplayOne? || e.AbortLeft?
  }

  /** A crash loses nothing of the log, nor who has committed. */
  ghost predicate SameHistory(s: C.State, s': C.State) {
    && s'.log == s.log && s'.rows == s.rows && s'.status.Keys == s.status.Keys
    && (forall x | x in s.status :: s'.status[x] == Committed <==> s.status[x] == Committed)
  }

  lemma {:induction false} DownKeeps(s: C.State, es: seq<C.Event>, s': C.State)
    requires C.Ok(s) && !s.up && Goes(s, es, s') && forall i | 0 <= i < |es| :: WhileDown(es[i])
    ensures C.Ok(s') && SameHistory(s, s') && !s'.up
    decreases |es|
  {
    if es != [] {
      assert WhileDown(es[0]);
      C.NextOk(s, es[0]);
      DownStep(s, es[0]);
      hide C.Ok, C.Can, C.Next;
      DownKeeps(C.Next(s, es[0]), es[1..], s');
    }
  }

  lemma DownStep(s: C.State, e: C.Event)
    requires C.Can(s, e) && WhileDown(e) && !s.up
    ensures SameHistory(s, C.Next(s, e)) && !C.Next(s, e).up
  {
  }

  lemma RecoverKeeps(s: C.State, xids: seq<int>)
    requires C.Ok(s) && C.Can(s, C.Recover(xids))
    ensures var s' := C.Next(s, C.Recover(xids));
            && C.Ok(s') && s'.up && SameHistory(s, s')
            && forall k | 0 <= k < |s'.log| && s'.log[k].xid in s'.status :: s'.status[s'.log[k].xid] != Active
  {
    C.NextOk(s, C.Recover(xids));
    RecoverIs(s, xids);
    hide C.Ok, C.Can, C.Next;
    WithdrawnKeeps(s.log, s.status, xids);
  }

  lemma RecoverIs(s: C.State, xids: seq<int>)
    requires C.Ok(s) && C.Can(s, C.Recover(xids))
    ensures var s' := C.Next(s, C.Recover(xids));
            s'.up && s'.log == s.log && s'.rows == s.rows && s'.status == Withdrawn(s.status, Elements(xids))
    ensures Lists(xids, s.log, ActiveSet(s.status)) && 0 !in s.status
  {
    hide LogOk, LockRule, RowAt, NoOverwrite, C.DiskPart, C.MemPart, Recovered, Lists, Withdrawn, Elements, Truncated, LastPage;
  }

  lemma WithdrawnKeeps(log: seq<Record>, status: map<int, Status>, xids: seq<int>)
    requires Lists(xids, log, ActiveSet(status)) && 0 !in status
    ensures var now := Withdrawn(status, Elements(xids));
            && now.Keys == status.Keys && (forall x | x in status :: now[x] == Committed <==> status[x] == Committed)
            && forall k | 0 <= k < |log| && log[k].xid in now :: now[log[k].xid] != Active
  {
    C.WithdrawnStatus(log, status, xids);
    var now := Withdrawn(status, Elements(xids));
    hide Withdrawn, Elements, Lists;
    forall x | x in status ensures now[x] == Committed <==> status[x] == Committed {
      assert IsCommitted(now, x) == IsCommitted(status, x);
    }
    forall k | 0 <= k < |log| && log[k].xid in now ensures now[log[k].xid] != Active {
      assert log[k].xid in C.Live(now) ==> status[log[k].xid] == Committed;
    }
  }

  /** The version manager as it starts again: it knows who committed, nobody is active,
      and it finds the headers that recovery left. The committed database is what it was
      before the crash. */
  ghost function Restarted(w: State, s': C.State): State
    requires Ok(w) && C.Ok(s') && s'.up && s'.rows == w.s.rows
  {
    var db := M.Db(map x | x in w.db.status :: if w.db.status[x] == Committed then Committed else Aborted,
                   w.db.counter, map[],
                   map u | u in w.at :: HeaderOf(s', w.at[u]), map[]);
    State(db, M.Meaning(w.m.committed, map[], w.m.commits), s', w.at)
  }

  ghost function HeaderOf(s: C.State, a: Address): Entry {
    if Item(s.log, s.mem, a) && HoldsRow(Content(s.log, s.mem, a)) then EntryOf(Content(s.log, s.mem, a)) else Entry(0, 0)
  }

  /** The header before the crash and the one that recovery left: the same inserter, and
      if either names a committed deleter, so does the other, the same one. */
  lemma HeadersAgree(w: State, s': C.State, u: int)
    requires Ok(w) && C.Ok(s') && s'.up && SameHistory(w.s, s') && u in w.at
    ensures Item(s'.log, s'.mem, w.at[u]) && HoldsRow(Content(s'.log, s'.mem, w.at[u])) && w.at[u] in s'.rows
    ensures var e, e' := w.db.entries[u], EntryOf(Content(s'.log, s'.mem, w.at[u]));
            && e'.xmin == e.xmin && e.xmin in w.db.status
            && (e'.xmax == 0 || e'.xmax in w.db.status)
            && (e.xmax != 0 && IsCommitted(w.db.status, e.xmax) ==> e'.xmax == e.xmax)
            && (e'.xmax != 0 && IsCommitted(w.db.status, e'.xmax) ==> e'.xmax == e.xmax)
            && (IsCommitted(w.db.status, e.xmin) ==> IsValid(Content(s'.log, s'.mem, w.at[u])))
  {
    var a := w.at[u];
    var e, e' := w.db.entries[u], EntryOf(Content(s'.log, s'.mem, a));
    assert Carries(w.db.status, w.s, a, e);
    assert C.RowInMem(w.s, a) && C.RowInMem(s', a);
    assert C.LogPart(s');
    hide Content, Item, IsValid, EntryOf, C.DiskPart, LockRule, RowAt, NoOverwrite, LogOk, InsertedBy, DeletedBy;
    OneInserter(w.s.log, e.xmin, e'.xmin, a);
    C.RowWriters(w.s, a, e.xmin);
    if e'.xmax != 0 {
      C.RowWriters(s', a, e'.xmax);
      LiveCommitted(w, s', e'.xmax);
    }
    if e.xmax != 0 {
      C.RowWriters(w.s, a, e.xmax);
      LiveCommitted(w, s', e.xmax);
    }
    LiveCommitted(w, s', e.xmin);
  }

  lemma LiveCommitted(w: State, s': C.State, x: int)
    requires StatusAgree(w.db.status, w.s.status, w.s.log) && SameHistory(w.s, s') && x in w.s.status && 0 !in w.s.status
    ensures x in w.db.status && (IsCommitted(w.db.status, x) ==> x in C.Live(w.s.status) && x in C.Live(s'.status))
  {
  }

  lemma RestartedDb(w: State, s': C.State)
    requires Ok(w) && C.Ok(s') && s'.up && SameHistory(w.s, s')
    ensures M.Ok(Restarted(w, s').db, Restarted(w, s').m)
  {
    hide Ok, C.Ok, SameHistory, HeaderOf, Restarted;
    SameRows(w.s, s');
    RestartedSane(w, s');
    RestartedRows(w, s');
    forall i | 0 <= i < |w.m.commits| ensures M.CommitOk(Restarted(w, s').db, w.m.commits[i]) {
      RestartedCommit(w, s', i);
    }
    RestartedShape(w, s');
    OkParts(w);
  }

  lemma RestartedShape(w: State, s': C.State)
    requires Ok(w) && C.Ok(s') && s'.up && s'.rows == w.s.rows
    ensures Restarted(w, s').m == M.Meaning(w.m.committed, map[], w.m.commits)
    ensures Restarted(w, s').db.active == map[]
  {
  }

  lemma RestartedSane(w: State, s': C.State)
    requires Ok(w) && C.Ok(s') && s'.up && SameHistory(w.s, s')
    ensures M.DbOk(Restarted(w, s').db)
  {
    OkParts(w);
    hide Ok, C.Ok, Stores, SameHistory;
    var db := Restarted(w, s').db;
    forall u | u in db.entries ensures M.EntryOk(db, u) {
      RestartedHeader(w, s', u);
    }
  }

  lemma RestartedHeader(w: State, s': C.State, u: int)
    requires Ok(w) && C.Ok(s') && s'.up && SameHistory(w.s, s') && u in w.at && u in w.db.entries
    ensures var db, db' := w.db, Restarted(w, s').db;
            && db'.status.Keys == db.status.Keys && (forall x | x in db.status :: db'.status[x] != Active)
            && (forall x :: IsCommitted(db'.status, x) <==> IsCommitted(db.status, x))
            && u in db'.entries && db'.entries[u].xmin == db.entries[u].xmin && db.entries[u].xmin in db.status
            && (db'.entries[u].xmax == 0 || db'.entries[u].xmax in db.status)
            && (db.entries[u].xmax != 0 && IsCommitted(db.status, db.entries[u].xmax) ==> db'.entries[u].xmax == db.entries[u].xmax)
            && (db'.entries[u].xmax != 0 && IsCommitted(db.status, db'.entries[u].xmax) ==> db'.entries[u].xmax == db.entries[u].xmax)
  {
    HeadersAgree(w, s', u);
    hide Ok, C.Ok, Content, Item, IsValid, EntryOf, SameHistory;
    SameRows(w.s, s');
  }

  lemma SameRows(s: C.State, s': C.State)
    requires SameHistory(s, s')
    ensures s'.rows == s.rows && s'.log == s.log
  {
  }

  lemma RestartedRows(w: State, s': C.State)
    requires Ok(w) && C.Ok(s') && s'.up && SameHistory(w.s, s')
    ensures forall u :: M.CommittedOk(Restarted(w, s').db, Restarted(w, s').m, u)
  {
    OkParts(w);
    hide Ok, C.Ok, SameHistory, M.DbOk, M.WorkOk, Carries, WritersNamed, Fits;
    var w' := Restarted(w, s');
    forall u ensures M.CommittedOk(w'.db, w'.m, u) {
      assert M.CommittedOk(w.db, w.m, u);
      if u in w.at {
        RestartedHeader(w, s', u);
      }
    }
  }

  lemma RestartedCommit(w: State, s': C.State, i: nat)
    requires Ok(w) && C.Ok(s') && s'.up && SameHistory(w.s, s') && i < |w.m.commits|
    ensures M.CommitOk(Restarted(w, s').db, w.m.commits[i])
  {
    OkParts(w);
    assert M.CommitOk(w.db, w.m.commits[i]);
    hide Ok, C.Ok, SameHistory, M.Ok, Carries, WritersNamed, Fits;
    var db, c := Restarted(w, s').db, w.m.commits[i];
    forall u | u in c.deleted ensures u in db.entries && db.entries[u].xmax == c.xid {
      RestartedHeader(w, s', u);
    }
    CommittedStay(w, s', c.xid);
  }

  lemma CommittedStay(w: State, s': C.State, x: int)
    requires Ok(w) && C.Ok(s') && s'.up && s'.rows == w.s.rows && IsCommitted(w.db.status, x)
    ensures IsCommitted(Restarted(w, s').db.status, x)
  {
  }

  lemma RestartedStores(w: State, s': C.State)
    requires Ok(w) && C.Ok(s') && s'.up && SameHistory(w.s, s')
    requires forall k | 0 <= k < |s'.log| && s'.log[k].xid in s'.status :: s'.status[s'.log[k].xid] != Active
    ensures Stores(Restarted(w, s').db, s', w.at)
  {
    var db := Restarted(w, s').db;
    RestartedAgree(w, s');
    hide C.Ok, M.Ok, Content, Item, IsValid, EntryOf, Fits, StatusAgree, Carries, WritersNamed;
    forall u | u in w.at ensures Carries(db.status, s', w.at[u], db.entries[u]) && WritersNamed(db.status, s'.log, w.at[u], db.entries[u]) {
      RestartedCarries(w, s', u);
    }
  }

  lemma RestartedAgree(w: State, s': C.State)
    requires Ok(w) && C.Ok(s') && s'.up && SameHistory(w.s, s')
    requires forall k | 0 <= k < |s'.log| && s'.log[k].xid in s'.status :: s'.status[s'.log[k].xid] != Active
    ensures var db := Restarted(w, s').db;
            && StatusAgree(db.status, s'.status, s'.log) && (forall x | x in db.status :: db.status[x] != Active)
            && db.entries.Keys == w.at.Keys && Fits(db.counter, 8)
  {
    hide C.Ok, M.Ok, Carries, WritersNamed, Fits;
    var db := Restarted(w, s').db;
    forall k | 0 <= k < |s'.log| && s'.log[k].xid in db.status ensures db.status[s'.log[k].xid] == s'.status[s'.log[k].xid] {
      var x := s'.log[k].xid;
      assert s'.status[x] != Active;
      assert s'.status[x] == Committed <==> w.s.status[x] == Committed;
    }
  }

  lemma RestartedCarries(w: State, s': C.State, u: int)
    requires Ok(w) && C.Ok(s') && s'.up && SameHistory(w.s, s') && u in w.at
    requires forall x | x in Restarted(w, s').db.status :: Restarted(w, s').db.status[x] != Active
    ensures var db := Restarted(w, s').db;
            && u in db.entries && Carries(db.status, s', w.at[u], db.entries[u])
            && WritersNamed(db.status, s'.log, w.at[u], db.entries[u])
  {
    HeadersAgree(w, s', u);
    hide C.Ok, M.Ok, Content, Item, IsValid, EntryOf, Fits, Stores;
  }

  /** Crash, any attempts at recovery that are cut short, and one that finishes. */
  ghost predicate Restarts(w: State, down: seq<C.Event>, xids: seq<int>, w': State) {
    && Ok(w) && (forall i | 0 <= i < |down| :: WhileDown(down[i]))
    && exists s1, s2 :: C.Can(w.s, C.Crash) && s1 == C.Next(w.s, C.Crash) && Goes(s1, down, s2) && C.Can(s2, C.Recover(xids))
                        && Back(w, C.Next(s2, C.Recover(xids)), w')
  }

  ghost predicate Back(w: State, s': C.State, w': State)
    requires Ok(w)
  {
    C.Ok(s') && s'.up && s'.rows == w.s.rows && w' == Restarted(w, s')
  }

  /** Restarting brings the engine back with the same committed database. */
  lemma RestartOk(w: State, down: seq<C.Event>, xids: seq<int>, w': State)
    requires Restarts(w, down, xids, w')
    ensures Ok(w') && w'.m.committed == w.m.committed && w'.m.commits == w.m.commits
  {
    hide C.Can, C.Next, C.Ok, M.Ok, Stores, Goes, Restarted;
    var s1, s2 :| C.Can(w.s, C.Crash) && s1 == C.Next(w.s, C.Crash) && Goes(s1, down, s2) && C.Can(s2, C.Recover(xids))
                  && Back(w, C.Next(s2, C.Recover(xids)), w');
    OkParts(w);
    CrashKeeps(w.s);
    DownKeeps(s1, down, s2);
    RecoverKeeps(s2, xids);
    var s' := C.Next(s2, C.Recover(xids));
    RestartedDb(w, s');
    RestartedStores(w, s');
    RestartedIs(w, s');
  }

  lemma CrashKeeps(s: C.State)
    requires C.Ok(s) && C.Can(s, C.Crash)
    ensures var s' := C.Next(s, C.Crash); C.Ok(s') && !s'.up && SameHistory(s, s')
  {
    C.NextOk(s, C.Crash);
  }

  lemma RestartedIs(w: State, s': C.State)
    requires Ok(w) && C.Ok(s') && s'.up && s'.rows == w.s.rows
    ensures var w' := Restarted(w, s'); w'.s == s' && w'.at == w.at && w'.m.committed == w.m.committed && w'.m.commits == w.m.commits
  {
  }

  // ------------------------------------------------------------------ whole runs

  datatype Step = Logical(e: M.Event, place: Place) | Storage(own: C.Event) | Restart(down: seq<C.Event>, xids: seq<int>)

  ghost predicate Makes(w: State, st: Step, w': State) {
    match st
    case Logical(e, pl) => Enabled(w, e, pl) && Together(w, e, pl, w')
    case Storage(e) => Own(e) && C.Can(w.s, e) && w' == w.(s := C.Next(w.s, e))
    case Restart(down, xids) => Restarts(w, down, xids, w')
  }

  ghost predicate Run(ws: seq<State>, steps: seq<Step>) {
    && |ws| == |steps| + 1 && ws[0] == Start()
    && forall i, j | 0 <= i < |steps| && j == i + 1 :: Makes(ws[i], steps[i], ws[j])
  }

  ghost function Start(): State {
    State(M.EmptyDb(), M.EmptyMeaning(), C.Init(), map[])
  }

  lemma StartOk()
    ensures Ok(Start())
  {
    C.InitOk();
    Halves();
  }

  lemma {:induction false} GoesOneWay(s: C.State, es: seq<C.Event>, s': C.State, s'': C.State)
    requires Goes(s, es, s') && Goes(s, es, s'')
    ensures s' == s''
    decreases |es|
  {
    hide C.Can, C.Next;
    if es != [] {
      GoesOneWay(C.Next(s, es[0]), es[1..], s', s'');
    }
  }

  lemma MakesOk(w: State, st: Step, w': State)
    requires Ok(w) && Makes(w, st, w')
    ensures Ok(w')
  {
    match st
    case Logical(e, pl) =>
      hide Ok, Enabled, Asks, C.Can, C.Next, M.Next, M.NextMeaning;
      var made := LogicalStep(w, e, pl);
      GoesOneWay(w.s, Asks(w.db, w.at, e, pl), w'.s, made.s);
      assert w' == made;
    case Storage(e) =>
      hide Ok, C.Can, C.Next;
      OwnStep(w, e);
    case Restart(down, xids) =>
      hide Ok, Restarts;
      RestartOk(w, down, xids, w');
  }

  lemma {:induction false} RunOk(ws: seq<State>, steps: seq<Step>, i: nat)
    requires Run(ws, steps) && i < |ws|
    ensures Ok(ws[i])
  {
    hide Ok, Makes;
    if i == 0 {
      StartOk();
    } else {
      RunOk(ws, steps, i - 1);
      MakesOk(ws[i - 1], steps[i - 1], ws[i]);
    }
  }

  /** In every run of version manager and storage, through any number of crashes, a live
      reader that goes by the bytes on the pages gets what it is meant to see: what was
      committed when it began, or is now, with its own changes. */
  lemma RunsShowWhatIsMeant(ws: seq<State>, steps: seq<Step>, i: nat, x: int, u: int)
    requires Run(ws, steps) && i < |ws| && M.Live(ws[i].db, x) && u in ws[i].at
    ensures var w := ws[i];
            && x in w.m.work && Item(w.s.log, w.s.mem, w.at[u]) && HoldsRow(Content(w.s.log, w.s.mem, w.at[u]))
            && (w.m.work[x].level in {RepeatableRead, Serializable} ==>
                  (Seen(Content(w.s.log, w.s.mem, w.at[u]), w.db.status, w.db.active[x]) <==> u in M.Rows(w.m.work[x])))
            && (w.m.work[x].level == ReadCommitted ==>
                  (Seen(Content(w.s.log, w.s.mem, w.at[u]), w.db.status, w.db.active[x]) <==>
                     u in (w.m.committed + w.m.work[x].inserted) - w.m.work[x].deleted))
  {
    RunOk(ws, steps, i);
    ReadsMeant(ws[i], x, u);
  }

  lemma ReadsMeant(w: State, x: int, u: int)
    requires Ok(w) && M.Live(w.db, x) && u in w.at
    ensures x in w.m.work && Item(w.s.log, w.s.mem, w.at[u]) && HoldsRow(Content(w.s.log, w.s.mem, w.at[u]))
    ensures w.m.work[x].level in {RepeatableRead, Serializable} ==>
              (Seen(Content(w.s.log, w.s.mem, w.at[u]), w.db.status, w.db.active[x]) <==> u in M.Rows(w.m.work[x]))
    ensures w.m.work[x].level == ReadCommitted ==>
              (Seen(Content(w.s.log, w.s.mem, w.at[u]), w.db.status, w.db.active[x]) <==>
                 u in (w.m.committed + w.m.work[x].inserted) - w.m.work[x].deleted)
  {
    hide C.Ok, Content, Item, IsValid, EntryOf, Fits;
    assert Carries(w.db.status, w.s, w.at[u], w.db.entries[u]);
    assert M.TxnOk(w.db, x) && M.WorkOk(w.db, w.m.work[x], x, u);
    if KeepsSnapshot(w.db.active[x].level) {
      M.SnapshotIsMeant(w.db, w.m, x, u);
    } else if w.db.active[x].level == ReadCommitted {
      M.ReadCommittedIsMeant(w.db, w.m, x, u);
    }
  }

  /** The committed database changes at commits alone, and then by exactly the
      transaction's own changes; crashes and restarts leave it as it is. */
  lemma RunsKeepCommitted(ws: seq<State>, steps: seq<Step>, i: nat)
    requires Run(ws, steps) && i < |steps|
    ensures var w, w' := ws[i], ws[i + 1];
            if steps[i].Logical? && steps[i].e.Commit? && M.Ready(w.db, steps[i].e.xid) && steps[i].e.xid in w.m.work then
              var own := w.m.work[steps[i].e.xid];
              w'.m.committed == (w.m.committed + own.inserted) - own.deleted
            else w'.m.committed == w.m.committed
  {
    hide Ok, Enabled, Goes, Asks, Restarts, Start;
    var j := i + 1;
    assert Makes(ws[i], steps[i], ws[j]);
    RunOk(ws, steps, i);
    if steps[i].Restart? {
      RestartOk(ws[i], steps[i].down, steps[i].xids, ws[j]);
    }
  }

  /** Nothing that has committed is undone by what follows, crashes included: no commit
      is forgotten, it stays committed, and the rows it deleted keep its mark. */
  lemma {:induction false} CommitsStay(ws: seq<State>, steps: seq<Step>, i: nat, j: nat)
    requires Run(ws, steps) && i <= j < |ws|
    ensures ws[i].m.commits <= ws[j].m.commits
    ensures forall k | 0 <= k < |ws[i].m.commits| :: M.CommitOk(ws[j].db, ws[i].m.commits[k])
  {
    hide Ok, Makes, M.CommitOk, Start;
    if i < j {
      CommitsStay(ws, steps, i, j - 1);
      CommitsGrow(ws, steps, j - 1);
    }
    RunOk(ws, steps, j);
    forall k | 0 <= k < |ws[i].m.commits| ensures M.CommitOk(ws[j].db, ws[i].m.commits[k]) {
      CommitIs(ws[j], k);
      assert ws[i].m.commits[k] == ws[j].m.commits[k];
    }
  }

  lemma CommitIs(w: State, k: nat)
    requires Ok(w) && k < |w.m.commits|
    ensures M.CommitOk(w.db, w.m.commits[k])
  {
    hide C.Ok, Stores;
  }

  lemma CommitsGrow(ws: seq<State>, steps: seq<Step>, i: nat)
    requires Run(ws, steps) && i < |steps|
    ensures ws[i].m.commits <= ws[i + 1].m.commits
  {
    hide Ok, Enabled, Goes, Asks, Restarts, Start;
    var j := i + 1;
    assert Makes(ws[i], steps[i], ws[j]);
    RunOk(ws, steps, i);
    if steps[i].Restart? {
      RestartOk(ws[i], steps[i].down, steps[i].xids, ws[j]);
    }
  }
}
