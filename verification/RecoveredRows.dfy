/** What readers see after recovery: the rows of the committed transactions in the
    log, whichever transactions recovery treated as active and however often it
    was started over. */
module RecoveredRows {
  import opened Bytes
  import opened LogRecords
  import opened PageX
  import opened Recovery
  import opened Visibility

  // Rows in the log.

  predicate Deletion(r: Record, xid: int, a: Address) {
    r.Update? && Writes(r, xid, a)
  }

  ghost predicate DeletedBy(log: seq<Record>, n: nat, xid: int, a: Address)
    requires n <= |log|
  {
    exists k :: 0 <= k < n && Deletion(log[k], xid, a)
  }

  ghost predicate InsertedBy(log: seq<Record>, n: nat, xid: int, a: Address)
    requires n <= |log|
  {
    exists k :: 0 <= k < n && log[k].Insert? && Writes(log[k], xid, a)
  }

  /** Record k is one that inserting a row or setting its xmax logs: the row found
      is valid, names its inserter, and was marked by nobody or by an earlier
      deleter. */
  ghost predicate RowRecord(log: seq<Record>, k: nat)
    requires k < |log|
  {
    match log[k]
    case Insert(xid, _, _, raw) =>
      HoldsRow(raw) && IsValid(raw) && EntryOf(raw) == Entry(xid, 0)
    case Update(xid, _, _, oldRaw, newRaw) =>
      var a := AddressOf(log[k]);
      && HoldsRow(oldRaw) && HoldsRow(newRaw) && IsValid(oldRaw) && IsValid(newRaw)
      && EntryOf(newRaw) == Entry(EntryOf(oldRaw).xmin, xid)
      && InsertedBy(log, k, EntryOf(oldRaw).xmin, a)
      && (EntryOf(oldRaw).xmax == 0 || DeletedBy(log, k, EntryOf(oldRaw).xmax, a))
  }

  ghost predicate RowAt(log: seq<Record>, a: Address) {
    && Length(log, |log|, a) > 0
    && forall k: nat | k < |log| && AddressOf(log[k]) == a :: RowRecord(log, k)
  }

  /** A committed deletion is never overwritten by another transaction's. */
  ghost predicate NoOverwrite(log: seq<Record>, status: map<int, Status>, a: Address) {
    forall i, j | 0 <= i < j < |log| && AddressOf(log[i]) == a && AddressOf(log[j]) == a ::
      log[i].Update? && IsCommitted(status, log[i].xid) ==> log[j].xid == log[i].xid
  }

  ghost predicate NotCommitted(active: set<int>, status: map<int, Status>) {
    forall x | x in active :: !IsCommitted(status, x)
  }

  /** The row is in the committed database: its inserter committed and none of its
      deleters did. */
  ghost predicate CommittedRow(log: seq<Record>, status: map<int, Status>, a: Address) {
    && (exists x :: InsertedBy(log, |log|, x, a) && IsCommitted(status, x))
    && forall x :: DeletedBy(log, |log|, x, a) ==> !IsCommitted(status, x)
  }

  /** A transaction begun after everything in the log. */
  ghost predicate FreshReader(log: seq<Record>, t: Transaction) {
    && !t.level.ReadUncommitted? && 0 < t.xid
    && forall k | 0 <= k < |log| :: log[k].xid < t.xid && log[k].xid !in t.snapshot
  }

  predicate Seen(item: seq<byte>, status: map<int, Status>, t: Transaction)
    requires HoldsRow(item)
  {
    IsValid(item) && IsVisible(status, t, EntryOf(item))
  }

  /** What is true of a row's bytes whenever the database is up: it names its
      inserter and one of its deleters or none; a deleter that is committed (or may
      still commit) is the one named; and the row is flagged only if its inserter
      can no longer commit. */
  ghost predicate RowOk(item: seq<byte>, log: seq<Record>, live: set<int>, a: Address) {
    && HoldsRow(item)
    && InsertedBy(log, |log|, EntryOf(item).xmin, a)
    && (EntryOf(item).xmax == 0 || DeletedBy(log, |log|, EntryOf(item).xmax, a))
    && (forall x | DeletedBy(log, |log|, x, a) && x in live :: EntryOf(item).xmax == x)
    && (EntryOf(item).xmin in live ==> IsValid(item))
  }

  lemma OneInserter(log: seq<Record>, x: int, y: int, a: Address)
    requires LogOk(log) && InsertedBy(log, |log|, x, a) && InsertedBy(log, |log|, y, a)
    ensures x == y
  {
    var i :| 0 <= i < |log| && log[i].Insert? && Writes(log[i], x, a);
    var j :| 0 <= j < |log| && log[j].Insert? && Writes(log[j], y, a);
    if i < j {
      OneInsert(log, i, j);
    } else if j < i {
      OneInsert(log, j, i);
    }
  }

  /** Such bytes show the row to a fresh reader exactly when it is a committed row. */
  lemma RowOkIsSeen(item: seq<byte>, log: seq<Record>, status: map<int, Status>, live: set<int>, a: Address, t: Transaction)
    requires LogOk(log) && RowOk(item, log, live, a) && FreshReader(log, t)
    requires forall x :: InsertedBy(log, |log|, x, a) || DeletedBy(log, |log|, x, a) ==> (IsCommitted(status, x) ==> x in live)
    requires forall x :: DeletedBy(log, |log|, x, a) ==> x != SUPER_XID
    ensures Seen(item, status, t) <==> CommittedRow(log, status, a)
  {
    hide LogOk;
    var e := EntryOf(item);
    assert e.xmin < t.xid && e.xmin !in t.snapshot by {
      var k :| 0 <= k < |log| && log[k].Insert? && Writes(log[k], e.xmin, a);
    }
    if e.xmax != 0 {
      var k :| 0 <= k < |log| && Deletion(log[k], e.xmax, a);
      assert e.xmax < t.xid && e.xmax !in t.snapshot;
    }
    if CommittedRow(log, status, a) {
      var x :| InsertedBy(log, |log|, x, a) && IsCommitted(status, x);
      OneInserter(log, x, e.xmin, a);
    }
  }

  /** The record a settled item comes from. */
  lemma {:induction false} SettledSource(log: seq<Record>, active: set<int>, a: Address, n: nat) returns (k: nat)
    requires LogOk(log) && LockRule(log, active) && n <= |log| && Length(log, n, a) > 0
    ensures k < n && AddressOf(log[k]) == a && (log[k].Insert? ==> log[k].raw != [])
    ensures Settled(log, active, a, n) == RawOf(log[k], log[k].xid in active)
    ensures log[k].xid in active ==> Untouched(log, log[k].xid, a, k)
    ensures log[k].xid !in active ==> forall j | k < j < n :: AddressOf(log[j]) != a
  {
    assert RecordOk(log, n - 1);
    var r := log[n - 1];
    if AddressOf(r) == a && (r.xid !in active || !Touched(log, r.xid, a, n - 1)) {
      k := n - 1;
    } else {
      if AddressOf(r) == a {
        var i :| 0 <= i < n - 1 && Writes(log[i], r.xid, a);
        TouchedIsInserted(log, i, n - 1, a);
        k := SettledSource(log, active, a, n - 1);
        ActiveStays(log, active, i, k, n - 1, a);
      } else {
        k := SettledSource(log, active, a, n - 1);
      }
    }
  }

  lemma ActiveStays(log: seq<Record>, active: set<int>, i: nat, k: nat, n: nat, a: Address)
    requires LockRule(log, active) && i < n <= |log| && k < n
    requires AddressOf(log[i]) == a && AddressOf(log[k]) == a && log[i].xid in active
    requires log[k].xid !in active ==> forall j | k < j < n :: AddressOf(log[j]) != a
    ensures log[k].xid in active
  {
  }

  /** Recovery leaves every row as a running database would have it. */
  lemma SettledRowOk(log: seq<Record>, active: set<int>, status: map<int, Status>, live: set<int>, a: Address)
    requires LogOk(log) && LockRule(log, active) && RowAt(log, a) && NoOverwrite(log, status, a)
    requires live !! active && forall x | x in live :: IsCommitted(status, x)
    ensures RowOk(Settled(log, active, a, |log|), log, live, a)
  {
    hide LogOk;
    var k := SettledSource(log, active, a, |log|);
    assert RowRecord(log, k);
    var r := log[k];
    var item := Settled(log, active, a, |log|);
    if r.Insert? {
      FlaggedReads(r.raw);
      assert Writes(log[k], r.xid, a);
    } else {
      assert Deletion(log[k], r.xid, a);
      RowRecordFacts(log, k);
    }
    forall x | DeletedBy(log, |log|, x, a) && x in live ensures EntryOf(item).xmax == x {
      var i :| 0 <= i < |log| && Deletion(log[i], x, a);
      DeletionIsLast(log, active, status, a, k, i);
    }
  }

  lemma RowRecordFacts(log: seq<Record>, k: nat)
    requires k < |log| && log[k].Update? && RowRecord(log, k)
    ensures var a := AddressOf(log[k]);
            && InsertedBy(log, |log|, EntryOf(log[k].oldRaw).xmin, a)
            && (EntryOf(log[k].oldRaw).xmax == 0 || DeletedBy(log, |log|, EntryOf(log[k].oldRaw).xmax, a))
  {
  }

  /** A committed deletion is what recovery keeps. */
  lemma DeletionIsLast(log: seq<Record>, active: set<int>, status: map<int, Status>, a: Address, k: nat, i: nat)
    requires LogOk(log) && LockRule(log, active) && NoOverwrite(log, status, a)
    requires k < |log| && AddressOf(log[k]) == a && i < |log| && AddressOf(log[i]) == a && log[i].Update?
    requires IsCommitted(status, log[i].xid) && log[i].xid !in active
    requires log[k].xid !in active ==> forall j | k < j < |log| :: AddressOf(log[j]) != a
    ensures log[k].Update? && log[k].xid == log[i].xid
  {
    if i < k {
      OneInsert(log, i, k);
    } else if k < i {
      assert log[k].xid in active;
      assert log[i].xid == log[k].xid;
    }
  }

  // Recovering.

  ghost predicate Legal(log: seq<Record>, active: set<int>, status: map<int, Status>, a: Address) {
    && LockRule(log, active) && RowAt(log, a) && NoOverwrite(log, status, a) && NotCommitted(active, status)
    && forall x :: DeletedBy(log, |log|, x, a) ==> x != SUPER_XID
  }

  /** The states recovery goes through, redoing and undoing one record at a time. */
  ghost predicate RecoveryTrace(log: seq<Record>, states: seq<Pages>) {
    && states != [] && Ready(log, states[0])
    && forall i | 0 < i < |states| :: RecoveryStep(log, states[i - 1], states[i])
  }

  ghost predicate RecoveryStep(log: seq<Record>, before: Pages, after: Pages) {
    Ready(log, before) ==>
      exists k: nat, undo: bool :: k < |log| && after == Step(log, before, k, undo)
  }

  /** The pages left when recovery is cut short: each is written back as it was at
      some moment, and not all at the same one. */
  ghost predicate Leftover(states: seq<Pages>, disk: Pages) {
    && (states != [] ==> disk.Keys == states[0].Keys)
    && forall p | p in disk :: exists i :: 0 <= i < |states| && p in states[i] && disk[p] == states[i][p]
  }

  lemma {:induction false} TraceIsReady(log: seq<Record>, states: seq<Pages>, n: nat)
    requires RecoveryTrace(log, states) && n < |states|
    ensures Ready(log, states[n]) && states[n].Keys == states[0].Keys
  {
    if n > 0 {
      TraceIsReady(log, states, n - 1);
      assert RecoveryStep(log, states[n - 1], states[n]);
    }
  }

  lemma LeftoverIsReady(log: seq<Record>, states: seq<Pages>, disk: Pages)
    requires RecoveryTrace(log, states) && Leftover(states, disk)
    ensures Ready(log, disk)
  {
    forall p | p in disk ensures Fso(disk[p]) <= Top(log, |log|, p) {
      var i :| 0 <= i < |states| && p in states[i] && disk[p] == states[i][p];
      TraceIsReady(log, states, i);
    }
  }

  // Recovering again, with transactions redone that the first recovery aborted.

  ghost predicate LastRecord(log: seq<Record>, a: Address, k: nat) {
    k < |log| && AddressOf(log[k]) == a && forall j | k < j < |log| :: AddressOf(log[j]) != a
  }

  ghost predicate FirstRecord(log: seq<Record>, xid: int, a: Address, f: nat) {
    f < |log| && Writes(log[f], xid, a) && Untouched(log, xid, a, f)
  }

  /** The row's last record belongs to one of the `aborted`, whose first record on it
      marked a row that a committed transaction had inserted and another one, committed
      as well, deleted. */
  ghost predicate Revives(log: seq<Record>, aborted: set<int>, status: map<int, Status>, a: Address) {
    exists k: nat, f: nat :: LastRecord(log, a, k) && log[k].xid in aborted && FirstRecord(log, log[k].xid, a, f)
                   && DeletedBefore(log[f], status)
  }

  predicate DeletedBefore(r: Record, status: map<int, Status>) {
    && r.Update? && HoldsRow(r.oldRaw)
    && IsCommitted(status, EntryOf(r.oldRaw).xmin)
    && EntryOf(r.oldRaw).xmax != 0 && IsCommitted(status, EntryOf(r.oldRaw).xmax)
  }

  predicate FoundUnmarked(r: Record, status: map<int, Status>) {
    r.Update? && !DeletedBefore(r, status)
  }

  /** A mark of the super transaction, 0, is none. */
  predicate CommittedDeletion(r: Record, status: map<int, Status>) {
    r.Update? && r.xid != SUPER_XID && IsCommitted(status, r.xid)
  }

  /** The header of a row in the log. */
  ghost predicate EntryInLog(log: seq<Record>, e: Entry, a: Address) {
    InsertedBy(log, |log|, e.xmin, a) && (e.xmax == 0 || DeletedBy(log, |log|, e.xmax, a))
  }

  lemma FreshSees(log: seq<Record>, status: map<int, Status>, a: Address, e: Entry, t: Transaction)
    requires FreshReader(log, t) && EntryInLog(log, e, a)
    ensures IsVisible(status, t, e) <==> IsCommitted(status, e.xmin) && (e.xmax == 0 || !IsCommitted(status, e.xmax))
  {
    var i :| 0 <= i < |log| && log[i].Insert? && Writes(log[i], e.xmin, a);
    assert e.xmin < t.xid && e.xmin !in t.snapshot;
    if e.xmax != 0 {
      var k :| 0 <= k < |log| && Deletion(log[k], e.xmax, a);
      assert e.xmax < t.xid && e.xmax !in t.snapshot;
    }
  }

  /** Undoing the first record of an active transaction shows what was there, if it
      was no insertion. */
  lemma UndoneIsSeen(log: seq<Record>, status: map<int, Status>, f: nat, t: Transaction)
    requires LogOk(log) && f < |log| && RowRecord(log, f) && FreshReader(log, t)
    ensures (log[f].Insert? ==> log[f].raw != []) && HoldsRow(RawOf(log[f], true))
    ensures Seen(RawOf(log[f], true), status, t) <==>
            log[f].Update? && IsCommitted(status, EntryOf(log[f].oldRaw).xmin) && !DeletedBefore(log[f], status)
  {
    assert RecordOk(log, f);
    if log[f].Insert? {
      FlaggedReads(log[f].raw);
    } else {
      RowRecordFacts(log, f);
      FreshSees(log, status, AddressOf(log[f]), EntryOf(log[f].oldRaw), t);
    }
  }

  /** Redoing a record shows the row exactly if its inserter committed and the record is no
      committed deletion, whoever may have deleted the row before. */
  lemma RedoneIsSeen(log: seq<Record>, status: map<int, Status>, k: nat, t: Transaction)
    requires LogOk(log) && k < |log| && RowRecord(log, k) && FreshReader(log, t)
    ensures (log[k].Insert? ==> log[k].raw != []) && HoldsRow(RawOf(log[k], false))
    ensures Seen(RawOf(log[k], false), status, t) <==>
            IsCommitted(status, InserterIn(log[k])) && !CommittedDeletion(log[k], status)
    ensures InsertedBy(log, |log|, InserterIn(log[k]), AddressOf(log[k]))
  {
    assert RecordOk(log, k);
    var a := AddressOf(log[k]);
    if log[k].Insert? {
      assert Writes(log[k], log[k].xid, a);
      assert InsertedBy(log, |log|, log[k].xid, a);
      FreshSees(log, status, a, EntryOf(log[k].raw), t);
    } else {
      RowRecordFacts(log, k);
      assert Deletion(log[k], log[k].xid, a);
      FreshSees(log, status, a, EntryOf(log[k].newRaw), t);
    }
  }

  function InserterIn(r: Record): int
    requires r.Update? ==> HoldsRow(r.oldRaw)
  {
    if r.Insert? then r.xid else EntryOf(r.oldRaw).xmin
  }

  lemma {:induction false} FirstOf(log: seq<Record>, xid: int, a: Address, k: nat) returns (f: nat)
    requires k < |log| && Writes(log[k], xid, a)
    ensures FirstRecord(log, xid, a, f) && f <= k
  {
    if Untouched(log, xid, a, k) {
      f := k;
    } else {
      var j :| 0 <= j < k && Writes(log[j], xid, a);
      f := FirstOf(log, xid, a, j);
    }
  }

  lemma FirstIsOne(log: seq<Record>, xid: int, a: Address, f: nat, g: nat)
    requires FirstRecord(log, xid, a, f) && FirstRecord(log, xid, a, g)
    ensures f == g
  {
  }

  lemma LastIsOne(log: seq<Record>, a: Address, k: nat, l: nat)
    requires LastRecord(log, a, k) && LastRecord(log, a, l)
    ensures k == l
  {
  }

  lemma ThereIsALast(log: seq<Record>, a: Address) returns (k: nat)
    requires LogOk(log) && Length(log, |log|, a) > 0
    ensures LastRecord(log, a, k)
  {
    k := SettledSource(log, {}, a, |log|);
  }

  lemma RevivesAt(log: seq<Record>, aborted: set<int>, status: map<int, Status>, a: Address, k: nat, f: nat)
    requires LastRecord(log, a, k) && FirstRecord(log, log[k].xid, a, f)
    ensures Revives(log, aborted, status, a) <==> log[k].xid in aborted && DeletedBefore(log[f], status)
  {
    hide DeletedBefore, Untouched;
    if Revives(log, aborted, status, a) {
      var l: nat, g: nat :| LastRecord(log, a, l) && log[l].xid in aborted && FirstRecord(log, log[l].xid, a, g)
                  && DeletedBefore(log[g], status);
      LastIsOne(log, a, k, l);
      FirstIsOne(log, log[k].xid, a, f, g);
    }
  }

  // What recovery shows of any log, whoever wrote the row when.

  ghost predicate InserterCommitted(log: seq<Record>, status: map<int, Status>, a: Address) {
    exists x :: InsertedBy(log, |log|, x, a) && IsCommitted(status, x)
  }

  ghost predicate DeleterCommitted(log: seq<Record>, status: map<int, Status>, a: Address) {
    exists x :: DeletedBy(log, |log|, x, a) && IsCommitted(status, x)
  }

  /** What recovery leaves of the row names no committed deleter: the last transaction
      undone there had found it so, or none was undone there and the last record is
      no committed deletion. */
  ghost predicate LeavesUnmarked(log: seq<Record>, active: set<int>, xids: seq<int>, status: map<int, Status>, a: Address) {
    || (exists i: nat, f: nat :: LastUndone(log, xids, a, i) && FirstRecord(log, xids[i], a, f) && FoundUnmarked(log[f], status))
    || (Quiet(log, active, a) && exists k: nat :: LastRecord(log, a, k) && !CommittedDeletion(log[k], status))
  }

  /** A committed transaction deleted the row, and recovery leaves no committed mark. */
  ghost predicate LostDeletion(log: seq<Record>, active: set<int>, xids: seq<int>, status: map<int, Status>, a: Address) {
    InserterCommitted(log, status, a) && DeleterCommitted(log, status, a) && LeavesUnmarked(log, active, xids, status, a)
  }

  lemma InserterOfUpdate(log: seq<Record>, f: nat)
    requires f < |log| && RowRecord(log, f) && log[f].Update?
    ensures InsertedBy(log, |log|, EntryOf(log[f].oldRaw).xmin, AddressOf(log[f]))
  {
    RowRecordFacts(log, f);
  }

  /** The inserter is one and the same in every record, so it has committed or not. */
  lemma CommittedInserter(log: seq<Record>, status: map<int, Status>, a: Address, x: int)
    requires LogOk(log) && InsertedBy(log, |log|, x, a)
    ensures (exists y :: InsertedBy(log, |log|, y, a) && IsCommitted(status, y)) <==> IsCommitted(status, x)
  {
    forall y | InsertedBy(log, |log|, y, a) ensures y == x {
      OneInserter(log, y, x, a);
    }
  }

  lemma UnmarkedUndone(log: seq<Record>, active: set<int>, xids: seq<int>, status: map<int, Status>, a: Address, i: nat, f: nat)
    requires Lists(xids, log, active) && LastUndone(log, xids, a, i) && FirstRecord(log, xids[i], a, f)
    ensures LeavesUnmarked(log, active, xids, status, a) <==> FoundUnmarked(log[f], status)
  {
    var x := xids[i];
    assert x in xids;
    assert AddressOf(log[f]) == a && log[f].xid in active;
    hide DeletedBefore, FoundUnmarked, CommittedDeletion;
    if j: nat, g: nat :| LastUndone(log, xids, a, j) && FirstRecord(log, xids[j], a, g) && FoundUnmarked(log[g], status) {
      OneLastUndone(log, xids, a, i, j);
      FirstIsOne(log, x, a, f, g);
    }
  }

  lemma OneLastUndone(log: seq<Record>, xids: seq<int>, a: Address, i: nat, j: nat)
    requires LastUndone(log, xids, a, i) && LastUndone(log, xids, a, j)
    ensures i == j
  {
  }

  lemma UnmarkedQuiet(log: seq<Record>, active: set<int>, xids: seq<int>, status: map<int, Status>, a: Address, k: nat)
    requires Lists(xids, log, active) && Quiet(log, active, a) && LastRecord(log, a, k)
    ensures LeavesUnmarked(log, active, xids, status, a) <==> !CommittedDeletion(log[k], status)
  {
    hide DeletedBefore, FoundUnmarked, CommittedDeletion;
    forall i: nat | i < |xids| ensures !LastUndone(log, xids, a, i) {
      assert xids[i] in xids;
      QuietUntouched(log, active, a, xids[i]);
      assert !Touched(log, xids[i], a, |log|);
    }
    if l: nat :| LastRecord(log, a, l) && !CommittedDeletion(log[l], status) {
      LastIsOne(log, a, k, l);
    }
  }

  /** The transaction undone last on a row that an active one wrote. */
  lemma UndoneLast(log: seq<Record>, active: set<int>, xids: seq<int>, a: Address) returns (i: nat, f: nat)
    requires Lists(xids, log, active) && !Quiet(log, active, a)
    ensures LastUndone(log, xids, a, i) && FirstRecord(log, xids[i], a, f) && xids[i] in active
  {
    var k: nat :| k < |log| && AddressOf(log[k]) == a && log[k].xid in active;
    var x := log[k].xid;
    assert x in xids;
    var j: nat :| j < |xids| && xids[j] == x;
    assert Writes(log[k], xids[j], a);
    assert Touched(log, xids[j], a, |log|);
    i := SomeLastUndone(log, xids, a, |xids|);
    var l: nat :| l < |log| && Writes(log[l], xids[i], a);
    f := FirstOf(log, xids[i], a, l);
    assert xids[i] in xids;
  }

  /** Exactly what a fresh reader sees of a row after recovery. */
  lemma RecoveredIsSeen(log: seq<Record>, active: set<int>, xids: seq<int>, status: map<int, Status>,
                        pages: Pages, a: Address, t: Transaction)
    requires Ready(log, pages) && Lists(xids, log, active) && RowAt(log, a) && FreshReader(log, t)
    requires NotCommitted(active, status)
    ensures var after := Recovered(log, active, xids, pages);
            && Item(log, after, a) && HoldsRow(Content(log, after, a))
            && (Seen(Content(log, after, a), status, t) <==>
                InserterCommitted(log, status, a) && LeavesUnmarked(log, active, xids, status, a))
  {
    hide Recovered, Content, Item, Seen, LogOk, DiskOk, DeletedBefore, Length;
    if Quiet(log, active, a) {
      var k := ThereIsALast(log, a);
      assert RowRecord(log, k);
      assert log[k].Update? ==> Deletion(log[k], log[k].xid, a);
      assert log[k].Update? ==> DeletedBy(log, |log|, log[k].xid, a);
      hide RowRecord, FreshReader, InsertedBy, DeletedBy;
      RecoveryRedoes(log, active, xids, pages, a, k);
      RedoneIsSeen(log, status, k, t);
      CommittedInserter(log, status, a, InserterIn(log[k]));
      UnmarkedQuiet(log, active, xids, status, a, k);
    } else {
      var i, f := UndoneLast(log, active, xids, a);
      assert RowRecord(log, f);
      hide RowRecord, FreshReader, InsertedBy, DeletedBy;
      RecoveryUndoes(log, active, xids, pages, a, i, f);
      UndoneIsSeen(log, status, f, t);
      UnmarkedUndone(log, active, xids, status, a, i, f);
      if log[f].Update? {
        InserterOfUpdate(log, f);
        CommittedInserter(log, status, a, EntryOf(log[f].oldRaw).xmin);
      }
    }
  }

  /** Committed rows are always left unmarked. */
  lemma CommittedIsUnmarked(log: seq<Record>, active: set<int>, xids: seq<int>, status: map<int, Status>, a: Address)
    requires LogOk(log) && Lists(xids, log, active) && RowAt(log, a) && NotCommitted(active, status)
    requires CommittedRow(log, status, a)
    ensures LeavesUnmarked(log, active, xids, status, a)
  {
    if Quiet(log, active, a) {
      var k := ThereIsALast(log, a);
      UnmarkedQuiet(log, active, xids, status, a, k);
      assert log[k].Update? ==> Deletion(log[k], log[k].xid, a);
    } else {
      var i, f := UndoneLast(log, active, xids, a);
      UnmarkedUndone(log, active, xids, status, a, i, f);
      assert RowRecord(log, f);
      if log[f].Insert? {
        assert Writes(log[f], log[f].xid, a) && InsertedBy(log, |log|, log[f].xid, a);
        CommittedInserter(log, status, a, log[f].xid);
      } else {
        RowRecordFacts(log, f);
      }
    }
  }

  /** For any log, over whatever pages a crash left and in whatever order transactions
      are undone: a fresh reader sees exactly the committed rows and the rows whose
      committed deletion was lost. */
  lemma RecoveredRowsExactly(log: seq<Record>, active: set<int>, xids: seq<int>, status: map<int, Status>,
                             pages: Pages, a: Address, t: Transaction)
    requires Ready(log, pages) && Lists(xids, log, active)
    requires RowAt(log, a) && NotCommitted(active, status) && FreshReader(log, t)
    ensures var after := Recovered(log, active, xids, pages);
            && Item(log, after, a) && HoldsRow(Content(log, after, a))
            && (Seen(Content(log, after, a), status, t) <==>
                CommittedRow(log, status, a) || LostDeletion(log, active, xids, status, a))
    ensures LostDeletion(log, active, xids, status, a) ==> !CommittedRow(log, status, a)
  {
    hide Recovered, Content, Item, Seen, LogOk, DiskOk, Lists, RowAt, FreshReader, LeavesUnmarked, InsertedBy, DeletedBy;
    RecoveredIsSeen(log, active, xids, status, pages, a, t);
    if CommittedRow(log, status, a) {
      CommittedIsUnmarked(log, active, xids, status, a);
    }
  }

  /** Two recoveries over one log, of different active transactions and from different
      pages, show a row differently exactly if its inserter committed and one of them
      alone leaves it unmarked. */
  lemma RecoveringAgainExactly(log: seq<Record>, active: set<int>, left: set<int>, xids: seq<int>, again: seq<int>,
                               states: seq<Pages>, disk: Pages, status: map<int, Status>, a: Address, t: Transaction)
    requires RecoveryTrace(log, states) && Leftover(states, disk)
    requires left <= active && Lists(xids, log, active) && Lists(again, log, left)
    requires RowAt(log, a) && NotCommitted(active, status) && FreshReader(log, t)
    ensures Ready(log, disk) && Ready(log, states[0])
    ensures var first := Recovered(log, active, xids, states[0]);
            var second := Recovered(log, left, again, disk);
            && Item(log, first, a) && HoldsRow(Content(log, first, a))
            && Item(log, second, a) && HoldsRow(Content(log, second, a))
            && ((Seen(Content(log, second, a), status, t) <==> Seen(Content(log, first, a), status, t)) <==>
                (InserterCommitted(log, status, a) ==>
                   (LeavesUnmarked(log, left, again, status, a) <==> LeavesUnmarked(log, active, xids, status, a))))
  {
    hide Recovered, Content, Item, Seen, LogOk, Lists, RowAt, FreshReader, LeavesUnmarked, InserterCommitted, Revives;
    LeftoverIsReady(log, states, disk);
    RecoveredIsSeen(log, active, xids, status, states[0], a, t);
    RecoveredIsSeen(log, left, again, status, disk, a, t);
  }

  // Under the lock rule.

  /** Only the last record on the row and its transaction's first one matter then, and
      not the order of undoing. */
  lemma UnmarkedUnderLocks(log: seq<Record>, active: set<int>, xids: seq<int>, status: map<int, Status>, a: Address, k: nat, f: nat)
    requires LockRule(log, active) && Lists(xids, log, active)
    requires LastRecord(log, a, k) && FirstRecord(log, log[k].xid, a, f)
    ensures LeavesUnmarked(log, active, xids, status, a) <==>
            if log[k].xid in active then FoundUnmarked(log[f], status) else !CommittedDeletion(log[k], status)
  {
    hide DeletedBefore, FoundUnmarked, CommittedDeletion, LeavesUnmarked, Lists;
    if log[k].xid in active {
      var i, g := UndoneLast(log, active, xids, a);
      LastActive(log, active, a, k, g);
      FirstIsOne(log, log[k].xid, a, f, g);
      UnmarkedUndone(log, active, xids, status, a, i, g);
    } else {
      forall j | 0 <= j < |log| && AddressOf(log[j]) == a ensures log[j].xid !in active {
        if log[j].xid in active {
          LastActive(log, active, a, k, j);
        }
      }
      UnmarkedQuiet(log, active, xids, status, a, k);
    }
  }

  lemma LastActive(log: seq<Record>, active: set<int>, a: Address, k: nat, j: nat)
    requires LockRule(log, active) && LastRecord(log, a, k)
    requires j < |log| && AddressOf(log[j]) == a && log[j].xid in active
    ensures log[k].xid == log[j].xid
  {
  }

  /** Recovering again over the same log, after a first recovery that finished or was
      cut short anywhere, shows fresh readers the same rows, although transactions the
      first one aborted are now redone: all rows but exactly those that it revives. */
  lemma RecoveringAgain(log: seq<Record>, active: set<int>, left: set<int>, xids: seq<int>, again: seq<int>,
                        states: seq<Pages>, disk: Pages, status: map<int, Status>, a: Address, t: Transaction)
    requires RecoveryTrace(log, states) && Leftover(states, disk)
    requires left <= active && Lists(xids, log, active) && Lists(again, log, left)
    requires LockRule(log, active) && RowAt(log, a) && NotCommitted(active, status) && FreshReader(log, t)
    ensures Ready(log, disk) && Ready(log, states[0])
    ensures var first := Recovered(log, active, xids, states[0]);
            var second := Recovered(log, left, again, disk);
            && Item(log, first, a) && HoldsRow(Content(log, first, a))
            && Item(log, second, a) && HoldsRow(Content(log, second, a))
            && (Seen(Content(log, second, a), status, t) <==>
                Seen(Content(log, first, a), status, t) || Revives(log, active - left, status, a))
            && (Revives(log, active - left, status, a) ==> !Seen(Content(log, first, a), status, t))
  {
    hide Recovered, Content, Item, Seen, LogOk, Lists, RowAt, FreshReader, LeavesUnmarked, InserterCommitted, Revives;
    hide LockRule, NotCommitted;
    LeftoverIsReady(log, states, disk);
    RecoveredIsSeen(log, active, xids, status, states[0], a, t);
    LessCommitted(active, left, status);
    RecoveredIsSeen(log, left, again, status, disk, a, t);
    UnmarkedAgain(log, active, left, xids, again, status, a);
  }

  lemma LessCommitted(active: set<int>, left: set<int>, status: map<int, Status>)
    requires left <= active && NotCommitted(active, status)
    ensures NotCommitted(left, status)
  {
  }

  lemma UnmarkedAgain(log: seq<Record>, active: set<int>, left: set<int>, xids: seq<int>, again: seq<int>,
                      status: map<int, Status>, a: Address)
    requires LogOk(log) && LockRule(log, active) && RowAt(log, a) && NotCommitted(active, status)
    requires left <= active && Lists(xids, log, active) && Lists(again, log, left)
    ensures InserterCommitted(log, status, a) && LeavesUnmarked(log, left, again, status, a) <==>
            || (InserterCommitted(log, status, a) && LeavesUnmarked(log, active, xids, status, a))
            || Revives(log, active - left, status, a)
    ensures Revives(log, active - left, status, a) ==>
              !(InserterCommitted(log, status, a) && LeavesUnmarked(log, active, xids, status, a))
  {
    hide LogOk, Lists, LeavesUnmarked, Revives, Length;
    var k := ThereIsALast(log, a);
    var f := FirstOf(log, log[k].xid, a, k);
    UnmarkedUnderLocks(log, active, xids, status, a, k, f);
    UnmarkedUnderLocks(log, left, again, status, a, k, f);
    RevivesAt(log, active - left, status, a, k, f);
    assert RowRecord(log, f);
    if log[f].Insert? {
      assert Writes(log[f], log[f].xid, a) && InsertedBy(log, |log|, log[f].xid, a);
      CommittedInserter(log, status, a, log[f].xid);
    } else {
      InserterOfUpdate(log, f);
      CommittedInserter(log, status, a, EntryOf(log[f].oldRaw).xmin);
    }
  }

  /** Nothing is revived where no committed deletion is overwritten. */
  lemma NothingRevives(log: seq<Record>, active: set<int>, left: set<int>, status: map<int, Status>, a: Address)
    requires RowAt(log, a) && NotCommitted(active, status) && NoOverwrite(log, status, a)
    ensures !Revives(log, active - left, status, a)
  {
  }

  /** No deletion is lost where row locks are kept to the end and no committed deletion
      is overwritten. */
  lemma LegalLosesNothing(log: seq<Record>, active: set<int>, xids: seq<int>, status: map<int, Status>, a: Address)
    requires LogOk(log) && Lists(xids, log, active) && Legal(log, active, status, a)
    ensures !LostDeletion(log, active, xids, status, a)
  {
    hide LogOk, Lists, LeavesUnmarked;
    if DeleterCommitted(log, status, a) {
      var x :| DeletedBy(log, |log|, x, a) && IsCommitted(status, x);
      var i :| 0 <= i < |log| && Deletion(log[i], x, a);
      var k := ThereIsALast(log, a);
      assert log[i].xid !in active;
      DeletionIsLast(log, active, status, a, k, i);
      var f := FirstOf(log, x, a, k);
      UnmarkedUnderLocks(log, active, xids, status, a, k, f);
    }
  }

  /** There, after recovery a fresh reader sees a row exactly when it is a committed row
      of the log. Neither the pages the crash left, nor the order of undoing, nor even
      the set of active transactions matters. */
  lemma RecoveredRowsAreCommitted(log: seq<Record>, active: set<int>, xids: seq<int>, status: map<int, Status>,
                                  pages: Pages, a: Address, t: Transaction)
    requires Ready(log, pages) && Lists(xids, log, active) && Legal(log, active, status, a) && FreshReader(log, t)
    ensures var after := Recovered(log, active, xids, pages);
            && Item(log, after, a) && HoldsRow(Content(log, after, a))
            && (Seen(Content(log, after, a), status, t) <==> CommittedRow(log, status, a))
  {
    hide Recovered, Content, Item, Seen, LogOk, Lists, LostDeletion, CommittedRow, FreshReader;
    RecoveredRowsExactly(log, active, xids, status, pages, a, t);
    LegalLosesNothing(log, active, xids, status, a);
  }

  // Why both conditions are there: one log in which a row is inserted by
  // transaction 1 and then marked by 2 and by 3.

  const ROW := Address(2, 2)

  ghost function Images(): (seq<byte>, seq<byte>, seq<byte>)
    ensures var (row, marked, remarked) := Images();
            && |row| == |marked| == |remarked| == OF_ROW
            && IsValid(row) && IsValid(marked) && IsValid(remarked)
            && EntryOf(row) == Entry(1, 0) && EntryOf(marked) == Entry(1, 2) && EntryOf(remarked) == Entry(1, 3)
  {
    Small();
    NewRow(1, []);
    var row := WrapDataItemRaw(WrapEntryRaw(1, []));
    WithXmaxReads(row, 2);
    var marked := WithXmax(row, 2);
    WithXmaxReads(marked, 3);
    (row, marked, WithXmax(marked, 3))
  }

  lemma Small()
    ensures forall v, n | 0 <= v < 100 && (n == 2 || n == 4 || n == 8) :: Fits(v, n)
  {
    Halves();
  }

  ghost function TwoDeleters(): seq<Record> {
    var (row, marked, remarked) := Images();
    [Insert(1, 2, 2, row), Update(2, 2, 2, row, marked), Update(3, 2, 2, marked, remarked)]
  }

  lemma TwoDeletersOk()
    ensures LogOk(TwoDeleters()) && RowAt(TwoDeleters(), ROW)
    ensures InsertedBy(TwoDeleters(), 3, 1, ROW) && DeletedBy(TwoDeleters(), 3, 2, ROW) && DeletedBy(TwoDeleters(), 3, 3, ROW)
  {
    hide Images, Fits, IsValid, EntryOf;
    Small();
    var log := TwoDeleters();
    var (row, marked, remarked) := Images();
    assert Length(log, 1, ROW) == OF_ROW;
    assert Length(log, 2, ROW) == OF_ROW;
    assert Length(log, 3, ROW) == OF_ROW;
    assert RecordOk(log, 0) && RecordOk(log, 1) && RecordOk(log, 2);
    assert Writes(log[0], 1, ROW) && InsertedBy(log, 1, 1, ROW) && InsertedBy(log, 2, 1, ROW);
    assert Deletion(log[1], 2, ROW) && DeletedBy(log, 2, 2, ROW) && Deletion(log[2], 3, ROW);
    assert RowRecord(log, 0) && RowRecord(log, 1) && RowRecord(log, 2);
  }

  lemma SettledTwoDeleters(active: set<int>)
    requires 1 !in active
    ensures var log := TwoDeleters();
            && LogOk(log)
            && (active == {} ==> Settled(log, active, ROW, 3) == Images().2)
            && (active == {3} ==> Settled(log, active, ROW, 3) == Images().1)
  {
    hide Images, IsValid, EntryOf;
    TwoDeletersOk();
    var log := TwoDeleters();
    if active == {3} {
      assert !Touched(log, 3, ROW, 2);
    }
  }

  const LOST := map[1 := Committed, 2 := Active, 3 := Committed]
  const REVIVED := map[1 := Committed, 2 := Committed, 3 := Aborted]

  lemma SeenImages(t: Transaction)
    requires FreshReader(TwoDeleters(), t)
    ensures Seen(Images().0, LOST, t) && !Seen(Images().1, REVIVED, t) && Seen(Images().2, REVIVED, t)
  {
    hide Images, IsValid, EntryOf;
    var log := TwoDeleters();
    assert log[0].xid < t.xid && log[0].xid !in t.snapshot && log[1].xid < t.xid && log[1].xid !in t.snapshot;
    assert log[2].xid < t.xid && log[2].xid !in t.snapshot;
  }

  lemma OneListed(log: seq<Record>, k: nat)
    requires k < |log|
    ensures Lists([log[k].xid], log, {log[k].xid})
  {
  }

  lemma TwoDeletersShape()
    ensures var log := TwoDeleters();
            && |log| == 3 && log[0].xid == 1 && log[1].xid == 2 && log[2].xid == 3 && log[0].Insert? && log[1].Update? && log[2].Update?
            && AddressOf(log[0]) == AddressOf(log[1]) == AddressOf(log[2]) == ROW
  {
    hide Images;
  }

  lemma TwoDeletersSecond()
    ensures |TwoDeleters()| == 3 && TwoDeleters()[1] == Update(2, 2, 2, Images().0, Images().1)
  {
    hide Images;
  }

  lemma TwoDeletersLists()
    ensures var log := TwoDeleters();
            Lists([2], log, {2}) && Lists([3], log, {3}) && Lists([], log, {})
  {
    var log := TwoDeleters();
    assert Lists([], log, {});
    hide TwoDeleters, Lists;
    TwoDeletersShape();
    OneListed(log, 1);
    OneListed(log, 2);
  }

  lemma TwoDeletersLocks()
    ensures !LockRule(TwoDeleters(), {2}) && LockRule(TwoDeleters(), {3}) && LockRule(TwoDeleters(), {})
  {
    hide TwoDeleters;
    TwoDeletersShape();
  }

  lemma TwoDeletersOverwrites()
    ensures NoOverwrite(TwoDeleters(), LOST, ROW) && !NoOverwrite(TwoDeleters(), REVIVED, ROW)
  {
    hide TwoDeleters;
    TwoDeletersShape();
  }

  lemma TwoDeletersRevive()
    ensures Revives(TwoDeleters(), {3} - {}, REVIVED, ROW)
  {
    hide Images, IsValid, EntryOf;
    var log := TwoDeleters();
    assert LastRecord(log, ROW, 2) && FirstRecord(log, 3, ROW, 2);
    assert DeletedBefore(log[2], REVIVED);
  }

  /** The headers that a row has had, by the log. */
  function LoggedHeaders(log: seq<Record>, a: Address): seq<Entry> {
    if log == [] then []
    else if AddressOf(log[0]) != a then LoggedHeaders(log[1..], a)
    else [HeaderIn(log[0])] + LoggedHeaders(log[1..], a)
  }

  function HeaderIn(r: Record): Entry {
    var raw := if r.Insert? then r.raw else r.newRaw;
    if HoldsRow(raw) then EntryOf(raw) else Entry(0, 0)
  }

  lemma TwoDeletersHeaders()
    ensures LoggedHeaders(TwoDeleters(), ROW) == [Entry(1, 0), Entry(1, 2), Entry(1, 3)]
  {
    hide Images, IsValid, EntryOf;
    var log := TwoDeleters();
    assert LoggedHeaders(log[3..], ROW) == [];
    assert LoggedHeaders(log[2..], ROW) == [Entry(1, 3)];
    assert log[1..][1..] == log[2..];
    assert LoggedHeaders(log[1..], ROW) == [Entry(1, 2), Entry(1, 3)];
  }

  lemma TwoDeletersLose()
    ensures LostDeletion(TwoDeleters(), {2}, [2], LOST, ROW)
  {
    hide Images, IsValid, EntryOf;
    TwoDeletersOk();
    var log := TwoDeleters();
    assert Writes(log[1], 2, ROW) && Touched(log, 2, ROW, 3);
    assert LastUndone(log, [2], ROW, 0) && FirstRecord(log, 2, ROW, 1);
    assert FoundUnmarked(log[1], LOST);
  }

  /** Without the lock rule a committed deletion is lost: 2 is active, 3 marked the
      row after it and committed, and undoing 2 brings back the unmarked row. */
  lemma UnlockedWriterLosesADeletion(pages: Pages, t: Transaction)
    requires Ready(TwoDeleters(), pages) && FreshReader(TwoDeleters(), t)
    ensures var log := TwoDeleters();
            var after := Recovered(log, {2}, [2], pages);
            && Lists([2], log, {2}) && RowAt(log, ROW) && NoOverwrite(log, LOST, ROW) && !LockRule(log, {2})
            && LostDeletion(log, {2}, [2], LOST, ROW) && !CommittedRow(log, LOST, ROW)
            && Item(log, after, ROW) && HoldsRow(Content(log, after, ROW)) && Seen(Content(log, after, ROW), LOST, t)
  {
    hide Images, TwoDeleters, IsValid, EntryOf, Seen, Content, Item, Recovered, Ready, LogOk, LostDeletion, CommittedRow;
    hide LockRule, Lists, NoOverwrite, FreshReader, InsertedBy, DeletedBy, RowRecord, Length;
    TwoDeletersOk();
    TwoDeletersLists();
    TwoDeletersLocks();
    TwoDeletersOverwrites();
    TwoDeletersLose();
    RecoveredRowsExactly(TwoDeleters(), {2}, [2], LOST, pages, ROW, t);
  }

  /** Without the other condition a committed deletion comes back to life: 3 marked
      the row over 2's committed deletion and was active at the crash. The first
      recovery restores 2's mark; a second one, with 3 aborted, redoes 3's. */
  lemma OverwrittenDeletionComesBack(pages: Pages, t: Transaction)
    requires Ready(TwoDeleters(), pages) && FreshReader(TwoDeleters(), t)
    ensures var log := TwoDeleters();
            var first := Recovered(log, {3}, [3], pages);
            var second := Recovered(log, {}, [], first);
            && Lists([3], log, {3}) && Lists([], log, {}) && LockRule(log, {3}) && RowAt(log, ROW)
            && !NoOverwrite(log, REVIVED, ROW) && Revives(log, {3} - {}, REVIVED, ROW)
            && Item(log, first, ROW) && HoldsRow(Content(log, first, ROW)) && !Seen(Content(log, first, ROW), REVIVED, t)
            && Item(log, second, ROW) && HoldsRow(Content(log, second, ROW)) && Seen(Content(log, second, ROW), REVIVED, t)
  {
    hide Images, TwoDeleters, IsValid, EntryOf, Seen, Content, Item, Recovered, Redo, Undo, Step, Ready, LogOk, Settled;
    hide LockRule, Lists, NoOverwrite, FreshReader, InsertedBy, DeletedBy, RowRecord, Top, Length;
    TwoDeletersOk();
    TwoDeletersShape();
    TwoDeletersLists();
    TwoDeletersLocks();
    TwoDeletersOverwrites();
    TwoDeletersRevive();
    hide Revives;
    SeenImages(t);
    var log := TwoDeleters();
    var first := Recovered(log, {3}, [3], pages);
    RecoveryIsDeterminedByTheLog(log, {3}, [3], pages, ROW);
    RecoveryIsDeterminedByTheLog(log, {}, [], first, ROW);
    SettledTwoDeleters({3});
    SettledTwoDeleters({});
  }
}
