/** Transactions over versioned rows as one state machine, next to the database
    that a reader is meant to see: the sets of rows that commits leave behind. */
module Mvcc {
  import opened Visibility

  /** What the program stores: transaction statuses and their counter, the active
      transactions, the row headers, and which transaction holds a row's lock. */
  datatype Db = Db(
    status: map<int, Status>,
    counter: int,
    active: map<int, Transaction>,
    entries: map<int, Entry>,
    owner: map<int, int>)

  datatype Event =
    | Begin(level: IsolationLevel)
    | Insert(xid: int, uid: int)
    | DeleteAsk(xid: int, uid: int)     // visible? then ask for the row's lock
    | LockRefused(xid: int)             // the lock table reports a deadlock
    | LockGranted(xid: int)
    | DeleteFinish(xid: int)            // the rest of delete, lock in hand
    | Commit(xid: int)
    | Abort(xid: int)

  predicate Ready(db: Db, xid: int) {
    xid in db.active && !db.active[xid].failed && db.active[xid].waitingFor.None?
  }

  predicate Waiting(db: Db, xid: int) {
    xid in db.active && !db.active[xid].failed && db.active[xid].waitingFor.Some?
  }

  function Release(owner: map<int, int>, xid: int): map<int, int> {
    map u | u in owner && owner[u] != xid :: owner[u]
  }

  function BeginDb(db: Db, level: IsolationLevel): Db {
    var xid := db.counter + 1;
    var snapshot := if KeepsSnapshot(level) then db.active.Keys + {SUPER_XID} else {};
    db.(counter := xid, status := db.status[xid := Active],
        active := db.active[xid := Transaction(xid, level, snapshot, false, None)])
  }

  function InsertDb(db: Db, xid: int, uid: int): Db {
    db.(entries := db.entries[uid := Entry(xid, 0)])
  }

  function WaitDb(db: Db, xid: int, waitingFor: Option): Db
    requires xid in db.active
  {
    db.(active := db.active[xid := db.active[xid].(waitingFor := waitingFor)])
  }

  /** The abort that a failed delete brings about: the transaction keeps its place
      among the active ones until its client aborts it. */
  function AutoAbortDb(db: Db, xid: int): Db
    requires xid in db.active
  {
    db.(status := db.status[xid := Aborted], owner := Release(db.owner, xid),
        active := db.active[xid := db.active[xid].(failed := true, waitingFor := None)])
  }

  function FinishDb(db: Db, xid: int): Db
    requires Waiting(db, xid) && db.active[xid].waitingFor.uid in db.entries
  {
    var t := db.active[xid];
    var e := db.entries[t.waitingFor.uid];
    if e.xmax == xid then WaitDb(db, xid, None)
    else if IsVersionSkip(db.status, t, e) then AutoAbortDb(db, xid)
    else WaitDb(db.(entries := db.entries[t.waitingFor.uid := e.(xmax := xid)]), xid, None)
  }

  function CommitDb(db: Db, xid: int): Db {
    db.(active := db.active - {xid}, owner := Release(db.owner, xid), status := db.status[xid := Committed])
  }

  function AbortDb(db: Db, xid: int): Db
    requires xid in db.active
  {
    if db.active[xid].failed then db.(active := db.active - {xid})
    else db.(active := db.active - {xid}, owner := Release(db.owner, xid), status := db.status[xid := Aborted])
  }

  /** One atomic step; an event that cannot happen now changes nothing. */
  function Next(db: Db, e: Event): Db {
    match e
    case Begin(level) => BeginDb(db, level)
    case Insert(xid, uid) => if Ready(db, xid) && uid !in db.entries then InsertDb(db, xid, uid) else db
    case DeleteAsk(xid, uid) =>
      if Ready(db, xid) && uid in db.entries && IsVisible(db.status, db.active[xid], db.entries[uid])
      then WaitDb(db, xid, Some(uid)) else db
    case LockRefused(xid) => if Waiting(db, xid) then AutoAbortDb(db, xid) else db
    case LockGranted(xid) =>
      if Waiting(db, xid) && db.active[xid].waitingFor.uid !in db.owner
      then db.(owner := db.owner[db.active[xid].waitingFor.uid := xid]) else db
    case DeleteFinish(xid) =>
      if Waiting(db, xid) && db.active[xid].waitingFor.uid in db.entries
         && db.active[xid].waitingFor.uid in db.owner && db.owner[db.active[xid].waitingFor.uid] == xid
      then FinishDb(db, xid) else db
    case Commit(xid) => if Ready(db, xid) then CommitDb(db, xid) else db
    case Abort(xid) => if xid in db.active && db.active[xid].waitingFor.None? then AbortDb(db, xid) else db
  }

  // ------------------------------------------------- the database as meant

  /** A transaction's own view of its work: the level it asked for, the rows committed
      when it began, the rows it inserted and the rows it deleted. */
  datatype Work = Work(level: IsolationLevel, base: set<int>, inserted: set<int>, deleted: set<int>)

  function Rows(w: Work): set<int> {
    (w.base + w.inserted) - w.deleted
  }

  datatype Committing = Committing(xid: int, deleted: set<int>)

  /** The meaning of a run: the committed rows, each active transaction's work,
      and the commits so far. None of this looks at xmin, xmax or snapshots. */
  datatype Meaning = Meaning(committed: set<int>, work: map<int, Work>, commits: seq<Committing>)

  function NextMeaning(m: Meaning, db: Db, e: Event): Meaning {
    match e
    case Begin(level) => m.(work := m.work[db.counter + 1 := Work(level, m.committed, {}, {})])
    case Insert(xid, uid) =>
      if Ready(db, xid) && uid !in db.entries && xid in m.work
      then m.(work := m.work[xid := m.work[xid].(inserted := m.work[xid].inserted + {uid})]) else m
    case DeleteFinish(xid) =>
      // a delete has worked exactly when the row now carries its mark
      if Waiting(db, xid) && xid in m.work && Deletes(db, Next(db, e), xid, db.active[xid].waitingFor.uid)
      then m.(work := m.work[xid := m.work[xid].(deleted := m.work[xid].deleted + {db.active[xid].waitingFor.uid})])
      else m
    case Commit(xid) =>
      if Ready(db, xid) && xid in m.work then
        Meaning((m.committed + m.work[xid].inserted) - m.work[xid].deleted, m.work,
                m.commits + [Committing(xid, m.work[xid].deleted)])
      else m
    case _ => m
  }

  predicate Deletes(db: Db, db': Db, xid: int, uid: int) {
    uid in db.entries && uid in db'.entries && db.entries[uid].xmax != xid && db'.entries[uid].xmax == xid
  }

  /** In the runs considered only snapshot-keeping transactions delete. */
  predicate Allowed(db: Db, e: Event) {
    e.DeleteAsk? && e.xid in db.active ==> KeepsSnapshot(db.active[e.xid].level)
  }

  // ------------------------------------------------------------------ invariant

  predicate Live(db: Db, xid: int) {
    xid in db.active && xid in db.status && db.status[xid] == Active
  }

  ghost predicate TxnOk(db: Db, xid: int) {
    xid in db.active ==>
      var t := db.active[xid];
      && t.xid == xid && xid in db.status
      && db.status[xid] == (if t.failed then Aborted else Active)
      && (KeepsSnapshot(t.level) ==>
            forall y | 1 <= y < xid && y !in t.snapshot :: y in db.status && db.status[y] != Active)
  }

  ghost predicate EntryOk(db: Db, u: int) {
    u in db.entries ==>
      var e := db.entries[u];
      && e.xmin in db.status
      && (e.xmax != 0 ==> e.xmax in db.status)
      && (db.status[e.xmin] == Active ==> e.xmax == 0 || e.xmax == e.xmin)
      && (e.xmax != 0 && db.status[e.xmax] == Active ==> u in db.owner && db.owner[u] == e.xmax)
  }

  ghost predicate DbOk(db: Db) {
    && db.counter >= 0
    && (forall x :: x in db.status <==> 1 <= x <= db.counter)
    && (forall x | x in db.status && db.status[x] == Active :: x in db.active)
    && (forall x | x in db.active :: TxnOk(db, x))
    && (forall u | u in db.entries :: EntryOk(db, u))
    && (forall u | u in db.owner :: Live(db, db.owner[u]))
  }

  /** What a live transaction's recorded work says about each row. */
  ghost predicate WorkOk(db: Db, w: Work, xid: int, u: int)
    requires xid in db.active
  {
    var t := db.active[xid];
    && w.level == t.level
    && (u in w.inserted <==> u in db.entries && db.entries[u].xmin == xid)
    && (u in w.deleted <==> u in db.entries && db.entries[u].xmax == xid)
    && (KeepsSnapshot(t.level) ==>
          (u in w.base <==> u in db.entries && Before(db.status, t, db.entries[u].xmin)
                            && !(db.entries[u].xmax != 0 && Before(db.status, t, db.entries[u].xmax))))
    && (t.waitingFor == Some(u) ==> KeepsSnapshot(t.level) && u in Rows(w))
  }

  ghost predicate CommittedOk(db: Db, m: Meaning, u: int) {
    u in m.committed <==>
      u in db.entries && IsCommitted(db.status, db.entries[u].xmin)
      && !(db.entries[u].xmax != 0 && IsCommitted(db.status, db.entries[u].xmax))
  }

  ghost predicate CommitOk(db: Db, c: Committing) {
    && IsCommitted(db.status, c.xid) && c.xid != 0
    && forall u | u in c.deleted :: u in db.entries && db.entries[u].xmax == c.xid
  }

  ghost predicate Ok(db: Db, m: Meaning) {
    && DbOk(db)
    && (forall x | Live(db, x) :: x in m.work)
    && (forall x, u | Live(db, x) && x in m.work :: WorkOk(db, m.work[x], x, u))
    && (forall u :: CommittedOk(db, m, u))
    && (forall i | 0 <= i < |m.commits| :: CommitOk(db, m.commits[i]))
    && (forall i, j | 0 <= i < j < |m.commits| :: m.commits[i].xid != m.commits[j].xid)
  }

  // ------------------------------------------------------- what a reader sees

  /** A snapshot-keeping transaction sees a row exactly when it was committed when
      the transaction began, or the transaction inserted it, and the transaction
      has not deleted it. */
  lemma SnapshotIsMeant(db: Db, m: Meaning, x: int, u: int)
    requires Ok(db, m) && Live(db, x) && KeepsSnapshot(db.active[x].level) && u in db.entries
    ensures x in m.work
    ensures IsVisible(db.status, db.active[x], db.entries[u]) <==> u in Rows(m.work[x])
  {
    assert TxnOk(db, x) && EntryOk(db, u) && WorkOk(db, m.work[x], x, u);
  }

  /** A READ_COMMITTED transaction sees exactly the rows committed by now, with its
      own insertions and without its own deletions. */
  lemma ReadCommittedIsMeant(db: Db, m: Meaning, x: int, u: int)
    requires Ok(db, m) && Live(db, x) && db.active[x].level == ReadCommitted && u in db.entries
    ensures x in m.work
    ensures IsVisible(db.status, db.active[x], db.entries[u]) <==>
            u in (m.committed + m.work[x].inserted) - m.work[x].deleted
  {
    assert TxnOk(db, x) && EntryOk(db, u) && WorkOk(db, m.work[x], x, u) && CommittedOk(db, m, u);
  }

  /** The row that a granted delete marks carries no mark, or a dead one. */
  lemma MarkIsFree(db: Db, m: Meaning, x: int, u: int)
    requires Ok(db, m) && Waiting(db, x) && db.active[x].waitingFor == Some(u)
    requires u in db.owner && db.owner[u] == x
    ensures u in db.entries && Live(db, x) && KeepsSnapshot(db.active[x].level)
    ensures var e := db.entries[u];
            e.xmax != x && !IsVersionSkip(db.status, db.active[x], e) ==>
              e.xmax == 0 || (e.xmax in db.status && db.status[e.xmax] == Aborted)
  {
    assert TxnOk(db, x) && WorkOk(db, m.work[x], x, u) && EntryOk(db, u);
    SnapshotIsMeant(db, m, x, u);
  }

  /** A delete that holds the lock goes through exactly when the row is still committed,
      or the transaction inserted it: when nobody has deleted it and committed since the
      transaction began. A row marked by an aborted transaction can be deleted. Otherwise
      the transaction is aborted. */
  lemma DeleteWorks(db: Db, m: Meaning, x: int, u: int)
    requires Ok(db, m) && Waiting(db, x) && db.active[x].waitingFor == Some(u)
    requires u in db.owner && db.owner[u] == x
    ensures x in m.work && u in db.entries && db.entries[u].xmax != x
    ensures var after := Next(db, DeleteFinish(x));
            if u in m.committed || u in m.work[x].inserted then
              && after.entries == db.entries[u := db.entries[u].(xmax := x)]
              && after.active == db.active[x := db.active[x].(waitingFor := None)]
              && after.status == db.status && after.owner == db.owner
            else
              && after.entries == db.entries && after.status == db.status[x := Aborted]
              && after.active == db.active[x := db.active[x].(failed := true, waitingFor := None)]
              && after.owner == Release(db.owner, x)
    ensures u in m.committed || u in m.work[x].inserted <==>
            db.entries[u].xmax == 0 || (db.entries[u].xmax in db.status && db.status[db.entries[u].xmax] == Aborted)
  {
    assert TxnOk(db, x) && WorkOk(db, m.work[x], x, u) && EntryOk(db, u) && CommittedOk(db, m, u);
  }

  /** A delete waits for the lock exactly when the row is one the transaction is meant
      to see. */
  lemma DeleteAsks(db: Db, m: Meaning, x: int, u: int)
    requires Ok(db, m) && Ready(db, x) && KeepsSnapshot(db.active[x].level)
    ensures x in m.work
    ensures Next(db, DeleteAsk(x, u)) ==
            if u in Rows(m.work[x]) then db.(active := db.active[x := db.active[x].(waitingFor := Some(u))]) else db
  {
    assert TxnOk(db, x) && Live(db, x) && WorkOk(db, m.work[x], x, u);
    if u in db.entries {
      SnapshotIsMeant(db, m, x, u);
    }
  }

  // ------------------------------------------------------------------- steps

  lemma BeginDbOk(db: Db, level: IsolationLevel)
    requires DbOk(db)
    ensures DbOk(BeginDb(db, level))
  {
    var db' := BeginDb(db, level);
    forall x | x in db'.active ensures TxnOk(db', x) {
      assert TxnOk(db, x);
    }
    forall u | u in db'.entries ensures EntryOk(db', u) {
      assert EntryOk(db, u);
    }
    assert forall x | x in db.status && db.status[x] == Active :: x in db.active;
  }

  lemma BeginOk(db: Db, m: Meaning, level: IsolationLevel)
    requires Ok(db, m)
    ensures Ok(BeginDb(db, level), NextMeaning(m, db, Begin(level)))
  {
    var db', m' := BeginDb(db, level), NextMeaning(m, db, Begin(level));
    BeginDbOk(db, level);
    forall x, u | Live(db', x) && x in m'.work ensures WorkOk(db', m'.work[x], x, u) {
      BeginWorkOk(db, m, level, x, u);
    }
    forall u ensures CommittedOk(db', m', u) {
      assert CommittedOk(db, m, u);
      if u in db.entries {
        assert EntryOk(db, u);
      }
    }
    forall i | 0 <= i < |m'.commits| ensures CommitOk(db', m'.commits[i]) {
      assert CommitOk(db, m.commits[i]);
    }
  }

  lemma BeginWorkOk(db: Db, m: Meaning, level: IsolationLevel, x: int, u: int)
    requires Ok(db, m) && Live(BeginDb(db, level), x) && x in NextMeaning(m, db, Begin(level)).work
    ensures WorkOk(BeginDb(db, level), NextMeaning(m, db, Begin(level)).work[x], x, u)
  {
    if u in db.entries {
      assert EntryOk(db, u);
    }
    if x != db.counter + 1 {
      assert Live(db, x) && WorkOk(db, m.work[x], x, u);
    } else {
      assert CommittedOk(db, m, u);
      assert forall y | y in db.status && db.status[y] == Committed :: y !in db.active by {
        forall y | y in db.active ensures y in db.status && db.status[y] != Committed {
          assert TxnOk(db, y);
        }
      }
    }
  }

  lemma InsertOk(db: Db, m: Meaning, xid: int, uid: int)
    requires Ok(db, m) && Ready(db, xid) && uid !in db.entries
    ensures Ok(InsertDb(db, xid, uid), NextMeaning(m, db, Insert(xid, uid)))
  {
    var db', m' := InsertDb(db, xid, uid), NextMeaning(m, db, Insert(xid, uid));
    assert TxnOk(db, xid) && Live(db, xid);
    forall x | x in db'.active ensures TxnOk(db', x) {
      assert TxnOk(db, x);
    }
    forall u | u in db'.entries ensures EntryOk(db', u) {
      assert EntryOk(db, u);
    }
    forall x, u | Live(db', x) && x in m'.work ensures WorkOk(db', m'.work[x], x, u) {
      assert Live(db, x) && WorkOk(db, m.work[x], x, u) && TxnOk(db, x);
    }
    forall u ensures CommittedOk(db', m', u) {
      assert CommittedOk(db, m, u);
    }
    forall i | 0 <= i < |m'.commits| ensures CommitOk(db', m'.commits[i]) {
      assert CommitOk(db, m.commits[i]);
    }
  }

  lemma WaitOk(db: Db, m: Meaning, xid: int, waitingFor: Option)
    requires Ok(db, m) && Live(db, xid)
    requires waitingFor.Some? ==> KeepsSnapshot(db.active[xid].level) && waitingFor.uid in Rows(m.work[xid])
    ensures Ok(WaitDb(db, xid, waitingFor), m)
  {
    var db' := WaitDb(db, xid, waitingFor);
    forall x | x in db'.active ensures TxnOk(db', x) {
      assert TxnOk(db, x);
    }
    forall u | u in db'.entries ensures EntryOk(db', u) {
      assert EntryOk(db, u);
    }
    forall x, u | Live(db', x) && x in m.work ensures WorkOk(db', m.work[x], x, u) {
      assert Live(db, x) && WorkOk(db, m.work[x], x, u);
    }
    forall u ensures CommittedOk(db', m, u) {
      assert CommittedOk(db, m, u);
    }
    forall i | 0 <= i < |m.commits| ensures CommitOk(db', m.commits[i]) {
      assert CommitOk(db, m.commits[i]);
    }
  }

  lemma GrantOk(db: Db, m: Meaning, xid: int)
    requires Ok(db, m) && Waiting(db, xid) && db.active[xid].waitingFor.uid !in db.owner
    ensures Ok(Next(db, LockGranted(xid)), m)
  {
    var db' := Next(db, LockGranted(xid));
    assert TxnOk(db, xid);
    forall x | x in db'.active ensures TxnOk(db', x) {
      assert TxnOk(db, x);
    }
    forall u | u in db'.entries ensures EntryOk(db', u) {
      assert EntryOk(db, u);
    }
    forall x, u | Live(db', x) && x in m.work ensures WorkOk(db', m.work[x], x, u) {
      assert Live(db, x) && WorkOk(db, m.work[x], x, u);
    }
    forall u ensures CommittedOk(db', m, u) {
      assert CommittedOk(db, m, u);
    }
    forall i | 0 <= i < |m.commits| ensures CommitOk(db', m.commits[i]) {
      assert CommitOk(db, m.commits[i]);
    }
  }

  ghost predicate Marked(db: Db, m: Meaning, xid: int, uid: int, db': Db, m': Meaning)
    requires uid in db.entries && xid in m.work
  {
    && db' == db.(entries := db.entries[uid := db.entries[uid].(xmax := xid)])
    && m' == m.(work := m.work[xid := m.work[xid].(deleted := m.work[xid].deleted + {uid})])
  }

  /** The delete marks its row, which carried no mark, or an aborted one. */
  lemma MarkOk(db: Db, m: Meaning, xid: int, uid: int, db': Db, m': Meaning)
    requires Ok(db, m) && Live(db, xid) && db.active[xid].waitingFor.None? && KeepsSnapshot(db.active[xid].level)
    requires uid in db.owner && db.owner[uid] == xid && uid in db.entries && uid in Rows(m.work[xid])
    requires db.entries[uid].xmax == 0 || (db.entries[uid].xmax in db.status && db.status[db.entries[uid].xmax] == Aborted)
    requires Marked(db, m, xid, uid, db', m')
    ensures Ok(db', m')
  {
    assert TxnOk(db, xid) && WorkOk(db, m.work[xid], xid, uid) && EntryOk(db, uid);
    forall x | x in db'.active ensures TxnOk(db', x) {
      assert TxnOk(db, x);
    }
    forall u | u in db'.entries ensures EntryOk(db', u) {
      assert EntryOk(db, u);
    }
    forall x, u | Live(db', x) && x in m'.work ensures WorkOk(db', m'.work[x], x, u) {
      assert Live(db, x) && WorkOk(db, m.work[x], x, u) && TxnOk(db, x);
      if x != xid {
        OthersRow(db, m, xid, uid, x);
      }
    }
    forall u ensures CommittedOk(db', m', u) {
      assert CommittedOk(db, m, u);
    }
    forall i | 0 <= i < |m'.commits| ensures CommitOk(db', m'.commits[i]) {
      assert CommitOk(db, m.commits[i]);
    }
  }

  /** A row that its owner is about to mark is no other transaction's insertion,
      deletion or wait for deletion that the mark would disturb. */
  lemma OthersRow(db: Db, m: Meaning, xid: int, uid: int, x: int)
    requires Ok(db, m) && Live(db, xid) && uid in db.entries && uid in Rows(m.work[xid])
    requires KeepsSnapshot(db.active[xid].level) && Live(db, x) && x != xid
    ensures db.entries[uid].xmin != x
    ensures Before(db.status, db.active[x], xid) == false
  {
    assert TxnOk(db, xid) && TxnOk(db, x) && WorkOk(db, m.work[xid], xid, uid) && EntryOk(db, uid);
  }

  lemma FinishOk(db: Db, m: Meaning, xid: int, uid: int)
    requires Ok(db, m) && Waiting(db, xid) && db.active[xid].waitingFor == Some(uid)
    requires uid in db.owner && db.owner[uid] == xid && uid in db.entries
    ensures Ok(FinishDb(db, xid), NextMeaning(m, db, DeleteFinish(xid)))
  {
    var e := db.entries[uid];
    assert TxnOk(db, xid) && WorkOk(db, m.work[xid], xid, uid);
    if e.xmax == xid {
      WaitOk(db, m, xid, None);
    } else if IsVersionSkip(db.status, db.active[xid], e) {
      AutoAbortOk(db, m, xid);
    } else {
      MarkIsFree(db, m, xid, uid);
      WaitOk(db, m, xid, None);
      var w := m.work[xid];
      MarkOk(WaitDb(db, xid, None), m, xid, uid, FinishDb(db, xid), m.(work := m.work[xid := w.(deleted := w.deleted + {uid})]));
    }
  }

  /** A live transaction ends: what its status says about others does not change
      unless it commits. */
  lemma EndDbOk(db: Db, xid: int, status: Status, db': Db)
    requires DbOk(db) && Live(db, xid) && status != Active
    requires db'.status == db.status[xid := status] && db'.counter == db.counter && db'.entries == db.entries
    requires db'.owner == Release(db.owner, xid)
    requires forall x | x != xid :: (x in db'.active <==> x in db.active) && (x in db.active ==> db'.active[x] == db.active[x])
    requires xid in db'.active ==>
               status == Aborted && db'.active[xid] == db.active[xid].(failed := true, waitingFor := None)
    ensures DbOk(db')
  {
    assert TxnOk(db, xid);
    forall x | x in db'.active ensures TxnOk(db', x) {
      assert TxnOk(db, x);
    }
    forall u | u in db'.entries ensures EntryOk(db', u) {
      assert EntryOk(db, u);
    }
  }

  lemma AutoAbortOk(db: Db, m: Meaning, xid: int)
    requires Ok(db, m) && Live(db, xid)
    ensures Ok(AutoAbortDb(db, xid), m)
  {
    var db' := AutoAbortDb(db, xid);
    EndDbOk(db, xid, Aborted, db');
    AbortedMeans(db, m, xid, db');
  }

  lemma AbortedMeans(db: Db, m: Meaning, xid: int, db': Db)
    requires Ok(db, m) && Live(db, xid) && DbOk(db')
    requires db'.status == db.status[xid := Aborted] && db'.entries == db.entries
    requires forall x | x != xid :: (x in db'.active <==> x in db.active) && (x in db.active ==> db'.active[x] == db.active[x])
    ensures Ok(db', m)
  {
    forall x, u | Live(db', x) && x in m.work ensures WorkOk(db', m.work[x], x, u) {
      assert Live(db, x) && WorkOk(db, m.work[x], x, u);
    }
    forall u ensures CommittedOk(db', m, u) {
      assert CommittedOk(db, m, u);
    }
    forall i | 0 <= i < |m.commits| ensures CommitOk(db', m.commits[i]) {
      assert CommitOk(db, m.commits[i]);
    }
    assert forall x | Live(db', x) :: Live(db, x);
  }

  lemma AbortOk(db: Db, m: Meaning, xid: int)
    requires Ok(db, m) && xid in db.active && db.active[xid].waitingFor.None?
    ensures Ok(AbortDb(db, xid), m)
  {
    var db' := AbortDb(db, xid);
    assert TxnOk(db, xid);
    if db.active[xid].failed {
      forall x | x in db'.active ensures TxnOk(db', x) {
        assert TxnOk(db, x);
      }
      forall u | u in db'.entries ensures EntryOk(db', u) {
        assert EntryOk(db, u);
      }
      assert db.status == db.status[xid := Aborted];
      AbortedSame(db, m, xid, db');
    } else {
      EndDbOk(db, xid, Aborted, db');
      AbortedMeans(db, m, xid, db');
    }
  }

  /** Removing a transaction that had failed before changes nothing for the rest. */
  lemma AbortedSame(db: Db, m: Meaning, xid: int, db': Db)
    requires Ok(db, m) && xid in db.active && !Live(db, xid) && db' == db.(active := db.active - {xid}) && DbOk(db')
    ensures Ok(db', m)
  {
    forall x, u | Live(db', x) && x in m.work ensures WorkOk(db', m.work[x], x, u) {
      assert Live(db, x) && WorkOk(db, m.work[x], x, u);
    }
    forall u ensures CommittedOk(db', m, u) {
      assert CommittedOk(db, m, u);
    }
    forall i | 0 <= i < |m.commits| ensures CommitOk(db', m.commits[i]) {
      assert CommitOk(db, m.commits[i]);
    }
    assert forall x | Live(db', x) :: Live(db, x);
  }

  lemma CommitDbOk(db: Db, m: Meaning, xid: int)
    requires Ok(db, m) && Ready(db, xid)
    ensures Ok(CommitDb(db, xid), NextMeaning(m, db, Commit(xid)))
  {
    var db', m' := CommitDb(db, xid), NextMeaning(m, db, Commit(xid));
    assert TxnOk(db, xid) && Live(db, xid);
    EndDbOk(db, xid, Committed, db');
    forall x, u | Live(db', x) && x in m'.work ensures WorkOk(db', m'.work[x], x, u) {
      assert Live(db, x) && WorkOk(db, m.work[x], x, u) && TxnOk(db, x);
    }
    forall u ensures CommittedOk(db', m', u) {
      assert CommittedOk(db, m, u) && WorkOk(db, m.work[xid], xid, u) && EntryOk(db, u);
    }
    forall i | 0 <= i < |m'.commits| ensures CommitOk(db', m'.commits[i]) {
      if i < |m.commits| {
        assert CommitOk(db, m.commits[i]);
      } else {
        forall u | u in m.work[xid].deleted ensures u in db.entries && db.entries[u].xmax == xid {
          assert WorkOk(db, m.work[xid], xid, u);
        }
      }
    }
    assert forall x | Live(db', x) :: Live(db, x);
    forall i | 0 <= i < |m.commits| ensures m.commits[i].xid != xid {
      assert CommitOk(db, m.commits[i]);
    }
  }

  /** Every step of every kind keeps the stored state and its meaning together. */
  lemma NextOk(db: Db, m: Meaning, e: Event)
    requires Ok(db, m) && Allowed(db, e)
    ensures Ok(Next(db, e), NextMeaning(m, db, e))
  {
    hide Ok, DbOk, IsVisible, IsVersionSkip;
    match e
    case Begin(level) => BeginOk(db, m, level);
    case Insert(xid, uid) => if Ready(db, xid) && uid !in db.entries { InsertOk(db, m, xid, uid); InMeaning(db, m, xid); }
    case DeleteAsk(xid, uid) =>
      if Ready(db, xid) && uid in db.entries && IsVisible(db.status, db.active[xid], db.entries[uid]) {
        InMeaning(db, m, xid);
        SnapshotIsMeant(db, m, xid, uid);
        WaitOk(db, m, xid, Some(uid));
      }
    case LockRefused(xid) => if Waiting(db, xid) { InMeaning(db, m, xid); AutoAbortOk(db, m, xid); }
    case LockGranted(xid) => if Waiting(db, xid) && db.active[xid].waitingFor.uid !in db.owner { GrantOk(db, m, xid); }
    case DeleteFinish(xid) =>
      if Next(db, e) != db || Waiting(db, xid) { FinishStep(db, m, xid); }
    case Commit(xid) => if Ready(db, xid) { CommitDbOk(db, m, xid); }
    case Abort(xid) => if xid in db.active && db.active[xid].waitingFor.None? { AbortOk(db, m, xid); }
  }

  lemma InMeaning(db: Db, m: Meaning, xid: int)
    requires Ok(db, m) && xid in db.active && !db.active[xid].failed
    ensures Live(db, xid) && xid in m.work
  {
    assert TxnOk(db, xid);
  }

  lemma FinishStep(db: Db, m: Meaning, xid: int)
    requires Ok(db, m)
    ensures Ok(Next(db, DeleteFinish(xid)), NextMeaning(m, db, DeleteFinish(xid)))
  {
    if Waiting(db, xid) {
      var uid := db.active[xid].waitingFor.uid;
      if uid in db.entries && uid in db.owner && db.owner[uid] == xid {
        FinishOk(db, m, xid, uid);
      }
    }
  }

  // -------------------------------------------------------------- whole runs

  function EmptyDb(): Db { Db(map[], 0, map[], map[], map[]) }

  function EmptyMeaning(): Meaning { Meaning({}, map[], []) }

  ghost predicate Run(db: Db, m: Meaning, es: seq<Event>, db': Db, m': Meaning)
    decreases |es|
  {
    if es == [] then db' == db && m' == m
    else Allowed(db, es[0]) && Run(Next(db, es[0]), NextMeaning(m, db, es[0]), es[1..], db', m')
  }

  lemma {:induction false} RunOk(db: Db, m: Meaning, es: seq<Event>, db': Db, m': Meaning)
    requires Ok(db, m) && Run(db, m, es, db', m')
    ensures Ok(db', m')
    decreases |es|
  {
    if es != [] {
      NextOk(db, m, es[0]);
      RunOk(Next(db, es[0]), NextMeaning(m, db, es[0]), es[1..], db', m');
    }
  }

  /** In every run the visibility tests show each live transaction the database it
      is meant to see. */
  lemma RunsShowWhatIsMeant(es: seq<Event>, db: Db, m: Meaning, x: int, u: int)
    requires Run(EmptyDb(), EmptyMeaning(), es, db, m) && Live(db, x) && u in db.entries
    ensures x in m.work
    ensures m.work[x].level in {RepeatableRead, Serializable} ==>
              (IsVisible(db.status, db.active[x], db.entries[u]) <==> u in Rows(m.work[x]))
    ensures m.work[x].level == ReadCommitted ==>
              (IsVisible(db.status, db.active[x], db.entries[u]) <==>
                 u in (m.committed + m.work[x].inserted) - m.work[x].deleted)
  {
    RunOk(EmptyDb(), EmptyMeaning(), es, db, m);
    assert x in m.work && WorkOk(db, m.work[x], x, u);
    if KeepsSnapshot(db.active[x].level) {
      SnapshotIsMeant(db, m, x, u);
    } else if db.active[x].level == ReadCommitted {
      ReadCommittedIsMeant(db, m, x, u);
    }
  }

  predicate ActsBy(e: Event, x: int) {
    match e
    case Begin(_) => false
    case _ => e.xid == x
  }

  /** Nothing that others do changes what a transaction reads that asked for
      REPEATABLE_READ or SERIALIZABLE. */
  lemma ReadsAreStable(db: Db, m: Meaning, e: Event, x: int, u: int)
    requires Ok(db, m) && Allowed(db, e) && !ActsBy(e, x)
    requires Live(db, x) && x in m.work && m.work[x].level in {RepeatableRead, Serializable}
    ensures Live(Next(db, e), x) && Next(db, e).active[x] == db.active[x]
    ensures u in Next(db, e).entries && IsVisible(Next(db, e).status, db.active[x], Next(db, e).entries[u]) <==>
            u in db.entries && IsVisible(db.status, db.active[x], db.entries[u])
  {
    NextOk(db, m, e);
    OthersKeepPlace(db, e, x);
    assert WorkOk(db, m.work[x], x, u);
    var db', m' := Next(db, e), NextMeaning(m, db, e);
    assert TxnOk(db, x);
    assert x in m.work && x in m'.work && m'.work[x] == m.work[x];
    assert WorkOk(db, m.work[x], x, u) && WorkOk(db', m'.work[x], x, u);
    if u in db.entries {
      SnapshotIsMeant(db, m, x, u);
    }
    if u in db'.entries {
      SnapshotIsMeant(db', m', x, u);
    }
  }

  lemma OthersKeepPlace(db: Db, e: Event, x: int)
    requires DbOk(db) && Live(db, x) && !ActsBy(e, x)
    ensures Live(Next(db, e), x) && Next(db, e).active[x] == db.active[x]
  {
  }

  /** One step never changes the mark of a committed deleter. */
  lemma CommittedMarkStays(db: Db, m: Meaning, e: Event, u: int)
    requires Ok(db, m) && Allowed(db, e) && u in db.entries
    requires db.entries[u].xmax != 0 && IsCommitted(db.status, db.entries[u].xmax)
    ensures u in Next(db, e).entries && Next(db, e).entries[u] == db.entries[u]
    ensures IsCommitted(Next(db, e).status, db.entries[u].xmax)
  {
    assert EntryOk(db, u);
    StatusFinal(db, e, db.entries[u].xmax);
    if e.DeleteFinish? && Waiting(db, e.xid) && db.active[e.xid].waitingFor == Some(u)
       && u in db.owner && db.owner[u] == e.xid {
      MarkIsFree(db, m, e.xid, u);
    }
  }

  lemma StatusFinal(db: Db, e: Event, x: int)
    requires DbOk(db) && x in db.status && db.status[x] == Committed
    ensures x in Next(db, e).status && Next(db, e).status[x] == Committed
  {
    if !e.Begin? && e.xid in db.active {
      assert TxnOk(db, e.xid);
    }
  }

  /** First committer wins: from the moment a deleter commits, its mark on the row
      stays for the rest of the run. */
  lemma {:induction false} FirstCommitterWins(db: Db, m: Meaning, es: seq<Event>, db': Db, m': Meaning, u: int)
    requires Ok(db, m) && Run(db, m, es, db', m') && u in db.entries
    requires db.entries[u].xmax != 0 && IsCommitted(db.status, db.entries[u].xmax)
    ensures u in db'.entries && db'.entries[u] == db.entries[u]
    decreases |es|
  {
    if es != [] {
      CommittedMarkStays(db, m, es[0], u);
      NextOk(db, m, es[0]);
      FirstCommitterWins(Next(db, es[0]), NextMeaning(m, db, es[0]), es[1..], db', m', u);
    }
  }

  /** At most one commit of a run deletes a given row. */
  lemma OneCommitDeletes(es: seq<Event>, db: Db, m: Meaning, i: nat, j: nat, u: int)
    requires Run(EmptyDb(), EmptyMeaning(), es, db, m) && i < |m.commits| && j < |m.commits|
    requires u in m.commits[i].deleted && u in m.commits[j].deleted
    ensures i == j
  {
    RunOk(EmptyDb(), EmptyMeaning(), es, db, m);
    assert CommitOk(db, m.commits[i]) && CommitOk(db, m.commits[j]);
  }

  // ------------------------------------------------- where the limits are needed

  /** What a READ_COMMITTED deleter does to a snapshot reader, exactly: it makes a
      row reappear if the row was there when the reader began but for a deletion
      that had committed by then; it changes nothing else. */
  lemma ReadCommittedDeleter(db: Db, x: int, u: int, t: Transaction)
    requires Waiting(db, x) && db.active[x].level == ReadCommitted && db.active[x].waitingFor == Some(u)
    requires u in db.entries && db.entries[u].xmax != x && x in db.status && db.status[x] == Active
    requires KeepsSnapshot(t.level) && t.xid != x && x != SUPER_XID && !IsCommitted(db.status, t.xid)
    requires IsCommitted(db.status, db.entries[u].xmin)
    ensures var e, db' := db.entries[u], FinishDb(db, x);
            && u in db'.entries && db'.entries[u] == e.(xmax := x)
            && (IsVisible(db'.status, t, db'.entries[u]) <==>
                  IsVisible(db.status, t, e)
                  || (Before(db.status, t, e.xmin) && (e.xmax == t.xid || Before(db.status, t, e.xmax))))
  {
  }

  function AfterDeletion(): Db {
    Db(map[1 := Committed, 2 := Active, 3 := Active], 3,
       map[2 := Transaction(2, ReadCommitted, {}, false, None),
           3 := Transaction(3, RepeatableRead, {SUPER_XID, 2}, false, None)],
       map[7 := Entry(1, 3)], map[7 := 3])
  }

  /** Transaction 1 commits row 7, and 2 and 3 begin. */
  function BeforeDeletion(): Db {
    Db(map[1 := Committed, 2 := Active, 3 := Active], 3,
       map[2 := Transaction(2, ReadCommitted, {}, false, None),
           3 := Transaction(3, RepeatableRead, {SUPER_XID, 2}, false, None)],
       map[7 := Entry(1, 0)], map[])
  }

  lemma ReachesBegins()
    ensures var s3 := Next(Next(Next(EmptyDb(), Begin(RepeatableRead)), Insert(1, 7)), Commit(1));
            Next(Next(s3, Begin(ReadCommitted)), Begin(RepeatableRead)) == BeforeDeletion()
  {
    var s1 := Next(EmptyDb(), Begin(RepeatableRead));
    assert EmptyDb().active.Keys + {SUPER_XID} == {SUPER_XID};
    assert s1 == Db(map[1 := Active], 1, map[1 := Transaction(1, RepeatableRead, {SUPER_XID}, false, None)], map[], map[]);
    var s2 := Next(s1, Insert(1, 7));
    var s3 := Next(s2, Commit(1));
    assert s3 == Db(map[1 := Committed], 1, map[], map[7 := Entry(1, 0)], map[]);
    var s4 := Next(s3, Begin(ReadCommitted));
    assert s4.active.Keys + {SUPER_XID} == {SUPER_XID, 2};
  }

  /** Transaction 1 commits row 7, 2 is READ_COMMITTED, 3 has just deleted row 7. */
  lemma ReachesDeletion()
    ensures var s3 := Next(Next(Next(EmptyDb(), Begin(RepeatableRead)), Insert(1, 7)), Commit(1));
            var s5 := Next(Next(s3, Begin(ReadCommitted)), Begin(RepeatableRead));
            Next(Next(Next(s5, DeleteAsk(3, 7)), LockGranted(3)), DeleteFinish(3)) == AfterDeletion()
  {
    hide Next;
    ReachesBegins();
    DeletesThen();
  }

  lemma DeletesThen()
    ensures Next(Next(Next(BeforeDeletion(), DeleteAsk(3, 7)), LockGranted(3)), DeleteFinish(3)) == AfterDeletion()
  {
    var s5 := BeforeDeletion();
    var t2, t3 := s5.active[2], s5.active[3];
    var s6 := Next(s5, DeleteAsk(3, 7));
    assert s6 == s5.(active := map[2 := t2, 3 := t3.(waitingFor := Some(7))]);
    var s7 := Next(s6, LockGranted(3));
    assert s7 == s6.(owner := map[7 := 3]);
  }

  /** From there the delete of transaction 2 revives row 7, whose deletion has
      committed, under the eyes of transaction 4. */
  lemma ReadCommittedDeleterResurrects()
    ensures var s := Next(Next(Next(AfterDeletion(), DeleteAsk(2, 7)), Commit(3)), Begin(RepeatableRead));
            var s' := Next(Next(s, LockGranted(2)), DeleteFinish(2));
            && Live(s, 4) && Live(s', 4) && s'.active[4] == s.active[4] && 7 in s.entries && 7 in s'.entries
            && !IsVisible(s.status, s.active[4], s.entries[7])
            && IsVisible(s'.status, s'.active[4], s'.entries[7])
  {
    var s0 := AfterDeletion();
    var t2, t3 := s0.active[2], s0.active[3];
    var s1 := Next(s0, DeleteAsk(2, 7));
    assert s1 == s0.(active := map[2 := t2.(waitingFor := Some(7)), 3 := t3]);
    var s2 := Next(s1, Commit(3));
    var done := map[1 := Committed, 2 := Active, 3 := Committed];
    assert s2 == Db(done, 3, map[2 := t2.(waitingFor := Some(7))], map[7 := Entry(1, 3)], map[]);
    var s := Next(s2, Begin(RepeatableRead));
    assert s2.active.Keys + {SUPER_XID} == {SUPER_XID, 2};
    var t4 := Transaction(4, RepeatableRead, {SUPER_XID, 2}, false, None);
    assert s == Db(done[4 := Active], 4, map[2 := t2.(waitingFor := Some(7)), 4 := t4], map[7 := Entry(1, 3)], map[]);
    ReadCommittedDeleterMarks(s, t4);
  }

  lemma ReadCommittedDeleterMarks(s: Db, t: Transaction)
    requires Waiting(s, 2) && s.active[2].waitingFor == Some(7) && s.active[2].level == ReadCommitted
    requires s.entries == map[7 := Entry(1, 3)] && s.owner == map[] && 4 in s.active && s.active[4] == t
    ensures var s' := Next(Next(s, LockGranted(2)), DeleteFinish(2));
            s'.entries == map[7 := Entry(1, 2)] && s'.status == s.status && 4 in s'.active && s'.active[4] == t
  {
    var s1 := Next(s, LockGranted(2));
    assert s1 == s.(owner := map[7 := 2]);
  }
}
