/** Commit as the three actions it is: leaving the active set, releasing the locks,
    marking the transaction committed. Others may act in between. */
module MvccGap {
  import opened Visibility
  import opened Mvcc
  import opened FiniteSets

  function Leave(db: Db, x: int): Db {
    db.(active := db.active - {x})
  }

  function Unlock(db: Db, x: int): Db {
    db.(owner := Release(db.owner, x))
  }

  function Mark(db: Db, x: int): Db {
    db.(status := db.status[x := Committed])
  }

  /** What happens between leaving and the mark: steps of others, and the release. */
  datatype GapEvent = Other(e: Event) | Unlocking

  predicate GapAllowed(d: Db, x: int, e: GapEvent) {
    e.Other? ==> Allowed(d, e.e) && !ActsBy(e.e, x)
  }

  function NextGap(d: Db, x: int, e: GapEvent): Db {
    match e
    case Other(o) => Next(d, o)
    case Unlocking => Unlock(d, x)
  }

  function NextGapMeaning(m: Meaning, d: Db, e: GapEvent): Meaning {
    match e
    case Other(o) => NextMeaning(m, d, o)
    case Unlocking => m
  }

  ghost predicate GapRun(d: Db, m: Meaning, x: int, es: seq<GapEvent>, d': Db, m': Meaning)
    decreases |es|
  {
    if es == [] then d' == d && m' == m
    else GapAllowed(d, x, es[0]) && GapRun(NextGap(d, x, es[0]), NextGapMeaning(m, d, es[0]), x, es[1..], d', m')
  }

  /** The committed rows and the commits once x is marked. */
  function CommitMeaning(m: Meaning, x: int): Meaning
    requires x in m.work
  {
    Meaning((m.committed + m.work[x].inserted) - m.work[x].deleted, m.work,
            m.commits + [Committing(x, m.work[x].deleted)])
  }

  /** A delete of the row finishes, its lock in hand. */
  predicate Finishes(d: Db, e: GapEvent, u: int) {
    && e.Other? && e.e.DeleteFinish?
    && Waiting(d, e.e.xid) && d.active[e.e.xid].waitingFor == Some(u)
    && u in d.entries && u in d.owner && d.owner[u] == e.e.xid
  }

  ghost predicate FinishesIn(d: Db, x: int, es: seq<GapEvent>, u: int)
    decreases |es|
  {
    es != [] && (Finishes(d, es[0], u) || FinishesIn(NextGap(d, x, es[0]), x, es[1..], u))
  }

  /** The transaction has left and is not marked yet. */
  predicate Away(d: Db, x: int) {
    x !in d.active && x in d.status && d.status[x] == Active && 0 < x <= d.counter
  }

  lemma AwayStays(d: Db, x: int, e: GapEvent)
    requires Away(d, x) && GapAllowed(d, x, e)
    ensures Away(NextGap(d, x, e), x)
  {
  }

  /** In the gap exactly the deletes that finish take away the mark of x. */
  lemma MarkStep(d: Db, x: int, e: GapEvent, u: int)
    requires Away(d, x) && GapAllowed(d, x, e) && u in d.entries
    requires forall y | y in d.active :: d.active[y].xid == y
    ensures u in NextGap(d, x, e).entries
    ensures forall y | y in NextGap(d, x, e).active :: NextGap(d, x, e).active[y].xid == y
    ensures NextGap(d, x, e).entries[u].xmax == x <==> d.entries[u].xmax == x && !Finishes(d, e, u)
  {
  }

  lemma {:induction false} NeverAgain(d: Db, m: Meaning, x: int, es: seq<GapEvent>, d': Db, m': Meaning, u: int)
    requires Away(d, x) && GapRun(d, m, x, es, d', m') && u in d.entries
    requires forall y | y in d.active :: d.active[y].xid == y
    ensures u in d'.entries
    ensures d'.entries[u].xmax == x <==> d.entries[u].xmax == x && !FinishesIn(d, x, es, u)
    decreases |es|
  {
    hide Away, Finishes, NextGap, GapAllowed;
    if es != [] {
      AwayStays(d, x, es[0]);
      MarkStep(d, x, es[0], u);
      NeverAgain(NextGap(d, x, es[0]), NextGapMeaning(m, d, es[0]), x, es[1..], d', m', u);
    }
  }

  // ---------------------------------------- the run as if x had not left yet

  /** A transaction that began after x left does not have x in its snapshot. */
  predicate Late(y: int, c: int) {
    y > c
  }

  function AsBegun(t: Transaction, y: int, x: int, c: int): Transaction {
    if Late(y, c) then t.(snapshot := t.snapshot - {x}) else t
  }

  predicate OwnersAgree(v: Db, d: Db, x: int, u: int) {
    if u in v.owner && v.owner[u] == x then
      u in d.owner ==> d.owner[u] == x || Live(v, d.owner[u])
    else
      (u in d.owner <==> u in v.owner) && (u in d.owner ==> d.owner[u] == v.owner[u])
  }

  /** `v` is the run in which x stays among the active transactions; `c` is the
      counter at the moment it left. */
  ghost predicate Sim(v: Db, d: Db, x: int, c: int) {
    && d.status == v.status && d.counter == v.counter && d.entries == v.entries
    && Live(v, x) && Ready(v, x) && 0 < x <= c <= v.counter
    && d.active.Keys == v.active.Keys - {x}
    && (forall y | y in d.active :: d.active[y] == AsBegun(v.active[y], y, x, c))
    && (forall u :: OwnersAgree(v, d, x, u))
  }

  /** The locks of a transaction that is not at a delete are on rows it marked. */
  ghost predicate OwnsMarked(v: Db, x: int) {
    forall u | u in v.owner && v.owner[u] == x :: u in v.entries && v.entries[u].xmax == x
  }

  lemma SameView(status: map<int, Status>, t: Transaction, x: int, e: Entry)
    requires !IsCommitted(status, x)
    ensures IsVisible(status, t.(snapshot := t.snapshot - {x}), e) == IsVisible(status, t, e)
    ensures IsVersionSkip(status, t.(snapshot := t.snapshot - {x}), e) == IsVersionSkip(status, t, e)
  {
  }

  lemma BeginSim(v: Db, d: Db, x: int, c: int, level: IsolationLevel)
    requires Sim(v, d, x, c) && forall y | y in v.active :: y <= v.counter
    ensures Sim(BeginDb(v, level), BeginDb(d, level), x, c)
  {
    var y := v.counter + 1;
    var v', d' := BeginDb(v, level), BeginDb(d, level);
    assert d.active.Keys + {SUPER_XID} == (v.active.Keys + {SUPER_XID}) - {x};
    assert d'.active[y] == AsBegun(v'.active[y], y, x, c);
    forall u ensures OwnersAgree(v', d', x, u) {
      assert OwnersAgree(v, d, x, u);
    }
  }

  lemma InsertSim(v: Db, d: Db, x: int, c: int, xid: int, uid: int)
    requires Sim(v, d, x, c) && xid != x
    ensures Sim(Next(v, Insert(xid, uid)), Next(d, Insert(xid, uid)), x, c)
  {
    forall u ensures OwnersAgree(Next(v, Insert(xid, uid)), Next(d, Insert(xid, uid)), x, u) {
      assert OwnersAgree(v, d, x, u);
    }
  }

  lemma AskSim(v: Db, d: Db, x: int, c: int, xid: int, uid: int)
    requires Sim(v, d, x, c) && xid != x
    ensures Sim(Next(v, DeleteAsk(xid, uid)), Next(d, DeleteAsk(xid, uid)), x, c)
  {
    if xid in d.active && uid in d.entries {
      SameView(v.status, v.active[xid], x, v.entries[uid]);
    }
    hide IsVisible;
    forall u ensures OwnersAgree(Next(v, DeleteAsk(xid, uid)), Next(d, DeleteAsk(xid, uid)), x, u) {
      assert OwnersAgree(v, d, x, u);
    }
  }

  lemma GrantSim(v: Db, d: Db, x: int, c: int, xid: int)
    requires Sim(v, d, x, c) && xid != x && (xid in v.active && !v.active[xid].failed ==> Live(v, xid))
    ensures Sim(Next(v, LockGranted(xid)), Next(d, LockGranted(xid)), x, c)
  {
    forall u ensures OwnersAgree(Next(v, LockGranted(xid)), Next(d, LockGranted(xid)), x, u) {
      assert OwnersAgree(v, d, x, u);
    }
  }

  /** Releasing the locks of another transaction that ends or fails. */
  lemma EndSim(v: Db, d: Db, x: int, c: int, v': Db, d': Db, y: int)
    requires forall u :: OwnersAgree(v, d, x, u)
    requires y != x && v'.owner == Release(v.owner, y) && d'.owner == Release(d.owner, y)
    requires forall z | z != y && Live(v, z) :: Live(v', z)
    ensures forall u :: OwnersAgree(v', d', x, u)
  {
    forall u ensures OwnersAgree(v', d', x, u) {
      assert OwnersAgree(v, d, x, u);
    }
  }

  lemma RefusedSim(v: Db, d: Db, x: int, c: int, xid: int)
    requires Sim(v, d, x, c) && xid != x
    ensures Sim(Next(v, LockRefused(xid)), Next(d, LockRefused(xid)), x, c)
  {
    if Waiting(v, xid) {
      EndSim(v, d, x, c, Next(v, LockRefused(xid)), Next(d, LockRefused(xid)), xid);
    }
  }

  lemma CommitSim(v: Db, d: Db, x: int, c: int, xid: int)
    requires Sim(v, d, x, c) && xid != x
    ensures Sim(Next(v, Commit(xid)), Next(d, Commit(xid)), x, c)
  {
    if Ready(v, xid) {
      EndSim(v, d, x, c, Next(v, Commit(xid)), Next(d, Commit(xid)), xid);
    }
  }

  lemma AbortSim(v: Db, d: Db, x: int, c: int, xid: int)
    requires Sim(v, d, x, c) && xid != x && (xid in v.active && v.active[xid].failed ==> !Live(v, xid))
    ensures Sim(Next(v, Abort(xid)), Next(d, Abort(xid)), x, c)
  {
    if xid in v.active && v.active[xid].waitingFor.None? {
      if v.active[xid].failed {
        forall u ensures OwnersAgree(Next(v, Abort(xid)), Next(d, Abort(xid)), x, u) {
          assert OwnersAgree(v, d, x, u);
        }
      } else {
        EndSim(v, d, x, c, Next(v, Abort(xid)), Next(d, Abort(xid)), xid);
      }
    }
  }

  /** A delete that does not finish on a row of x goes the same way in both runs. */
  lemma FinishSim(v: Db, d: Db, x: int, c: int, xid: int)
    requires Sim(v, d, x, c) && xid != x && OwnsMarked(v, x)
    requires forall u | u in d.entries && d.entries[u].xmax == x :: !Finishes(d, Other(DeleteFinish(xid)), u)
    ensures Sim(Next(v, DeleteFinish(xid)), Next(d, DeleteFinish(xid)), x, c)
  {
    if Waiting(v, xid) && v.active[xid].waitingFor.uid in v.entries {
      var u := v.active[xid].waitingFor.uid;
      assert OwnersAgree(v, d, x, u);
      SameView(v.status, v.active[xid], x, v.entries[u]);
      hide IsVersionSkip;
      if u in v.owner && v.owner[u] == xid {
        FinishBothSim(v, d, x, c, xid);
      }
    }
  }

  lemma FinishBothSim(v: Db, d: Db, x: int, c: int, xid: int)
    requires Sim(v, d, x, c) && xid != x && Waiting(v, xid) && Waiting(d, xid) && v.active[xid].waitingFor.uid in v.entries
    requires IsVersionSkip(d.status, d.active[xid], d.entries[v.active[xid].waitingFor.uid]) ==
             IsVersionSkip(v.status, v.active[xid], v.entries[v.active[xid].waitingFor.uid])
    ensures Sim(FinishDb(v, xid), FinishDb(d, xid), x, c)
  {
    hide IsVersionSkip;
    var u, t := v.active[xid].waitingFor.uid, v.active[xid];
    var e := v.entries[u];
    if e.xmax != xid && IsVersionSkip(v.status, t, e) {
      EndSim(v, d, x, c, FinishDb(v, xid), FinishDb(d, xid), xid);
    } else {
      forall w ensures OwnersAgree(FinishDb(v, xid), FinishDb(d, xid), x, w) {
        assert OwnersAgree(v, d, x, w);
      }
    }
  }

  lemma SimMeaning(v: Db, m: Meaning, d: Db, x: int, c: int, e: Event)
    requires Sim(v, d, x, c) && !ActsBy(e, x) && Next(d, e).entries == Next(v, e).entries
    ensures NextMeaning(m, d, e) == NextMeaning(m, v, e)
  {
    hide Next;
  }

  /** Nothing that others do distinguishes the two runs, as long as no delete finishes
      on a row that x marked. */
  lemma StepSim(v: Db, m: Meaning, d: Db, x: int, c: int, e: Event)
    requires Ok(v, m) && Sim(v, d, x, c) && OwnsMarked(v, x) && Allowed(d, e) && !ActsBy(e, x)
    requires forall u | u in d.entries && d.entries[u].xmax == x :: !Finishes(d, Other(e), u)
    ensures Allowed(v, e) && Sim(Next(v, e), Next(d, e), x, c) && NextMeaning(m, d, e) == NextMeaning(m, v, e)
  {
    hide IsVisible, IsVersionSkip;
    if !e.Begin? && e.xid in v.active {
      assert TxnOk(v, e.xid);
    }
    assert forall y | y in v.active :: y <= v.counter by {
      forall y | y in v.active ensures y <= v.counter {
        assert TxnOk(v, y);
      }
    }
    hide Ok, Next, Sim, OwnersAgree;
    StepAllowed(v, d, x, c, e);
    match e {
      case Begin(level) => BeginSim(v, d, x, c, level); BeginNext(v, d, level);
      case Insert(xid, uid) => InsertSim(v, d, x, c, xid, uid);
      case DeleteAsk(xid, uid) => AskSim(v, d, x, c, xid, uid);
      case LockRefused(xid) => RefusedSim(v, d, x, c, xid);
      case LockGranted(xid) => GrantSim(v, d, x, c, xid);
      case DeleteFinish(xid) => FinishSim(v, d, x, c, xid);
      case Commit(xid) => CommitSim(v, d, x, c, xid);
      case Abort(xid) => AbortSim(v, d, x, c, xid);
    }
    SimEntries(Next(v, e), Next(d, e), x, c);
    SimMeaning(v, m, d, x, c, e);
  }

  lemma BeginNext(v: Db, d: Db, level: IsolationLevel)
    ensures Next(v, Begin(level)) == BeginDb(v, level) && Next(d, Begin(level)) == BeginDb(d, level)
  {
  }

  lemma SimEntries(v: Db, d: Db, x: int, c: int)
    requires Sim(v, d, x, c)
    ensures d.entries == v.entries
  {
  }

  lemma StepAllowed(v: Db, d: Db, x: int, c: int, e: Event)
    requires Sim(v, d, x, c) && Allowed(d, e) && !ActsBy(e, x)
    ensures Allowed(v, e)
  {
  }

  // ---------------------------------------------------- what holds in the gap

  /** x marked only rows that it saw, under a snapshot. */
  ghost predicate DeletedWereThere(v: Db, m: Meaning, x: int) {
    && x in m.work && x in v.active
    && m.work[x].deleted <= m.work[x].base + m.work[x].inserted
    && (m.work[x].deleted != {} ==> KeepsSnapshot(v.active[x].level))
  }

  function Changed(w: Work): set<int> {
    (w.inserted - w.deleted) + (w.deleted - w.inserted)
  }

  /** A transaction that began in the gap found the rows that x marked committed. */
  ghost predicate LateOk(v: Db, m: Meaning, x: int, t: int) {
    x in m.work && t in m.work && t in v.active && x in v.active[t].snapshot
    && m.work[x].deleted - m.work[x].inserted <= m.work[t].base
  }

  ghost predicate InGap(v: Db, m: Meaning, d: Db, x: int, c: int) {
    && Ok(v, m) && Sim(v, d, x, c) && OwnsMarked(v, x) && DeletedWereThere(v, m, x)
    && forall t | Late(t, c) && Live(v, t) && KeepsSnapshot(v.active[t].level) :: LateOk(v, m, x, t)
  }

  lemma OwnsStays(v: Db, m: Meaning, x: int, e: Event)
    requires Ok(v, m) && Live(v, x) && Ready(v, x) && OwnsMarked(v, x) && !ActsBy(e, x)
    ensures OwnsMarked(Next(v, e), x)
  {
    hide Ok, IsVisible, IsVersionSkip;
  }

  lemma WorkStays(v: Db, m: Meaning, x: int, e: Event)
    requires DbOk(v) && Live(v, x) && !ActsBy(e, x) && x in m.work
    ensures x in NextMeaning(m, v, e).work && NextMeaning(m, v, e).work[x] == m.work[x]
    ensures x in Next(v, e).active && Next(v, e).active[x] == v.active[x]
  {
    OthersKeepPlace(v, e, x);
  }

  /** The rows that x marked, and did not insert, are committed until the mark counts. */
  lemma MarkedAreCommitted(v: Db, m: Meaning, x: int)
    requires Ok(v, m) && Live(v, x) && DeletedWereThere(v, m, x)
    ensures m.work[x].deleted - m.work[x].inserted <= m.committed
  {
    forall u | u in m.work[x].deleted - m.work[x].inserted ensures u in m.committed {
      assert WorkOk(v, m.work[x], x, u) && CommittedOk(v, m, u) && TxnOk(v, x);
    }
  }

  lemma LateStays(v: Db, m: Meaning, x: int, c: int, e: Event, t: int)
    requires Ok(v, m) && Live(v, x) && DeletedWereThere(v, m, x) && !ActsBy(e, x) && Late(t, c) && x <= c <= v.counter
    requires Live(v, t) && KeepsSnapshot(v.active[t].level) ==> LateOk(v, m, x, t)
    requires Live(Next(v, e), t) && KeepsSnapshot(Next(v, e).active[t].level)
    ensures LateOk(Next(v, e), NextMeaning(m, v, e), x, t)
  {
    hide IsVisible, IsVersionSkip, WorkOk, CommittedOk, EntryOk;
    WorkStays(v, m, x, e);
    if e.Begin? && t == v.counter + 1 {
      MarkedAreCommitted(v, m, x);
    } else {
      assert TxnOk(v, x) && Live(v, t);
      LateKeepsPlace(v, m, e, t);
    }
  }

  lemma LateKeepsPlace(v: Db, m: Meaning, e: Event, t: int)
    requires DbOk(v) && Live(v, t) && t in m.work && Live(Next(v, e), t) && (e.Begin? ==> t <= v.counter)
    ensures Next(v, e).active[t].snapshot == v.active[t].snapshot && Next(v, e).active[t].level == v.active[t].level
    ensures t in NextMeaning(m, v, e).work && NextMeaning(m, v, e).work[t].base == m.work[t].base
  {
  }

  lemma GapStep(v: Db, m: Meaning, d: Db, x: int, c: int, e: GapEvent) returns (v': Db)
    requires InGap(v, m, d, x, c) && GapAllowed(d, x, e)
    requires forall u | u in d.entries && d.entries[u].xmax == x :: !Finishes(d, e, u)
    ensures InGap(v', NextGapMeaning(m, d, e), NextGap(d, x, e), x, c)
    ensures NextGapMeaning(m, d, e).work[x] == m.work[x]
  {
    match e
    case Unlocking =>
      v' := v;
      UnlockSim(v, d, x, c);
    case Other(o) =>
      v' := Next(v, o);
      hide Next, NextMeaning, Finishes, OwnersAgree, DbOk, WorkOk, CommittedOk;
      StepSim(v, m, d, x, c, o);
      NextOk(v, m, o);
      OwnsStays(v, m, x, o);
      WorkStays(v, m, x, o);
      var m' := NextMeaning(m, v, o);
      forall t | Late(t, c) && Live(v', t) && KeepsSnapshot(v'.active[t].level) ensures LateOk(v', m', x, t) {
        LateStays(v, m, x, c, o, t);
      }
  }

  lemma UnlockSim(v: Db, d: Db, x: int, c: int)
    requires Sim(v, d, x, c)
    ensures Sim(v, Unlock(d, x), x, c)
  {
    forall u ensures OwnersAgree(v, Unlock(d, x), x, u) {
      assert OwnersAgree(v, d, x, u);
    }
  }

  // --------------------------------------------------------- the whole gap

  /** No delete of a row that x marked finishes in the gap. */
  ghost predicate MarksLeft(d: Db, x: int, es: seq<GapEvent>) {
    forall u | u in d.entries && d.entries[u].xmax == x :: !FinishesIn(d, x, es, u)
  }

  ghost predicate Unlocked(d: Db, x: int) {
    forall u | u in d.owner :: d.owner[u] != x
  }

  lemma UnlockedStays(d: Db, x: int, e: GapEvent)
    requires GapAllowed(d, x, e) && (Unlocked(d, x) || e.Unlocking?)
    ensures Unlocked(NextGap(d, x, e), x)
  {
    hide IsVisible, IsVersionSkip;
  }

  lemma MarksLeftStays(d: Db, x: int, es: seq<GapEvent>)
    requires es != [] && MarksLeft(d, x, es) && Away(d, x) && GapAllowed(d, x, es[0])
    requires forall y | y in d.active :: d.active[y].xid == y
    ensures forall u | u in d.entries && d.entries[u].xmax == x :: !Finishes(d, es[0], u)
    ensures MarksLeft(NextGap(d, x, es[0]), x, es[1..])
  {
    hide Away, Finishes, NextGap, GapAllowed;
    var d' := NextGap(d, x, es[0]);
    forall u | u in d'.entries && d'.entries[u].xmax == x ensures !FinishesIn(d', x, es[1..], u) {
      NewMarks(d, x, es[0], u);
    }
  }

  /** x marks no further row. */
  lemma NewMarks(d: Db, x: int, e: GapEvent, u: int)
    requires Away(d, x) && GapAllowed(d, x, e)
    requires u in NextGap(d, x, e).entries && NextGap(d, x, e).entries[u].xmax == x
    requires forall y | y in d.active :: d.active[y].xid == y
    ensures u in d.entries && d.entries[u].xmax == x
  {
  }

  lemma InGapAway(v: Db, m: Meaning, d: Db, x: int, c: int)
    requires InGap(v, m, d, x, c)
    ensures Away(d, x) && forall y | y in d.active :: d.active[y].xid == y
  {
    assert TxnOk(v, x);
    forall y | y in d.active ensures d.active[y].xid == y {
      assert TxnOk(v, y);
    }
  }

  lemma {:induction false} GapRunOk(v: Db, m: Meaning, d: Db, x: int, c: int, es: seq<GapEvent>, d': Db, m': Meaning)
    returns (v': Db)
    requires InGap(v, m, d, x, c) && GapRun(d, m, x, es, d', m') && MarksLeft(d, x, es)
    ensures InGap(v', m', d', x, c) && m'.work[x] == m.work[x]
    ensures Unlocked(d, x) || Unlocking in es ==> Unlocked(d', x)
    decreases |es|
  {
    hide InGap, MarksLeft, Unlocked, Finishes, NextGap, NextGapMeaning, GapAllowed;
    InGapWork(v, m, d, x, c);
    if es == [] {
      v' := v;
    } else {
      InGapAway(v, m, d, x, c);
      MarksLeftStays(d, x, es);
      if Unlocked(d, x) || es[0].Unlocking? {
        UnlockedStays(d, x, es[0]);
      }
      v' := GapStep(v, m, d, x, c, es[0]);
      v' := GapRunOk(v', NextGapMeaning(m, d, es[0]), NextGap(d, x, es[0]), x, c, es[1..], d', m');
    }
  }

  lemma InGapWork(v: Db, m: Meaning, d: Db, x: int, c: int)
    requires InGap(v, m, d, x, c)
    ensures x in m.work
  {
  }

  /** A transaction that leaves from a state reached by a run. */
  ghost predicate Leaving(db: Db, m: Meaning, x: int) {
    Ok(db, m) && Ready(db, x) && OwnsMarked(db, x) && DeletedWereThere(db, m, x)
  }

  lemma GapBegins(db: Db, m: Meaning, x: int)
    requires Leaving(db, m, x)
    ensures InGap(db, m, Leave(db, x), x, db.counter)
  {
    assert TxnOk(db, x);
    forall t | Live(db, t) ensures !Late(t, db.counter) {
      assert TxnOk(db, t);
    }
    forall u ensures OwnersAgree(db, Leave(db, x), x, u) {
    }
  }

  /** Some snapshot-keeping transaction that began in the gap is still at work. */
  ghost predicate LateReader(d: Db, c: int) {
    exists t :: Late(t, c) && Live(d, t) && KeepsSnapshot(d.active[t].level)
  }

  /** What a transaction begun in the gap sees after the mark: of all rows it is wrong
      about exactly those that x changed. */
  lemma LateView(v: Db, m: Meaning, d: Db, x: int, c: int, t: int, u: int)
    requires InGap(v, m, d, x, c) && Late(t, c) && Live(Mark(d, x), t) && KeepsSnapshot(d.active[t].level)
    requires u in d.entries
    ensures x in m.work && t in m.work
    ensures (IsVisible(Mark(d, x).status, d.active[t], d.entries[u]) <==> u in Rows(m.work[t])) <==>
            u !in Changed(m.work[x])
    ensures IsVisible(d.status, d.active[t], d.entries[u]) <==> u in Rows(m.work[t])
  {
    assert Live(v, t) && LateOk(v, m, x, t);
    assert TxnOk(v, x) && TxnOk(v, t) && EntryOk(v, u) && WorkOk(v, m.work[t], t, u) && WorkOk(v, m.work[x], x, u);
    SnapshotIsMeant(v, m, t, u);
    SameView(v.status, v.active[t], x, v.entries[u]);
  }

  /** The others see what is meant after the mark as well. */
  lemma EarlyView(v: Db, m: Meaning, d: Db, x: int, c: int, t: int, u: int)
    requires InGap(v, m, d, x, c) && !Late(t, c) && Live(Mark(d, x), t) && KeepsSnapshot(d.active[t].level)
    requires u in d.entries
    ensures t in m.work
    ensures IsVisible(Mark(d, x).status, d.active[t], d.entries[u]) <==> u in Rows(m.work[t])
  {
    CommitDbOk(v, m, x);
    SnapshotIsMeant(CommitDb(v, x), CommitMeaning(m, x), t, u);
  }

  // The state after the mark.

  lemma MarkedDbOk(v: Db, m: Meaning, d: Db, x: int, c: int)
    requires InGap(v, m, d, x, c) && Unlocked(d, x)
    ensures DbOk(Mark(d, x))
  {
    CommitDbOk(v, m, x);
    var a, b := Mark(d, x), CommitDb(v, x);
    forall y | y in a.active ensures TxnOk(a, y) {
      assert TxnOk(b, y);
    }
    forall u | u in a.entries ensures EntryOk(a, u) {
      assert EntryOk(b, u) && OwnersAgree(v, d, x, u);
    }
    forall u | u in a.owner ensures Live(a, a.owner[u]) {
      assert OwnersAgree(v, d, x, u);
      if u in v.owner && v.owner[u] != x {
        assert Live(b, b.owner[u]);
      }
    }
    assert forall y | y in a.status && a.status[y] == Active :: y in b.status && b.status[y] == Active && y in b.active;
  }

  lemma MarkedWorkOk(v: Db, m: Meaning, d: Db, x: int, c: int, t: int, u: int)
    requires InGap(v, m, d, x, c) && Live(Mark(d, x), t)
    requires x in m.work && (Changed(m.work[x]) == {} || !Late(t, c) || !KeepsSnapshot(d.active[t].level))
    ensures t in m.work && WorkOk(Mark(d, x), m.work[t], t, u)
  {
    CommitDbOk(v, m, x);
    assert WorkOk(CommitDb(v, x), m.work[t], t, u);
    if u in d.entries && Changed(m.work[x]) == {} {
      assert WorkOk(v, m.work[x], x, u);
      assert u in m.work[x].inserted <==> u in m.work[x].deleted by {
        assert u !in Changed(m.work[x]);
      }
    }
  }

  lemma MarkedOk(v: Db, m: Meaning, d: Db, x: int, c: int)
    requires InGap(v, m, d, x, c) && Unlocked(d, x) && x in m.work
    requires Changed(m.work[x]) == {} || !LateReader(Mark(d, x), c)
    ensures Ok(Mark(d, x), CommitMeaning(m, x))
  {
    MarkedDbOk(v, m, d, x, c);
    CommitDbOk(v, m, x);
    var a, b, m' := Mark(d, x), CommitDb(v, x), CommitMeaning(m, x);
    forall t, u | Live(a, t) && t in m'.work ensures WorkOk(a, m'.work[t], t, u) {
      MarkedWorkOk(v, m, d, x, c, t, u);
    }
    forall u ensures CommittedOk(a, m', u) {
      assert CommittedOk(b, m', u);
    }
    forall i | 0 <= i < |m'.commits| ensures CommitOk(a, m'.commits[i]) {
      assert CommitOk(b, m'.commits[i]);
    }
    assert forall t | Live(a, t) :: Live(b, t);
  }

  /** A reader begun in the gap spoils the state if x changed a row. */
  lemma MarkedNotOk(v: Db, m: Meaning, d: Db, x: int, c: int)
    requires InGap(v, m, d, x, c) && x in m.work && Changed(m.work[x]) != {} && LateReader(Mark(d, x), c)
    ensures !Ok(Mark(d, x), CommitMeaning(m, x))
  {
    var t :| Late(t, c) && Live(Mark(d, x), t) && KeepsSnapshot(d.active[t].level);
    var u := SomeElement(Changed(m.work[x]));
    assert WorkOk(v, m.work[x], x, u);
    LateView(v, m, d, x, c, t, u);
    if Ok(Mark(d, x), CommitMeaning(m, x)) {
      SnapshotIsMeant(Mark(d, x), CommitMeaning(m, x), t, u);
    }
  }

  lemma {:induction false} GapWork(d: Db, m: Meaning, x: int, es: seq<GapEvent>, d': Db, m': Meaning)
    requires GapRun(d, m, x, es, d', m') && x in m.work && Away(d, x)
    ensures x in m'.work && m'.work[x] == m.work[x]
    decreases |es|
  {
    if es != [] {
      AwayStays(d, x, es[0]);
      GapWork(NextGap(d, x, es[0]), NextGapMeaning(m, d, es[0]), x, es[1..], d', m');
    }
  }

  /** An overwritten mark spoils the state: the commit deleted a row that does not say so. */
  lemma OverwrittenNotOk(d: Db, m: Meaning, x: int, u: int)
    requires x in m.work && u in m.work[x].deleted && u in d.entries && d.entries[u].xmax != x
    ensures !Ok(Mark(d, x), CommitMeaning(m, x))
  {
    var m' := CommitMeaning(m, x);
    assert !CommitOk(Mark(d, x), m'.commits[|m.commits|]);
  }

  /** The gap is harmless, and the state after the mark one that atomic steps could have
      reached in the same sense, if and only if
      - no delete of a row that x marked finishes in the gap, and
      - x changed no row, or no snapshot-keeping transaction that began in the gap is
        still at work. */
  lemma GapInCommit(db: Db, m: Meaning, x: int, es: seq<GapEvent>, d: Db, m': Meaning)
    requires Leaving(db, m, x) && GapRun(Leave(db, x), m, x, es, d, m') && Unlocking in es
    ensures x in m.work && x in m'.work
    ensures Ok(Mark(d, x), CommitMeaning(m', x)) <==>
            MarksLeft(Leave(db, x), x, es) && (Changed(m.work[x]) == {} || !LateReader(Mark(d, x), db.counter))
  {
    hide Ok, LateReader, Changed, Unlocked, CommitMeaning, Mark, GapRun;
    GapBegins(db, m, x);
    InGapAway(db, m, Leave(db, x), x, db.counter);
    InGapWork(db, m, Leave(db, x), x, db.counter);
    GapWork(Leave(db, x), m, x, es, d, m');
    if MarksLeft(Leave(db, x), x, es) {
      var v := GapRunOk(db, m, Leave(db, x), x, db.counter, es, d, m');
      if Changed(m.work[x]) == {} || !LateReader(Mark(d, x), db.counter) {
        MarkedOk(v, m', d, x, db.counter);
      } else {
        MarkedNotOk(v, m', d, x, db.counter);
      }
    } else {
      var u :| u in db.entries && db.entries[u].xmax == x && FinishesIn(Leave(db, x), x, es, u);
      NeverAgain(Leave(db, x), m, x, es, d, m', u);
      MarkIsWork(db, m, x, u);
      OverwrittenNotOk(d, m', x, u);
    }
  }

  lemma MarkIsWork(db: Db, m: Meaning, x: int, u: int)
    requires Ok(db, m) && Ready(db, x) && u in db.entries && db.entries[u].xmax == x
    ensures x in m.work && u in m.work[x].deleted
  {
    assert TxnOk(db, x) && WorkOk(db, m.work[x], x, u);
  }

  /** The marks of x that are left when it is marked committed are exactly those on rows
      no delete of which finished in the gap. */
  lemma MarksInGap(db: Db, m: Meaning, x: int, es: seq<GapEvent>, d: Db, m': Meaning, u: int)
    requires Leaving(db, m, x) && GapRun(Leave(db, x), m, x, es, d, m') && x in m.work && u in m.work[x].deleted
    ensures u in d.entries
    ensures d.entries[u].xmax == x <==> !FinishesIn(Leave(db, x), x, es, u)
  {
    GapBegins(db, m, x);
    InGapAway(db, m, Leave(db, x), x, db.counter);
    assert TxnOk(db, x) && WorkOk(db, m.work[x], x, u);
    NeverAgain(Leave(db, x), m, x, es, d, m', u);
  }

  /** In terms of what is seen: if the marks of x are left alone, every snapshot-keeping
      transaction sees what is meant after the mark if and only if x changed no row or
      none that began in the gap is still at work. */
  lemma SnapshotsAfterGap(db: Db, m: Meaning, x: int, es: seq<GapEvent>, d: Db, m': Meaning)
    requires Leaving(db, m, x) && GapRun(Leave(db, x), m, x, es, d, m') && MarksLeft(Leave(db, x), x, es)
    ensures x in m.work && forall t | Live(Mark(d, x), t) :: t in m'.work
    ensures (forall t, u | Live(Mark(d, x), t) && KeepsSnapshot(d.active[t].level) && u in d.entries ::
               IsVisible(Mark(d, x).status, d.active[t], d.entries[u]) <==> u in Rows(m'.work[t])) <==>
            Changed(m.work[x]) == {} || !LateReader(Mark(d, x), db.counter)
  {
    hide IsVisible, Rows, Changed, InGap, Sim, WorkOk, Ok, GapRun, Leaving;
    GapBegins(db, m, x);
    InGapWork(db, m, Leave(db, x), x, db.counter);
    var v := GapRunOk(db, m, Leave(db, x), x, db.counter, es, d, m');
    AllInMeaning(v, m', d, x, db.counter);
    forall t, u | Live(Mark(d, x), t) && KeepsSnapshot(d.active[t].level) && u in d.entries
      ensures (IsVisible(Mark(d, x).status, d.active[t], d.entries[u]) <==> u in Rows(m'.work[t])) <==>
              !Late(t, db.counter) || u !in Changed(m.work[x])
    {
      if Late(t, db.counter) {
        LateView(v, m', d, x, db.counter, t, u);
      } else {
        EarlyView(v, m', d, x, db.counter, t, u);
      }
    }
    if Changed(m.work[x]) != {} {
      var u := SomeElement(Changed(m.work[x]));
      InGapWork(v, m', d, x, db.counter);
      ChangedIsStored(v, m', d, x, db.counter, u);
    }
  }

  lemma AllInMeaning(v: Db, m: Meaning, d: Db, x: int, c: int)
    requires InGap(v, m, d, x, c)
    ensures forall t | Live(Mark(d, x), t) :: t in m.work
  {
    forall t | Live(Mark(d, x), t) ensures t in m.work {
      assert Live(v, t);
    }
  }

  lemma ChangedIsStored(v: Db, m: Meaning, d: Db, x: int, c: int, u: int)
    requires InGap(v, m, d, x, c) && x in m.work && u in Changed(m.work[x])
    ensures u in d.entries
  {
    assert WorkOk(v, m.work[x], x, u);
  }

  // ------------------------------------------------- runs reach such states

  ghost predicate LocksOk(db: Db, m: Meaning) {
    && (forall u | u in db.owner :: LockOk(db, u))
    && (forall x | Live(db, x) :: DeletedWereThere(db, m, x))
  }

  /** A lock is held on a row that its holder marked, or waits to mark. */
  ghost predicate LockOk(db: Db, u: int) {
    u in db.owner ==>
      var y := db.owner[u];
      && y in db.active
      && ((u in db.entries && db.entries[u].xmax == y) || db.active[y].waitingFor == Some(u))
  }

  lemma LockStep(db: Db, m: Meaning, e: Event, u: int)
    requires Ok(db, m) && Allowed(db, e) && forall w | w in db.owner :: LockOk(db, w)
    ensures LockOk(Next(db, e), u)
  {
    hide IsVisible, IsVersionSkip, WorkOk, CommittedOk, EntryOk;
    if u in db.owner {
      assert LockOk(db, u) && Live(db, db.owner[u]);
    }
  }

  lemma DeletedStep(db: Db, m: Meaning, e: Event, x: int)
    requires Ok(db, m) && Allowed(db, e) && (Live(db, x) ==> DeletedWereThere(db, m, x)) && Live(Next(db, e), x)
    ensures DeletedWereThere(Next(db, e), NextMeaning(m, db, e), x)
  {
    hide IsVisible, IsVersionSkip, CommittedOk, EntryOk;
    NextOk(db, m, e);
    if Live(db, x) && e.DeleteFinish? && e.xid == x && Waiting(db, x) {
      assert WorkOk(db, m.work[x], x, db.active[x].waitingFor.uid);
    }
  }

  lemma {:induction false} RunLocksOk(db: Db, m: Meaning, es: seq<Event>, db': Db, m': Meaning)
    requires Ok(db, m) && LocksOk(db, m) && Run(db, m, es, db', m')
    ensures LocksOk(db', m')
    decreases |es|
  {
    hide Ok, Next, NextMeaning, LockOk, DeletedWereThere;
    if es != [] {
      var db1, m1 := Next(db, es[0]), NextMeaning(m, db, es[0]);
      forall u | u in db1.owner ensures LockOk(db1, u) {
        LockStep(db, m, es[0], u);
      }
      forall x | Live(db1, x) ensures DeletedWereThere(db1, m1, x) {
        DeletedStep(db, m, es[0], x);
      }
      NextOk(db, m, es[0]);
      RunLocksOk(db1, m1, es[1..], db', m');
    }
  }

  /** Whenever a transaction may commit in a run, the gap theorems apply. */
  lemma RunsLeave(es: seq<Event>, db: Db, m: Meaning, x: int)
    requires Run(EmptyDb(), EmptyMeaning(), es, db, m) && Ready(db, x)
    ensures Leaving(db, m, x)
  {
    RunOk(EmptyDb(), EmptyMeaning(), es, db, m);
    RunLocksOk(EmptyDb(), EmptyMeaning(), es, db, m);
    assert TxnOk(db, x) && Live(db, x);
    forall u | u in db.owner && db.owner[u] == x ensures u in db.entries && db.entries[u].xmax == x {
      assert LockOk(db, u);
    }
  }

  // --------------------------------------------------------- the failing runs

  lemma {:induction false} RunThen(db: Db, m: Meaning, es: seq<Event>, db': Db, m': Meaning, e: Event)
    requires Run(db, m, es, db', m') && Allowed(db', e)
    ensures Run(db, m, es + [e], Next(db', e), NextMeaning(m', db', e))
    decreases |es|
  {
    if es == [] {
      assert [e][1..] == [] && es + [e] == [e];
    } else {
      hide Next, NextMeaning;
      assert (es + [e])[1..] == es[1..] + [e];
      RunThen(Next(db, es[0]), NextMeaning(m, db, es[0]), es[1..], db', m', e);
    }
  }

  /** The header that a step gives a row, if it gives it another one. */
  function Written(db: Db, db': Db, u: int): seq<Entry> {
    if u in db'.entries && (u in db.entries ==> db.entries[u] != db'.entries[u]) then [db'.entries[u]] else []
  }

  /** The headers that a row has had, in order. */
  function Headers(db: Db, es: seq<Event>, u: int): seq<Entry>
    decreases |es|
  {
    if es == [] then [] else Written(db, Next(db, es[0]), u) + Headers(Next(db, es[0]), es[1..], u)
  }

  function GapHeaders(d: Db, x: int, es: seq<GapEvent>, u: int): seq<Entry>
    decreases |es|
  {
    if es == [] then [] else Written(d, NextGap(d, x, es[0]), u) + GapHeaders(NextGap(d, x, es[0]), x, es[1..], u)
  }

  lemma {:induction false} HeadersThen(db: Db, m: Meaning, es: seq<Event>, db': Db, m': Meaning, e: Event, u: int)
    requires Run(db, m, es, db', m')
    ensures Headers(db, es + [e], u) == Headers(db, es, u) + Written(db', Next(db', e), u)
    decreases |es|
  {
    if es == [] {
      assert es + [e] == [e] && [e][1..] == [];
    } else {
      hide Next, NextMeaning, Written;
      assert (es + [e])[1..] == es[1..] + [e];
      HeadersThen(Next(db, es[0]), NextMeaning(m, db, es[0]), es[1..], db', m', e, u);
    }
  }

  /** A REPEATABLE_READ transaction waiting for nothing. */
  function Repeatable(x: int, snapshot: set<int>): Transaction {
    Transaction(x, RepeatableRead, snapshot, false, None)
  }

  /** Transaction 1 has inserted row 7. */
  lemma InsertingRun() returns (db: Db, m: Meaning)
    ensures Run(EmptyDb(), EmptyMeaning(), [Begin(RepeatableRead), Insert(1, 7)], db, m)
    ensures db == Db(map[1 := Active], 1, map[1 := Repeatable(1, {SUPER_XID})], map[7 := Entry(1, 0)], map[])
    ensures Headers(EmptyDb(), [Begin(RepeatableRead), Insert(1, 7)], 7) == [Entry(1, 0)]
  {
    assert EmptyDb().active.Keys + {SUPER_XID} == {SUPER_XID};
    RunThen(EmptyDb(), EmptyMeaning(), [], EmptyDb(), EmptyMeaning(), Begin(RepeatableRead));
    db, m := Next(EmptyDb(), Begin(RepeatableRead)), NextMeaning(EmptyMeaning(), EmptyDb(), Begin(RepeatableRead));
    HeadersThen(EmptyDb(), EmptyMeaning(), [], EmptyDb(), EmptyMeaning(), Begin(RepeatableRead), 7);
    RunThen(EmptyDb(), EmptyMeaning(), [Begin(RepeatableRead)], db, m, Insert(1, 7));
    HeadersThen(EmptyDb(), EmptyMeaning(), [Begin(RepeatableRead)], db, m, Insert(1, 7), 7);
    assert [] + [Begin(RepeatableRead)] + [Insert(1, 7)] == [Begin(RepeatableRead), Insert(1, 7)];
    db, m := Next(db, Insert(1, 7)), NextMeaning(m, db, Insert(1, 7));
  }

  /** First failing run: transaction 2 begins while 1 commits, and row 7 appears to it
      when 1 is marked. */
  lemma BeginInGap() returns (db: Db, m: Meaning, d: Db, m': Meaning)
    ensures Run(EmptyDb(), EmptyMeaning(), [Begin(RepeatableRead), Insert(1, 7)], db, m) && Ready(db, 1)
    ensures GapRun(Leave(db, 1), m, 1, [Other(Begin(RepeatableRead)), Unlocking], d, m')
    ensures Live(Mark(d, 1), 2) && 7 in d.entries
    ensures !IsVisible(d.status, d.active[2], d.entries[7]) && IsVisible(Mark(d, 1).status, d.active[2], d.entries[7])
  {
    db, m := InsertingRun();
    var d0 := Leave(db, 1);
    assert d0.active == map[];
    assert d0.active.Keys + {SUPER_XID} == {SUPER_XID};
    var d1, m1 := Next(d0, Begin(RepeatableRead)), NextMeaning(m, d0, Begin(RepeatableRead));
    d, m' := Unlock(d1, 1), m1;
    GapRunTwo(d0, m, 1, Other(Begin(RepeatableRead)), Unlocking);
  }

  lemma GapRunTwo(d: Db, m: Meaning, x: int, e: GapEvent, e': GapEvent)
    requires GapAllowed(d, x, e) && GapAllowed(NextGap(d, x, e), x, e')
    ensures var d1, m1 := NextGap(d, x, e), NextGapMeaning(m, d, e);
            GapRun(d, m, x, [e, e'], NextGap(d1, x, e'), NextGapMeaning(m1, d1, e'))
  {
    hide NextGap, NextGapMeaning, GapAllowed;
    var d1, m1 := NextGap(d, x, e), NextGapMeaning(m, d, e);
    assert [e'][1..] == [];
    assert GapRun(d1, m1, x, [e'], NextGap(d1, x, e'), NextGapMeaning(m1, d1, e'));
    assert [e, e'][1..] == [e'];
  }

  const TO_THE_MARK := [
    Begin(RepeatableRead), Insert(1, 7), Commit(1), Begin(RepeatableRead), Begin(RepeatableRead),
    DeleteAsk(2, 7), LockGranted(2), DeleteFinish(2), DeleteAsk(3, 7)]

  /** 2 has marked row 7 and 3 waits for its lock. */
  lemma MarkingRun() returns (db: Db, m: Meaning)
    ensures Run(EmptyDb(), EmptyMeaning(), TO_THE_MARK, db, m)
    ensures db == Db(map[1 := Committed, 2 := Active, 3 := Active], 3,
                     map[2 := Repeatable(2, {SUPER_XID}), 3 := Repeatable(3, {SUPER_XID, 2}).(waitingFor := Some(7))],
                     map[7 := Entry(1, 2)], map[7 := 2])
    ensures Headers(EmptyDb(), TO_THE_MARK, 7) == [Entry(1, 0), Entry(1, 2)]
  {
    db, m := InsertingRun();
    var es := [Begin(RepeatableRead), Insert(1, 7)];
    hide Run, Headers;
    RunThen(EmptyDb(), EmptyMeaning(), es, db, m, Commit(1));
    HeadersThen(EmptyDb(), EmptyMeaning(), es, db, m, Commit(1), 7);
    es, db, m := es + [Commit(1)], Next(db, Commit(1)), NextMeaning(m, db, Commit(1));
    assert db == Db(map[1 := Committed], 1, map[], map[7 := Entry(1, 0)], map[]);
    es, db, m := TwoBegin(es, db, m);
    es, db, m := SecondMarks(es, db, m);
    RunThen(EmptyDb(), EmptyMeaning(), es, db, m, DeleteAsk(3, 7));
    HeadersThen(EmptyDb(), EmptyMeaning(), es, db, m, DeleteAsk(3, 7), 7);
    es, db, m := es + [DeleteAsk(3, 7)], Next(db, DeleteAsk(3, 7)), NextMeaning(m, db, DeleteAsk(3, 7));
    assert db.active == map[2 := Repeatable(2, {SUPER_XID}), 3 := Repeatable(3, {SUPER_XID, 2}).(waitingFor := Some(7))];
    assert es == TO_THE_MARK;
  }

  lemma TwoBegin(es: seq<Event>, db: Db, m: Meaning) returns (es': seq<Event>, db': Db, m': Meaning)
    requires Run(EmptyDb(), EmptyMeaning(), es, db, m)
    requires db == Db(map[1 := Committed], 1, map[], map[7 := Entry(1, 0)], map[])
    ensures es' == es + [Begin(RepeatableRead), Begin(RepeatableRead)]
    ensures Run(EmptyDb(), EmptyMeaning(), es', db', m')
    ensures db' == Db(map[1 := Committed, 2 := Active, 3 := Active], 3,
                      map[2 := Repeatable(2, {SUPER_XID}), 3 := Repeatable(3, {SUPER_XID, 2})],
                      map[7 := Entry(1, 0)], map[])
    ensures Headers(EmptyDb(), es', 7) == Headers(EmptyDb(), es, 7)
  {
    hide Run, Headers;
    var e := Begin(RepeatableRead);
    RunThen(EmptyDb(), EmptyMeaning(), es, db, m, e);
    HeadersThen(EmptyDb(), EmptyMeaning(), es, db, m, e, 7);
    assert db.active.Keys + {SUPER_XID} == {SUPER_XID};
    db', m' := Next(db, e), NextMeaning(m, db, e);
    RunThen(EmptyDb(), EmptyMeaning(), es + [e], db', m', e);
    HeadersThen(EmptyDb(), EmptyMeaning(), es + [e], db', m', e, 7);
    assert db'.active.Keys + {SUPER_XID} == {SUPER_XID, 2};
    assert es + [e] + [e] == es + [e, e];
    es', db', m' := es + [e] + [e], Next(db', e), NextMeaning(m', db', e);
  }

  lemma SecondMarks(es: seq<Event>, db: Db, m: Meaning) returns (es': seq<Event>, db': Db, m': Meaning)
    requires Run(EmptyDb(), EmptyMeaning(), es, db, m)
    requires db == Db(map[1 := Committed, 2 := Active, 3 := Active], 3,
                      map[2 := Repeatable(2, {SUPER_XID}), 3 := Repeatable(3, {SUPER_XID, 2})],
                      map[7 := Entry(1, 0)], map[])
    ensures es' == es + [DeleteAsk(2, 7), LockGranted(2), DeleteFinish(2)]
    ensures Run(EmptyDb(), EmptyMeaning(), es', db', m')
    ensures db' == db.(entries := map[7 := Entry(1, 2)], owner := map[7 := 2])
    ensures Headers(EmptyDb(), es', 7) == Headers(EmptyDb(), es, 7) + [Entry(1, 2)]
  {
    hide Run, Headers;
    var waits := db.active[2].(waitingFor := Some(7));
    RunThen(EmptyDb(), EmptyMeaning(), es, db, m, DeleteAsk(2, 7));
    HeadersThen(EmptyDb(), EmptyMeaning(), es, db, m, DeleteAsk(2, 7), 7);
    db', m' := Next(db, DeleteAsk(2, 7)), NextMeaning(m, db, DeleteAsk(2, 7));
    assert db' == db.(active := map[2 := waits, 3 := db.active[3]]);
    es' := es + [DeleteAsk(2, 7)];
    RunThen(EmptyDb(), EmptyMeaning(), es', db', m', LockGranted(2));
    HeadersThen(EmptyDb(), EmptyMeaning(), es', db', m', LockGranted(2), 7);
    es', db', m' := es' + [LockGranted(2)], Next(db', LockGranted(2)), NextMeaning(m', db', LockGranted(2));
    assert db' == db.(active := map[2 := waits, 3 := db.active[3]], owner := map[7 := 2]);
    RunThen(EmptyDb(), EmptyMeaning(), es', db', m', DeleteFinish(2));
    HeadersThen(EmptyDb(), EmptyMeaning(), es', db', m', DeleteFinish(2), 7);
    es', db', m' := es' + [DeleteFinish(2)], Next(db', DeleteFinish(2)), NextMeaning(m', db', DeleteFinish(2));
    assert db'.active == db.active;
  }

  /** 3 has the lock that 2 has released, and has finished its delete. */
  lemma OverwritingGap() returns (db: Db, m: Meaning, d: Db, m': Meaning)
    ensures Run(EmptyDb(), EmptyMeaning(), TO_THE_MARK, db, m) && Ready(db, 2)
    ensures db.entries == map[7 := Entry(1, 2)] && Headers(EmptyDb(), TO_THE_MARK, 7) == [Entry(1, 0), Entry(1, 2)]
    ensures GapRun(Leave(db, 2), m, 2, [Unlocking, Other(LockGranted(3)), Other(DeleteFinish(3))], d, m')
    ensures d == Db(map[1 := Committed, 2 := Active, 3 := Active], 3, map[3 := Repeatable(3, {SUPER_XID, 2})],
                    map[7 := Entry(1, 3)], map[7 := 3])
    ensures GapHeaders(Leave(db, 2), 2, [Unlocking, Other(LockGranted(3)), Other(DeleteFinish(3))], 7) == [Entry(1, 3)]
  {
    db, m := MarkingRun();
    hide Run, Headers, GapRun, GapHeaders;
    var t := Repeatable(3, {SUPER_XID, 2});
    var waits := t.(waitingFor := Some(7));
    var d0 := Leave(db, 2);
    assert d0 == db.(active := map[3 := waits]);
    NoGap(d0, m, 2, 7);
    GapThen(d0, m, 2, [], d0, m, Unlocking, 7);
    var d1 := Unlock(d0, 2);
    assert d1 == d0.(owner := map[]);
    GapThen(d0, m, 2, [] + [Unlocking], d1, m, Other(LockGranted(3)), 7);
    var d2, m2 := Next(d1, LockGranted(3)), NextMeaning(m, d1, LockGranted(3));
    assert d2 == d0.(owner := map[7 := 3]);
    GapThen(d0, m, 2, [] + [Unlocking] + [Other(LockGranted(3))], d2, m2, Other(DeleteFinish(3)), 7);
    d, m' := Next(d2, DeleteFinish(3)), NextMeaning(m2, d2, DeleteFinish(3));
    assert d == Db(db.status, 3, map[3 := t], map[7 := Entry(1, 3)], map[7 := 3]);
    assert [] + [Unlocking] + [Other(LockGranted(3))] + [Other(DeleteFinish(3))] ==
      [Unlocking, Other(LockGranted(3)), Other(DeleteFinish(3))];
  }

  lemma NoGap(d: Db, m: Meaning, x: int, u: int)
    ensures GapRun(d, m, x, [], d, m) && GapHeaders(d, x, [], u) == []
  {
  }

  lemma {:induction false} GapThen(d: Db, m: Meaning, x: int, es: seq<GapEvent>, d': Db, m': Meaning, e: GapEvent, u: int)
    requires GapRun(d, m, x, es, d', m') && GapAllowed(d', x, e)
    ensures GapRun(d, m, x, es + [e], NextGap(d', x, e), NextGapMeaning(m', d', e))
    ensures GapHeaders(d, x, es + [e], u) == GapHeaders(d, x, es, u) + Written(d', NextGap(d', x, e), u)
    decreases |es|
  {
    hide NextGap, NextGapMeaning, GapAllowed, Written;
    if es == [] {
      assert es + [e] == [e] && [e][1..] == [];
    } else {
      assert (es + [e])[1..] == es[1..] + [e];
      GapThen(NextGap(d, x, es[0]), NextGapMeaning(m, d, es[0]), x, es[1..], d', m', e, u);
    }
  }

  /** Second failing run, of REPEATABLE_READ transactions: 3 gets the lock that 2 has
      released, overwrites the mark that does not count yet, and both commit. */
  lemma FinishInGap() returns (db: Db, m: Meaning, d: Db, m': Meaning)
    ensures Run(EmptyDb(), EmptyMeaning(), TO_THE_MARK, db, m) && Ready(db, 2)
    ensures 7 in db.entries && db.entries[7].xmax == 2
    ensures GapRun(Leave(db, 2), m, 2, [Unlocking, Other(LockGranted(3)), Other(DeleteFinish(3))], d, m')
    ensures var after := Next(Mark(d, 2), Commit(3));
            && IsCommitted(after.status, 2) && IsCommitted(after.status, 3)
            && 7 in after.entries && after.entries[7].xmax == 3
  {
    db, m, d, m' := OverwritingGap();
    hide Run, GapRun, Headers, GapHeaders;
  }

  const TO_THE_CRASH := [Unlocking, Other(LockGranted(3)), Other(DeleteFinish(3)), Other(Commit(3))]

  /** Third: 3 commits before 2 is marked, or is marked aborted. The row has then been
      marked by 2 and by 3, of whom 2 counts as active and 3 as committed. */
  lemma CommitInGap() returns (db: Db, m: Meaning, d: Db, m': Meaning)
    ensures Run(EmptyDb(), EmptyMeaning(), TO_THE_MARK, db, m) && Ready(db, 2)
    ensures GapRun(Leave(db, 2), m, 2, TO_THE_CRASH, d, m')
    ensures d.status == map[1 := Committed, 2 := Active, 3 := Committed] && d.entries == map[7 := Entry(1, 3)]
    ensures Headers(EmptyDb(), TO_THE_MARK, 7) + GapHeaders(Leave(db, 2), 2, TO_THE_CRASH, 7) ==
            [Entry(1, 0), Entry(1, 2), Entry(1, 3)]
  {
    db, m, d, m' := OverwritingGap();
    hide Run, Headers, GapRun, GapHeaders;
    var es := [Unlocking, Other(LockGranted(3)), Other(DeleteFinish(3))];
    GapThen(Leave(db, 2), m, 2, es, d, m', Other(Commit(3)), 7);
    assert es + [Other(Commit(3))] == TO_THE_CRASH;
    d, m' := Next(d, Commit(3)), NextMeaning(m', d, Commit(3));
  }
}
