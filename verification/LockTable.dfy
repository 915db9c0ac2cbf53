/** Who waits for whom, as a graph in which a transaction has at most one
    successor: the holder of the lock it waits for. */
module WaitGraph {

  ghost predicate Walks(g: map<int, int>, x: int, n: nat, y: int)
    decreases n
  {
    if n == 0 then x == y else x in g && Walks(g, g[x], n - 1, y)
  }

  ghost predicate Reaches(g: map<int, int>, x: int, y: int) {
    exists n: nat :: n > 0 && Walks(g, x, n, y)
  }

  ghost predicate OnCycle(g: map<int, int>, x: int) {
    Reaches(g, x, x)
  }

  /** Walking from x ends up in a cycle. */
  ghost predicate ReachesCycle(g: map<int, int>, x: int) {
    exists n: nat, y :: Walks(g, x, n, y) && OnCycle(g, y)
  }

  lemma {:induction false} WalkOn(g: map<int, int>, x: int, n: nat, y: int)
    requires Walks(g, x, n, y) && y in g
    ensures Walks(g, x, n + 1, g[y])
    decreases n
  {
    if n > 0 {
      WalkOn(g, g[x], n - 1, y);
    } else {
      assert Walks(g, g[x], 0, g[y]);
    }
  }

  lemma ReachOn(g: map<int, int>, x: int, y: int)
    requires Reaches(g, x, y) && y in g
    ensures Reaches(g, x, g[y])
  {
    var n: nat :| n > 0 && Walks(g, x, n, y);
    WalkOn(g, x, n, y);
  }

  lemma ReachNext(g: map<int, int>, x: int)
    requires x in g
    ensures Reaches(g, x, g[x])
  {
    assert Walks(g, g[x], 0, g[x]);
    assert Walks(g, x, 1, g[x]);
  }

  /** Going one step on changes nothing about reaching a cycle. */
  lemma CycleAhead(g: map<int, int>, x: int)
    ensures ReachesCycle(g, x) <==> x in g && ReachesCycle(g, g[x])
    ensures OnCycle(g, x) ==> ReachesCycle(g, x)
  {
    if OnCycle(g, x) {
      assert Walks(g, x, 0, x);
    }
    if ReachesCycle(g, x) {
      var n: nat, y :| Walks(g, x, n, y) && OnCycle(g, y);
      var m: nat :| m > 0 && Walks(g, y, m, y);
      if n == 0 {
        assert Walks(g, g[x], m - 1, x);
      } else {
        assert Walks(g, g[x], n - 1, y);
      }
    }
    if x in g && ReachesCycle(g, g[x]) {
      var n: nat, y :| Walks(g, g[x], n, y) && OnCycle(g, y);
      assert Walks(g, x, n + 1, y);
    }
  }

  /** Following the waits from x leads to y, x itself included. */
  ghost predicate Leads(g: map<int, int>, x: int, y: int) {
    exists n: nat :: Walks(g, x, n, y)
  }

  lemma {:induction false} WalkFurther(g: map<int, int>, x: int, n: nat, y: int, m: nat, z: int)
    requires Walks(g, x, n, y) && Walks(g, y, m, z)
    ensures Walks(g, x, n + m, z)
    decreases n
  {
    if n > 0 {
      WalkFurther(g, g[x], n - 1, y, m, z);
    }
  }

  lemma {:induction false} WalkInMore(g: map<int, int>, x: int, n: nat, y: int, from: int, to: int)
    requires Walks(g, x, n, y) && from !in g
    ensures Walks(g[from := to], x, n, y)
    decreases n
  {
    if n > 0 {
      WalkInMore(g, g[x], n - 1, y, from, to);
    }
  }

  /** A walk over one more edge goes without it, or comes to where it starts. */
  lemma {:induction false} WalkWithout(g: map<int, int>, x: int, n: nat, y: int, from: int, to: int)
    requires Walks(g[from := to], x, n, y) && from !in g
    ensures Walks(g, x, n, y) || Leads(g, x, from)
    decreases n
  {
    if x == from {
      assert Walks(g, x, 0, from);
    } else if n > 0 {
      WalkWithout(g, g[x], n - 1, y, from, to);
      if Leads(g, g[x], from) {
        var k: nat :| Walks(g, g[x], k, from);
        assert Walks(g, x, k + 1, from);
      }
    }
  }

  lemma {:induction false} CycleFurther(g: map<int, int>, x: int, n: nat, y: int)
    requires Walks(g, x, n, y)
    ensures ReachesCycle(g, x) <==> ReachesCycle(g, y)
    decreases n
  {
    if n > 0 {
      CycleAhead(g, x);
      CycleFurther(g, g[x], n - 1, y);
    }
  }

  /** One more edge, from a node that led nowhere: from x a cycle is now reached if one
      was before, or if x leads to the edge and its end leads back to its start, or to
      a cycle there was. */
  lemma OneMoreEdge(g: map<int, int>, x: int, from: int, to: int)
    requires from !in g
    ensures ReachesCycle(g[from := to], x) <==>
            ReachesCycle(g, x) || (Leads(g, x, from) && (Leads(g, to, from) || ReachesCycle(g, to)))
  {
    var more := g[from := to];
    if ReachesCycle(g, x) {
      CycleInMore(g, x, from, to);
    } else if Leads(g, x, from) {
      var n: nat :| Walks(g, x, n, from);
      WalkInMore(g, x, n, from, from, to);
      CycleFurther(more, x, n, from);
      CycleAhead(more, from);
      if Leads(g, to, from) {
        var m: nat :| Walks(g, to, m, from);
        WalkInMore(g, to, m, from, from, to);
        assert Walks(more, from, m + 1, from);
      } else if ReachesCycle(g, to) {
        CycleInMore(g, to, from, to);
      } else if ReachesCycle(more, to) {
        CycleWithout(g, to, from, to);
      }
    } else if ReachesCycle(more, x) {
      CycleWithout(g, x, from, to);
    }
  }

  lemma CycleInMore(g: map<int, int>, x: int, from: int, to: int)
    requires from !in g && ReachesCycle(g, x)
    ensures ReachesCycle(g[from := to], x)
  {
    var n: nat, y :| Walks(g, x, n, y) && OnCycle(g, y);
    var m: nat :| m > 0 && Walks(g, y, m, y);
    WalkInMore(g, x, n, y, from, to);
    WalkInMore(g, y, m, y, from, to);
  }

  lemma CycleWithout(g: map<int, int>, x: int, from: int, to: int)
    requires from !in g && ReachesCycle(g[from := to], x)
    ensures ReachesCycle(g, x) || Leads(g, x, from)
  {
    var n: nat, y :| Walks(g[from := to], x, n, y) && OnCycle(g[from := to], y);
    var m: nat :| m > 0 && Walks(g[from := to], y, m, y);
    WalkWithout(g, x, n, y, from, to);
    WalkWithout(g, y, m, y, from, to);
    if Walks(g, x, n, y) && Leads(g, y, from) {
      var k: nat :| Walks(g, y, k, from);
      WalkFurther(g, x, n, y, k, from);
    }
  }

  /** `after` keeps edges of `before`, drops some, and redirects some to where
      nothing leads on. */
  ghost predicate Looser(before: map<int, int>, after: map<int, int>) {
    forall x | x in after :: (x in before && after[x] == before[x]) || after[x] !in after
  }

  lemma {:induction false} WalkBack(before: map<int, int>, after: map<int, int>, x: int, n: nat, y: int)
    requires Looser(before, after) && Walks(after, x, n, y) && y in after
    ensures Walks(before, x, n, y)
    decreases n
  {
    if n > 0 {
      WalkBack(before, after, after[x], n - 1, y);
      assert after[x] in after by {
        if n > 1 {
          assert Walks(after, after[x], n - 1, y);
        }
      }
    }
  }

  /** Such a change makes no cycle. */
  lemma LooserMakesNoCycle(before: map<int, int>, after: map<int, int>, x: int)
    requires Looser(before, after) && ReachesCycle(after, x)
    ensures ReachesCycle(before, x)
  {
    var n: nat, y :| Walks(after, x, n, y) && OnCycle(after, y);
    var m: nat :| m > 0 && Walks(after, y, m, y);
    WalkBack(before, after, x, n, y);
    WalkBack(before, after, y, m, y);
    assert Reaches(before, y, y);
  }
}

/** The lock table as values: what add and remove do to its maps. */
module LockTables {
  import opened WaitGraph

  /** `x2u` lists the locks each transaction acquired itself, `u2x` says who holds a
      lock, `wait` queues the waiters of a lock, newest first, and `waitU` and
      `waitLock` tell what a waiting transaction waits for. */
  datatype Table = Table(
    x2u: map<int, seq<int>>, u2x: map<int, int>, wait: map<int, seq<int>>, waitU: map<int, int>, waitLock: set<int>)

  function Edges(t: Table): map<int, int> {
    map x | x in t.waitU && t.waitU[x] in t.u2x :: t.u2x[t.waitU[x]]
  }

  function ListOf(m: map<int, seq<int>>, k: int): seq<int> {
    if k in m then m[k] else []
  }

  /** putIntoList */
  function Put(m: map<int, seq<int>>, k: int, v: int): map<int, seq<int>> {
    m[k := [v] + ListOf(m, k)]
  }

  function Granted(t: Table, xid: int, uid: int): Table {
    t.(u2x := t.u2x[uid := xid], x2u := Put(t.x2u, xid, uid))
  }

  /** The wait that the deadlock test looks at. */
  function Asked(t: Table, xid: int, uid: int): Table {
    t.(waitU := t.waitU[xid := uid], wait := Put(t.wait, uid, xid))
  }

  function Waiting(t: Table, xid: int, uid: int): Table {
    Asked(t, xid, uid).(waitLock := t.waitLock + {xid})
  }

  ghost predicate Deadlocked(t: Table) {
    exists x :: x in t.x2u && ReachesCycle(Edges(t), x)
  }

  /** The first queued transaction still waiting, as an index. */
  function FirstWaiter(l: seq<int>, waitLock: set<int>, from: nat): (i: nat)
    requires from <= |l|
    ensures from <= i <= |l|
    ensures forall k | from <= k < i :: l[k] !in waitLock
    ensures i < |l| ==> l[i] in waitLock
    decreases |l| - from
  {
    if from == |l| || l[from] in waitLock then from else FirstWaiter(l, waitLock, from + 1)
  }

  function Without(m: map<int, seq<int>>, k: int, l: seq<int>): map<int, seq<int>> {
    if l == [] then m - {k} else m[k := l]
  }

  /** selectNewXID: the lock passes to a waiter, whose acquired locks do not list it. */
  function Selected(t: Table, uid: int): Table {
    var free := t.(u2x := t.u2x - {uid});
    if uid !in t.wait then free
    else
      var l := t.wait[uid];
      var i := FirstWaiter(l, t.waitLock, 0);
      if i == |l| then free.(wait := t.wait - {uid})
      else t.(u2x := t.u2x[uid := l[i]], wait := Without(t.wait, uid, l[i + 1..]),
              waitU := t.waitU - {l[i]}, waitLock := t.waitLock - {l[i]})
  }

  /** The first acquired lock is given up and passed on. */
  function Released(t: Table, xid: int): Table
    requires ListOf(t.x2u, xid) != []
  {
    Selected(t.(x2u := t.x2u[xid := t.x2u[xid][1..]]), t.x2u[xid][0])
  }

  function ReleasedAll(t: Table, xid: int): Table
    decreases |ListOf(t.x2u, xid)|
  {
    if ListOf(t.x2u, xid) == [] then t else ReleasedAll(Released(t, xid), xid)
  }

  function Forgotten(t: Table, xid: int): Table {
    t.(waitU := t.waitU - {xid}, x2u := t.x2u - {xid}, waitLock := t.waitLock - {xid})
  }

  function Removed(t: Table, xid: int): Table {
    Forgotten(ReleasedAll(t, xid), xid)
  }

  datatype Event = Add(xid: int, uid: int) | Remove(xid: int)

  datatype AddResult = Owned | Grant | Wait | Deadlock

  ghost function ResultOf(t: Table, xid: int, uid: int): AddResult {
    if uid in ListOf(t.x2u, xid) then Owned
    else if uid !in t.u2x then Grant
    else if Deadlocked(Asked(t, xid, uid)) then Deadlock
    else Wait
  }

  ghost function Next(t: Table, e: Event): Table {
    match e
    case Add(xid, uid) =>
      (match ResultOf(t, xid, uid)
       case Owned => t
       case Grant => Granted(t, xid, uid)
       case Wait => Waiting(t, xid, uid)
       case Deadlock => t)
    case Remove(xid) => Removed(t, xid)
  }

  /** When a request that cannot be granted is refused: some transaction with an
      acquired lock, be it the asking one, waits for the asking one at the end of its
      chain, and the holder's own chain leads back there, or into a cycle that there
      was; which cannot be if the holder has acquired a lock itself. */
  lemma RefusedWhen(t: Table, xid: int, uid: int)
    requires WaitersOk(t) && !Deadlocked(t) && xid !in t.waitU && uid in t.u2x
    ensures xid !in Edges(t) && Edges(Asked(t, xid, uid)) == Edges(t)[xid := t.u2x[uid]]
    ensures Deadlocked(Asked(t, xid, uid)) <==>
            && (exists x :: x in t.x2u && Leads(Edges(t), x, xid))
            && (Leads(Edges(t), t.u2x[uid], xid) || ReachesCycle(Edges(t), t.u2x[uid]))
    ensures Deadlocked(Asked(t, xid, uid)) && t.u2x[uid] in t.x2u ==> Leads(Edges(t), t.u2x[uid], xid)
  {
    var g, h := Edges(t), t.u2x[uid];
    assert Edges(Asked(t, xid, uid)) == g[xid := h];
    hide Leads, ReachesCycle, WaitersOk, Edges;
    forall x ensures ReachesCycle(g[xid := h], x) <==>
                     ReachesCycle(g, x) || (Leads(g, x, xid) && (Leads(g, h, xid) || ReachesCycle(g, h)))
    {
      OneMoreEdge(g, x, xid, h);
    }
  }

  // What every run keeps.

  /** A waiter waits for a held lock, in its queue. */
  ghost predicate WaitersOk(t: Table) {
    && t.waitLock == t.waitU.Keys
    && forall x | x in t.waitU :: t.waitU[x] in t.u2x && x in ListOf(t.wait, t.waitU[x])
  }

  /** Queued transactions that are still waiting wait for that lock. */
  ghost predicate QueuesOk(t: Table) {
    && (forall u, x | u in t.wait && x in t.wait[u] && x in t.waitU :: t.waitU[x] == u)
    && (forall u | u in t.wait :: t.wait[u] != [] && Distinct(t.wait[u]))
  }

  /** A transaction holds the locks it acquired. */
  ghost predicate OwnersOk(t: Table) {
    && (forall x, u | x in t.x2u && u in t.x2u[x] :: u in t.u2x && t.u2x[u] == x)
    && (forall x | x in t.x2u :: Distinct(t.x2u[x]))
  }

  ghost predicate Sane(t: Table) {
    WaitersOk(t) && QueuesOk(t) && OwnersOk(t)
  }

  ghost predicate Distinct(s: seq<int>) {
    forall i, j | 0 <= i < j < |s| :: s[i] != s[j]
  }

  /** No removed transaction is known to the table, except in queues. */
  ghost predicate Gone(t: Table, removed: set<int>) {
    forall x | x in removed :: x !in t.waitU && x !in t.x2u
  }

  ghost predicate Queued(t: Table, removed: set<int>) {
    forall u, x | u in t.wait && x in t.wait[u] :: x in t.waitU || x in removed
  }

  ghost predicate Ok(t: Table, removed: set<int>) {
    Sane(t) && Gone(t, removed) && Queued(t, removed) && !Deadlocked(t)
  }

  /** A transaction that waits or was removed asks for nothing. */
  predicate Can(t: Table, removed: set<int>, e: Event) {
    e.Add? ==> e.xid !in t.waitU && e.xid !in removed
  }

  function RemovedBy(removed: set<int>, e: Event): set<int> {
    if e.Remove? then removed + {e.xid} else removed
  }

  lemma GrantOk(t: Table, removed: set<int>, xid: int, uid: int)
    requires Ok(t, removed) && Can(t, removed, Add(xid, uid)) && uid !in t.u2x
    ensures Ok(Granted(t, xid, uid), removed)
  {
    hide OwnersOk, Deadlocked;
    GrantedOwners(t, xid, uid);
    GrantedNoCycle(t, xid, uid);
  }

  /** Nobody waits for a free lock, so granting it adds no edge. */
  lemma GrantedNoCycle(t: Table, xid: int, uid: int)
    requires WaitersOk(t) && !Deadlocked(t) && xid !in t.waitU && uid !in t.u2x
    ensures !Deadlocked(Granted(t, xid, uid))
  {
    hide ReachesCycle;
    var after := Granted(t, xid, uid);
    assert forall x | x in t.waitU :: t.waitU[x] in t.u2x && t.waitU[x] != uid;
    assert Edges(after) == Edges(t);
    CycleAhead(Edges(after), xid);
  }

  lemma GrantedOwners(t: Table, xid: int, uid: int)
    requires OwnersOk(t) && uid !in t.u2x
    ensures OwnersOk(Granted(t, xid, uid))
  {
    assert uid !in ListOf(t.x2u, xid);
    assert Granted(t, xid, uid).x2u[xid] == [uid] + ListOf(t.x2u, xid);
  }

  lemma WaitOk(t: Table, removed: set<int>, xid: int, uid: int)
    requires Ok(t, removed) && Can(t, removed, Add(xid, uid)) && uid in t.u2x && !Deadlocked(Asked(t, xid, uid))
    ensures Ok(Waiting(t, xid, uid), removed)
  {
    var after := Waiting(t, xid, uid);
    assert Edges(after) == Edges(Asked(t, xid, uid));
    assert after.wait[uid] == [xid] + ListOf(t.wait, uid);
  }

  lemma DistinctTail(l: seq<int>, i: nat)
    requires Distinct(l) && i <= |l|
    ensures Distinct(l[i..]) && forall x | x in l[i..] :: x in l
    ensures i > 0 ==> l[i - 1] !in l[i..]
  {
  }

  /** Whoever waits for a lock is chosen or stays in its queue when it is passed on. */
  lemma ChosenWaiter(t: Table, u: int, x: int)
    requires WaitersOk(t) && QueuesOk(t) && x in t.waitU && t.waitU[x] == u
    ensures u in t.wait
    ensures var l := t.wait[u];
            var i := FirstWaiter(l, t.waitLock, 0);
            i < |l| && l[i] in t.waitU && t.waitU[l[i]] == u && (x == l[i] || x in l[i + 1..])
  {
    var l := t.wait[u];
    assert x in l;
    var i := FirstWaiter(l, t.waitLock, 0);
    var k :| 0 <= k < |l| && l[k] == x;
    if k > i {
      assert l[i + 1..][k - i - 1] == x;
    }
  }

  lemma SelectedWaiters(t: Table, u: int)
    requires WaitersOk(t) && QueuesOk(t)
    ensures WaitersOk(Selected(t, u))
  {
    hide FirstWaiter;
    var after := Selected(t, u);
    forall x | x in after.waitU ensures after.waitU[x] in after.u2x && x in ListOf(after.wait, after.waitU[x]) {
      if t.waitU[x] == u {
        ChosenWaiter(t, u, x);
      }
    }
  }

  lemma SelectedQueues(t: Table, removed: set<int>, u: int)
    requires WaitersOk(t) && QueuesOk(t) && Queued(t, removed)
    ensures QueuesOk(Selected(t, u)) && Queued(Selected(t, u), removed)
  {
    hide FirstWaiter;
    var after := Selected(t, u);
    if u in t.wait {
      var l := t.wait[u];
      var i := FirstWaiter(l, t.waitLock, 0);
      if i < |l| {
        assert l[i] in t.waitU;
        DistinctTail(l, i + 1);
        assert l[i] in l;
      }
    }
  }

  lemma SelectedLooser(t: Table, u: int)
    requires WaitersOk(t) && QueuesOk(t)
    ensures Looser(Edges(t), Edges(Selected(t, u)))
  {
    hide FirstWaiter;
    var after := Selected(t, u);
    forall x | x in Edges(after)
      ensures (x in Edges(t) && Edges(after)[x] == Edges(t)[x]) || Edges(after)[x] !in Edges(after)
    {
      if t.waitU[x] == u {
        ChosenWaiter(t, u, x);
      }
    }
  }

  lemma NoNewCycle(before: Table, after: Table)
    requires !Deadlocked(before) && after.x2u.Keys <= before.x2u.Keys && Looser(Edges(before), Edges(after))
    ensures !Deadlocked(after)
  {
    forall x | x in after.x2u ensures !ReachesCycle(Edges(after), x) {
      if ReachesCycle(Edges(after), x) {
        LooserMakesNoCycle(Edges(before), Edges(after), x);
      }
    }
  }

  lemma ReleasedOwners(t: Table, xid: int)
    requires OwnersOk(t) && ListOf(t.x2u, xid) != []
    ensures OwnersOk(Released(t, xid))
  {
    hide FirstWaiter;
    var after, mine := Released(t, xid), t.x2u[xid];
    assert t.u2x[mine[0]] == xid;
    DistinctTail(mine, 1);
    forall x, v | x in after.x2u && v in after.x2u[x] ensures v in after.u2x && after.u2x[v] == x {
      assert v in t.x2u[x];
    }
  }

  lemma SameQueues(t: Table, after: Table, removed: set<int>)
    requires after.u2x == t.u2x && after.wait == t.wait && after.waitU == t.waitU && after.waitLock == t.waitLock
    requires WaitersOk(t) && QueuesOk(t) && Queued(t, removed)
    ensures WaitersOk(after) && QueuesOk(after) && Queued(after, removed) && Edges(after) == Edges(t)
  {
  }

  /** Passing a lock on hands it to one waiter and leaves the others waiting. */
  lemma ReleaseOk(t: Table, removed: set<int>, xid: int)
    requires Ok(t, removed) && ListOf(t.x2u, xid) != []
    ensures Ok(Released(t, xid), removed) && Released(t, xid).x2u.Keys == t.x2u.Keys
  {
    hide FirstWaiter, WaitersOk, QueuesOk, OwnersOk, Queued, Deadlocked, Looser, Edges;
    var u := t.x2u[xid][0];
    var popped := t.(x2u := t.x2u[xid := t.x2u[xid][1..]]);
    SameQueues(t, popped, removed);
    SelectedWaiters(popped, u);
    SelectedQueues(popped, removed, u);
    SelectedLooser(popped, u);
    ReleasedOwners(t, xid);
    NoNewCycle(t, Released(t, xid));
  }

  lemma {:induction false} ReleaseAllOk(t: Table, removed: set<int>, xid: int)
    requires Ok(t, removed)
    ensures Ok(ReleasedAll(t, xid), removed) && ListOf(ReleasedAll(t, xid).x2u, xid) == []
    ensures ReleasedAll(t, xid).x2u.Keys == t.x2u.Keys
    decreases |ListOf(t.x2u, xid)|
  {
    hide Ok;
    if ListOf(t.x2u, xid) != [] {
      ReleaseOk(t, removed, xid);
      ReleaseAllOk(Released(t, xid), removed, xid);
    }
  }

  lemma ForgottenQueues(t: Table, removed: set<int>, xid: int)
    requires WaitersOk(t) && QueuesOk(t) && Queued(t, removed)
    ensures WaitersOk(Forgotten(t, xid)) && QueuesOk(Forgotten(t, xid)) && Queued(Forgotten(t, xid), removed + {xid})
  {
  }

  lemma ForgottenOwners(t: Table, xid: int)
    requires OwnersOk(t)
    ensures OwnersOk(Forgotten(t, xid))
  {
  }

  lemma ForgottenLooser(t: Table, xid: int)
    ensures Looser(Edges(t), Edges(Forgotten(t, xid)))
  {
  }

  lemma ForgetOk(t: Table, removed: set<int>, xid: int)
    requires Ok(t, removed)
    ensures Ok(Forgotten(t, xid), removed + {xid})
  {
    hide Deadlocked, WaitersOk, QueuesOk, OwnersOk, Queued, Looser;
    ForgottenQueues(t, removed, xid);
    ForgottenOwners(t, xid);
    ForgottenLooser(t, xid);
    NoNewCycle(t, Forgotten(t, xid));
  }

  /** In every run the table stays sane, and no transaction with an acquired lock
      ever gets into or behind a cycle of waits. */
  lemma NextOk(t: Table, removed: set<int>, e: Event)
    requires Ok(t, removed) && Can(t, removed, e)
    ensures Ok(Next(t, e), RemovedBy(removed, e))
  {
    hide Ok, Can;
    match e
    case Add(xid, uid) =>
      if ResultOf(t, xid, uid).Grant? {
        GrantOk(t, removed, xid, uid);
      } else if ResultOf(t, xid, uid).Wait? {
        WaitOk(t, removed, xid, uid);
      }
    case Remove(xid) =>
      ReleaseAllOk(t, removed, xid);
      ForgetOk(ReleasedAll(t, xid), removed, xid);
  }

  ghost predicate Runs(t: Table, removed: set<int>, events: seq<Event>, n: nat)
    requires n <= |events|
    decreases |events| - n
  {
    n == |events| || (Can(t, removed, events[n]) && Runs(Next(t, events[n]), RemovedBy(removed, events[n]), events, n + 1))
  }

  ghost function After(t: Table, events: seq<Event>, n: nat): Table
    requires n <= |events|
    decreases |events| - n
  {
    if n == |events| then t else After(Next(t, events[n]), events, n + 1)
  }

  ghost function RemovedAfter(removed: set<int>, events: seq<Event>, n: nat): set<int>
    requires n <= |events|
    decreases |events| - n
  {
    if n == |events| then removed else RemovedAfter(RemovedBy(removed, events[n]), events, n + 1)
  }

  const EMPTY := Table(map[], map[], map[], map[], {})

  lemma {:induction false} RunOk(t: Table, removed: set<int>, events: seq<Event>, n: nat)
    requires Ok(t, removed) && n <= |events| && Runs(t, removed, events, n)
    ensures Ok(After(t, events, n), RemovedAfter(removed, events, n))
    decreases |events| - n
  {
    hide Ok, Can, Next;
    if n < |events| {
      NextOk(t, removed, events[n]);
      RunOk(Next(t, events[n]), RemovedBy(removed, events[n]), events, n + 1);
    }
  }

  lemma EmptyOk()
    ensures Ok(EMPTY, {})
  {
  }

  /** Safety of every run: an owner of an acquired lock never reaches a cycle; so
      whoever is on a cycle holds only locks that were handed over to it. */
  lemma RunsAreDeadlockFree(events: seq<Event>)
    requires Runs(EMPTY, {}, events, 0)
    ensures var t := After(EMPTY, events, 0);
            && Sane(t)
            && (forall x | x in t.x2u :: !ReachesCycle(Edges(t), x))
            && forall x, u | OnCycle(Edges(t), x) && u in t.u2x && t.u2x[u] == x :: u !in ListOf(t.x2u, x)
  {
    EmptyOk();
    hide Runs, After, RemovedAfter, Sane;
    RunOk(EMPTY, {}, events, 0);
    var t := After(EMPTY, events, 0);
    forall x | OnCycle(Edges(t), x) ensures x !in t.x2u {
      CycleAhead(Edges(t), x);
    }
  }

  // What removing a transaction does to the locks.

  /** The first of the transactions queued for the lock that still waits. */
  ghost predicate PassesTo(t: Table, u: int, x: int) {
    exists i: nat :: QueuedAt(t, u, x, i)
  }

  ghost predicate QueuedAt(t: Table, u: int, x: int, i: nat) {
    i < |ListOf(t.wait, u)| && ListOf(t.wait, u)[i] == x && x in t.waitLock
    && forall k | 0 <= k < i :: ListOf(t.wait, u)[k] !in t.waitLock
  }

  lemma SelectedOwner(t: Table, uid: int)
    ensures uid in Selected(t, uid).u2x <==> exists x :: PassesTo(t, uid, x)
    ensures uid in Selected(t, uid).u2x ==> PassesTo(t, uid, Selected(t, uid).u2x[uid])
  {
    var i := FirstWaiter(ListOf(t.wait, uid), t.waitLock, 0);
    if i < |ListOf(t.wait, uid)| {
      assert QueuedAt(t, uid, ListOf(t.wait, uid)[i], i);
      assert PassesTo(t, uid, ListOf(t.wait, uid)[i]);
      assert Selected(t, uid).u2x[uid] == ListOf(t.wait, uid)[i];
    } else {
      forall x ensures !PassesTo(t, uid, x) {
      }
    }
  }

  lemma WaiterOf(t: Table, u: int, x: int)
    requires WaitersOk(t) && QueuesOk(t) && x in ListOf(t.wait, u) && x in t.waitLock
    ensures x in t.waitU && t.waitU[x] == u
  {
    assert u in t.wait && x in t.wait[u];
    assert x in t.waitU;
  }

  lemma SelectedElsewhere(t: Table, uid: int, u: int)
    requires WaitersOk(t) && QueuesOk(t) && u != uid
    ensures u in Selected(t, uid).u2x <==> u in t.u2x
    ensures u in t.u2x ==> Selected(t, uid).u2x[u] == t.u2x[u]
    ensures forall x :: PassesTo(Selected(t, uid), u, x) <==> PassesTo(t, u, x)
  {
    var after := Selected(t, uid);
    assert ListOf(after.wait, u) == ListOf(t.wait, u);
    forall x | x in ListOf(t.wait, u) ensures x in after.waitLock <==> x in t.waitLock {
      if x in t.waitLock {
        WaiterOf(t, u, x);
        if uid in t.wait {
          var i := FirstWaiter(t.wait[uid], t.waitLock, 0);
          if i < |t.wait[uid]| {
            assert t.wait[uid][i] in ListOf(t.wait, uid) && t.wait[uid][i] in t.waitLock;
            WaiterOf(t, uid, t.wait[uid][i]);
          }
        }
      }
    }
    forall x ensures PassesTo(after, u, x) <==> PassesTo(t, u, x) {
      SameQueue(t, after, u, x);
      SameQueue(after, t, u, x);
    }
  }

  lemma SameQueue(t: Table, t': Table, u: int, x: int)
    requires ListOf(t'.wait, u) == ListOf(t.wait, u)
    requires forall y | y in ListOf(t.wait, u) :: y in t'.waitLock <==> y in t.waitLock
    ensures PassesTo(t, u, x) ==> PassesTo(t', u, x)
  {
    if PassesTo(t, u, x) {
      var i: nat :| QueuedAt(t, u, x, i);
      forall k | 0 <= k < i ensures ListOf(t.wait, u)[k] !in t'.waitLock {
        var y := ListOf(t.wait, u)[k];
        assert y !in t.waitLock && y in ListOf(t.wait, u);
      }
      assert QueuedAt(t', u, x, i);
    }
  }

  lemma SamePasses(t: Table, x2u: map<int, seq<int>>, u: int)
    ensures forall x :: PassesTo(t.(x2u := x2u), u, x) <==> PassesTo(t, u, x)
  {
    forall x ensures PassesTo(t.(x2u := x2u), u, x) <==> PassesTo(t, u, x) {
      SameQueue(t, t.(x2u := x2u), u, x);
      SameQueue(t.(x2u := x2u), t, u, x);
    }
  }

  /** Each lock the transaction acquired passes to the first in its queue that still
      waits, or becomes free; all other locks stay with whoever holds them. */
  lemma {:induction false} RemovePassesOn(t: Table, removed: set<int>, xid: int, u: int)
    requires Ok(t, removed)
    ensures var after := ReleasedAll(t, xid);
            if u in ListOf(t.x2u, xid) then
              && (u in after.u2x <==> exists x :: PassesTo(t, u, x))
              && (u in after.u2x ==> PassesTo(t, u, after.u2x[u]))
            else
              (u in after.u2x <==> u in t.u2x) && (u in t.u2x ==> after.u2x[u] == t.u2x[u])
    decreases |ListOf(t.x2u, xid)|
  {
    if ListOf(t.x2u, xid) != [] {
      var mine := t.x2u[xid];
      var popped := t.(x2u := t.x2u[xid := mine[1..]]);
      ReleaseOk(t, removed, xid);
      assert WaitersOk(popped) && QueuesOk(popped);
      assert Distinct(mine) && mine == [mine[0]] + mine[1..];
      hide FirstWaiter, WaitersOk, QueuesOk, OwnersOk, Queued, Deadlocked, PassesTo, Selected, Ok;
      RemovePassesOn(Released(t, xid), removed, xid, u);
      SelectedList(popped, mine[0]);
      SamePasses(t, popped.x2u, u);
      if u == mine[0] {
        SelectedOwner(popped, u);
      } else {
        SelectedElsewhere(popped, mine[0], u);
      }
    }
  }

  lemma SelectedList(t: Table, uid: int)
    ensures Selected(t, uid).x2u == t.x2u
  {
  }

  // What the table does not give: a lock that was handed over.

  /** Transaction x holds lock u, which no list of acquired locks mentions. */
  ghost predicate HandedOver(t: Table, u: int, x: int) {
    u in t.u2x && t.u2x[u] == x && forall y :: u !in ListOf(t.x2u, y)
  }

  lemma {:induction false} ReleaseAllKeeps(t: Table, xid: int, u: int, x: int)
    requires HandedOver(t, u, x)
    ensures HandedOver(ReleasedAll(t, xid), u, x)
    decreases |ListOf(t.x2u, xid)|
  {
    hide FirstWaiter;
    if ListOf(t.x2u, xid) != [] {
      var mine := t.x2u[xid];
      assert mine[0] in ListOf(t.x2u, xid);
      forall y ensures u !in ListOf(Released(t, xid).x2u, y) {
        assert u !in ListOf(t.x2u, y);
      }
      ReleaseAllKeeps(Released(t, xid), xid, u, x);
    }
  }

  /** Selecting a new holder updates the holder map alone, so removing a transaction
      never frees the locks handed over to it: they stay held for ever. */
  lemma HandedOverForEver(t: Table, e: Event, u: int, x: int)
    requires HandedOver(t, u, x)
    ensures HandedOver(Next(t, e), u, x)
  {
    if e.Remove? {
      ReleaseAllKeeps(t, e.xid, u, x);
      var s := ReleasedAll(t, e.xid);
      forall y ensures u !in ListOf(Forgotten(s, e.xid).x2u, y) {
        assert u !in ListOf(s.x2u, y);
      }
    } else {
      forall y ensures u !in ListOf(Next(t, e).x2u, y) {
        assert u !in ListOf(t.x2u, y);
      }
    }
  }

  lemma IdleOwners(t: Table)
    requires forall x | x in t.x2u :: x !in Edges(t)
    ensures !Deadlocked(t)
  {
    forall x | x in t.x2u ensures !ReachesCycle(Edges(t), x) {
      CycleAhead(Edges(t), x);
    }
  }

  /** Handed-over locks escape the deadlock test: two transactions that hold nothing
      else and ask for each other's lock both wait, for ever. */
  lemma HandedOverLocksDeadlock(t: Table, x: int, u: int, y: int, v: int)
    requires HandedOver(t, u, x) && HandedOver(t, v, y) && x != y
    requires x !in t.x2u && y !in t.x2u && x !in t.waitU && y !in t.waitU
    requires forall z | z in t.x2u :: z !in t.waitU
    ensures ResultOf(t, x, v).Wait? && ResultOf(Next(t, Add(x, v)), y, u).Wait?
    ensures var after := Next(Next(t, Add(x, v)), Add(y, u));
            OnCycle(Edges(after), x) && OnCycle(Edges(after), y) && !Deadlocked(after)
  {
    assert v !in ListOf(t.x2u, x) && u !in ListOf(t.x2u, y);
    IdleOwners(Asked(t, x, v));
    var mid := Next(t, Add(x, v));
    IdleOwners(Asked(mid, y, u));
    var after := Next(mid, Add(y, u));
    IdleOwners(after);
    var g := Edges(after);
    ReachNext(g, x);
    ReachOn(g, x, y);
    ReachNext(g, y);
    ReachOn(g, y, x);
  }

  /** A run reaches such locks: 2 waits for 1's lock and 1 is removed. Asking for the
      lock again, 2 then waits for itself. */
  lemma SelfDeadlockRun()
    ensures var events := [Add(1, 10), Add(2, 10), Remove(1), Add(2, 10)];
            && Runs(EMPTY, {}, events, 0)
            && OnCycle(Edges(After(EMPTY, events, 0)), 2)
  {
    var t1, t2 := Granted(EMPTY, 1, 10), Waiting(Granted(EMPTY, 1, 10), 2, 10);
    assert [10] + [] == [10];
    assert t1.x2u == map[1 := [10]] && t1.u2x == map[10 := 1];
    IdleOwners(Asked(t1, 2, 10));
    assert Next(t1, Add(2, 10)) == t2;
    assert [2] + [] == [2];
    assert t2.wait == map[10 := [2]] && t2.waitU == map[2 := 10] && t2.waitLock == {2};
    HandsOver(t2);
    var t3 := Next(t2, Remove(1));
    IdleOwners(Asked(t3, 2, 10));
    var t4 := Next(t3, Add(2, 10));
    ReachNext(Edges(t4), 2);
    hide Next;
    var events := [Add(1, 10), Add(2, 10), Remove(1), Add(2, 10)];
    assert After(t4, events, 4) == t4;
    assert After(t3, events, 3) == t4;
    assert After(t2, events, 2) == t4;
    assert Runs(t3, {1}, events, 3);
    assert Runs(t2, {}, events, 2);
  }

  lemma HandsOver(t: Table)
    requires t == Table(map[1 := [10]], map[10 := 1], map[10 := [2]], map[2 := 10], {2})
    ensures Removed(t, 1).x2u == map[] && Removed(t, 1).u2x == map[10 := 2] && Removed(t, 1).waitU == map[]
  {
    assert FirstWaiter([2], {2}, 0) == 0;
    hide FirstWaiter;
    var released := Released(t, 1);
    assert ListOf(released.x2u, 1) == [];
    assert ReleasedAll(t, 1) == released;
  }

  /** 1 holds lock 10 and 2 holds lock 20; 3 waits for 10 and 4 for 20. */
  function TwoWaits(): Table {
    Table(map[1 := [10], 2 := [20]], map[10 := 1, 20 := 2], map[10 := [3], 20 := [4]], map[3 := 10, 4 := 20], {3, 4})
  }

  lemma ReachesTwoWaits()
    ensures var t1 := Next(EMPTY, Add(1, 10));
            var t2 := Next(t1, Add(2, 20));
            var t3 := Next(t2, Add(3, 10));
            && 2 !in t1.waitU && 3 !in t2.waitU && 4 !in t3.waitU && Next(t3, Add(4, 20)) == TwoWaits()
  {
    var t1, t2 := Next(EMPTY, Add(1, 10)), Next(Next(EMPTY, Add(1, 10)), Add(2, 20));
    assert [10] + [] == [10] && [20] + [] == [20] && [3] + [] == [3] && [4] + [] == [4];
    assert t2 == Table(map[1 := [10], 2 := [20]], map[10 := 1, 20 := 2], map[], map[], {});
    IdleOwners(Asked(t2, 3, 10));
    var t3 := Next(t2, Add(3, 10));
    assert t3 == t2.(wait := map[10 := [3]], waitU := map[3 := 10], waitLock := {3});
    IdleOwners(Asked(t3, 4, 20));
    assert Next(t3, Add(4, 20)).wait == TwoWaits().wait;
  }

  function OneHandedOver(): Table {
    Table(map[2 := [20]], map[10 := 3, 20 := 2], map[20 := [4]], map[4 := 20], {4})
  }

  function BothHandedOver(): Table {
    Table(map[], map[10 := 3, 20 := 4], map[], map[], {})
  }

  /** The first waiter gets the lock of transaction 1. */
  lemma FirstRelease()
    ensures var t := Table(map[1 := [], 2 := [20]], map[10 := 3, 20 := 2], map[20 := [4]], map[4 := 20], {4});
            ListOf(TwoWaits().x2u, 1) != [] && Released(TwoWaits(), 1) == t && ReleasedAll(t, 1) == t
  {
    var t := TwoWaits();
    assert FirstWaiter([3], {3, 4}, 0) == 0;
    hide FirstWaiter;
    var popped := t.(x2u := map[1 := [], 2 := [20]]);
    assert [10][1..] == [] && t.x2u[1 := []] == popped.x2u;
    assert [3][1..] == [] && t.wait - {10} == map[20 := [4]];
    assert popped.u2x[10 := 3] == map[10 := 3, 20 := 2] && popped.waitU - {3} == map[4 := 20];
    assert popped.waitLock - {3} == {4};
  }

  lemma FirstHandsOver()
    ensures Next(TwoWaits(), Remove(1)) == OneHandedOver()
  {
    FirstRelease();
    var released := Released(TwoWaits(), 1);
    assert ReleasedAll(TwoWaits(), 1) == released;
    hide Released, ReleasedAll, TwoWaits;
    assert released.x2u - {1} == map[2 := [20]] && released.waitU - {1} == map[4 := 20];
    assert released.waitLock - {1} == {4};
  }

  lemma SecondHandsOver()
    ensures Next(OneHandedOver(), Remove(2)) == BothHandedOver()
  {
    var t := OneHandedOver();
    assert FirstWaiter([4], {4}, 0) == 0;
    hide FirstWaiter;
    var two := Released(t, 2);
    assert ListOf(two.x2u, 2) == [] && ReleasedAll(t, 2) == two;
    assert Removed(t, 2).x2u == map[] && Removed(t, 2).waitU == map[] && two.wait == map[];
  }

  /** Then 3 asks for 20 and 4 for 10. */
  lemma AskAcross()
    ensures var t7 := Next(BothHandedOver(), Add(3, 20));
            var t8 := Next(t7, Add(4, 10));
            && 4 !in t7.waitU && OnCycle(Edges(t8), 3) && OnCycle(Edges(t8), 4)
  {
    HandedOverLocksDeadlock(BothHandedOver(), 3, 10, 4, 20);
  }

  lemma RunsOne(t: Table, removed: set<int>, events: seq<Event>, n: nat)
    requires n < |events| && Can(t, removed, events[n])
    requires Runs(Next(t, events[n]), RemovedBy(removed, events[n]), events, n + 1)
    ensures Runs(t, removed, events, n)
    ensures After(t, events, n) == After(Next(t, events[n]), events, n + 1)
  {
  }

  lemma RunsEnd(t: Table, removed: set<int>, events: seq<Event>)
    ensures Runs(t, removed, events, |events|) && After(t, events, |events|) == t
  {
  }

  const CROSSED := [Add(1, 10), Add(2, 20), Add(3, 10), Add(4, 20), Remove(1), Remove(2), Add(3, 20), Add(4, 10)]

  /** Two locks handed over, and two transactions that wait for each other's: the run
      ends in a cycle that no request was refused for. */
  lemma HandedOverDeadlockRun()
    ensures Runs(EMPTY, {}, CROSSED, 0)
    ensures OnCycle(Edges(After(EMPTY, CROSSED, 0)), 3) && OnCycle(Edges(After(EMPTY, CROSSED, 0)), 4)
  {
    hide Next, Runs, After, TwoWaits, OneHandedOver, OnCycle, Edges;
    ReachesTwoWaits();
    FirstHandsOver();
    SecondHandsOver();
    AskAcross();
    NotWaiting();
    var t1 := Next(EMPTY, Add(1, 10));
    var t2 := Next(t1, Add(2, 20));
    var t3 := Next(t2, Add(3, 10));
    var t7 := Next(BothHandedOver(), Add(3, 20));
    var t8 := Next(t7, Add(4, 10));
    RunsEnd(t8, {1, 2}, CROSSED);
    RunsOne(t7, {1, 2}, CROSSED, 7);
    RunsOne(BothHandedOver(), {1, 2}, CROSSED, 6);
    assert RemovedBy({1}, Remove(2)) == {1, 2};
    RunsOne(OneHandedOver(), {1}, CROSSED, 5);
    assert RemovedBy({}, Remove(1)) == {1};
    RunsOne(TwoWaits(), {}, CROSSED, 4);
    RunsOne(t3, {}, CROSSED, 3);
    RunsOne(t2, {}, CROSSED, 2);
    RunsOne(t1, {}, CROSSED, 1);
    RunsOne(EMPTY, {}, CROSSED, 0);
  }

  lemma NotWaiting()
    ensures 3 !in BothHandedOver().waitU
  {
  }
}
