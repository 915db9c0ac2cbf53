/** The lock table as an object, with its stamped and cached depth-first search. */
module LockTableObject {
  import opened FiniteSets
  import opened WaitGraph
  import opened LockTables

  /** A list without the first occurrence of a value. */
  function FirstRemoved(l: seq<int>, v: int): seq<int> {
    if l == [] then [] else if l[0] == v then l[1..] else [l[0]] + FirstRemoved(l[1..], v)
  }

  lemma {:induction false} RemovedAt(l: seq<int>, v: int, i: nat)
    requires i <= |l| && (forall k | 0 <= k < i :: l[k] != v) && (i < |l| ==> l[i] == v)
    ensures FirstRemoved(l, v) == if i < |l| then l[..i] + l[i + 1..] else l
  {
    if i > 0 {
      RemovedAt(l[1..], v, i - 1);
      hide FirstRemoved;
      var rest := l[1..];
      assert l == [l[0]] + rest && l[..i] == [l[0]] + rest[..i - 1];
      if i < |l| {
        assert l[i + 1..] == rest[i..];
      }
    }
  }

  class LockTable {
    var x2u: map<int, seq<int>>
    var u2x: map<int, int>
    var wait: map<int, seq<int>>
    var waitU: map<int, int>
    var waitLock: set<int>
    var xidStamp: map<int, int>
    var pathCache: map<int, bool>
    var stamp: int
    ghost var removed: set<int>

    ghost function View(): Table
      reads `x2u, `u2x, `wait, `waitU, `waitLock
    {
      Table(x2u, u2x, wait, waitU, waitLock)
    }

    ghost predicate Valid()
      reads this
    {
      Ok(View(), removed)
    }

    constructor ()
      ensures Valid() && View() == EMPTY && removed == {}
    {
      x2u, u2x, wait, waitU, waitLock := map[], map[], map[], map[], {};
      xidStamp, pathCache, stamp, removed := map[], map[], 0, {};
      new;
      assert Edges(EMPTY) == map[];
    }

    static method IsInList(listMap: map<int, seq<int>>, uid0: int, uid1: int) returns (found: bool)
      ensures found <==> uid1 in ListOf(listMap, uid0)
    {
      if uid0 !in listMap {
        return false;
      }
      var l, i := listMap[uid0], 0;
      while i < |l|
        invariant i <= |l| && uid1 !in l[..i]
      {
        if l[i] == uid1 {
          return true;
        }
        assert l[..i + 1] == l[..i] + [l[i]];
        i := i + 1;
      }
      assert l[..|l|] == l;
      found := false;
    }

    /** Removes the first occurrence; an emptied list disappears. */
    static method RemoveFromList(listMap: map<int, seq<int>>, uid0: int, uid1: int) returns (r: map<int, seq<int>>)
      ensures r == if uid0 in listMap then Without(listMap, uid0, FirstRemoved(listMap[uid0], uid1)) else listMap
    {
      if uid0 !in listMap {
        return listMap;
      }
      var l, i := listMap[uid0], 0;
      while i < |l| && l[i] != uid1
        invariant i <= |l| && forall k | 0 <= k < i :: l[k] != uid1
      {
        i := i + 1;
      }
      RemovedAt(l, uid1, i);
      if i < |l| {
        l := l[..i] + l[i + 1..];
      }
      r := if |l| == 0 then listMap - {uid0} else listMap[uid0 := l];
    }

    // The search.

    /** Cached answers are right, and everything stamped is cached except the
        transactions on the current path. */
    ghost predicate Searching(path: set<int>)
      reads this
    {
      && stamp > 0 && pathCache.Keys <= xidStamp.Keys
      && (forall x | x in pathCache :: pathCache[x] == ReachesCycle(Edges(View()), x))
      && (forall x | x in path :: x in xidStamp && xidStamp[x] == stamp && x !in pathCache)
      && (forall x | x in xidStamp :: xidStamp[x] > 0 && (x in path || x in pathCache))
    }

    ghost function Nodes(): set<int>
      reads `x2u, `u2x, `waitU
    {
      waitU.Keys + u2x.Values + x2u.Keys
    }

    /** The answer is right; what it cached is right; and a negative answer leaves no
        positive one behind. */
    method Dfs(xid: int, ghost path: set<int>) returns (hasCycle: bool)
      requires Searching(path) && xid in Nodes()
      requires forall y | y in path :: Reaches(Edges(View()), y, xid)
      modifies `xidStamp, `pathCache
      ensures hasCycle == ReachesCycle(Edges(View()), xid)
      ensures forall x | x in pathCache :: pathCache[x] == ReachesCycle(Edges(View()), x)
      ensures forall x | x in xidStamp :: xidStamp[x] > 0 && (x in path || x in pathCache)
      ensures xid in pathCache && pathCache.Keys <= xidStamp.Keys && old(xidStamp.Keys) <= xidStamp.Keys
      ensures forall x | x in pathCache && pathCache[x] :: hasCycle || x in old(pathCache)
      decreases Nodes() - xidStamp.Keys
    {
      hide Reaches, ReachesCycle, Edges;
      if xid in pathCache {
        return pathCache[xid];
      }
      CycleAhead(Edges(View()), xid);
      if xid in xidStamp {
        assert xid in path;
        pathCache := pathCache[xid := true];
        return true;
      }
      xidStamp := xidStamp[xid := stamp];
      if xid !in waitU || waitU[xid] !in u2x {
        EdgeOf(View(), xid);
        pathCache := pathCache[xid := false];
        return false;
      }
      var x := u2x[waitU[xid]];
      EdgeOf(View(), xid);
      ReachNext(Edges(View()), xid);
      forall y | y in path ensures Reaches(Edges(View()), y, x) {
        ReachOn(Edges(View()), y, xid);
      }
      assert xid in Nodes() - old(xidStamp.Keys) && xid !in Nodes() - xidStamp.Keys;
      hasCycle := Dfs(x, path + {xid});
      pathCache := pathCache[xid := hasCycle];
    }

    static lemma EdgeOf(t: Table, xid: int)
      ensures xid in Edges(t) <==> xid in t.waitU && t.waitU[xid] in t.u2x
      ensures xid in Edges(t) ==> Edges(t)[xid] == t.u2x[t.waitU[xid]]
    {
    }

    static lemma QueuesNotEmpty(t: Table, removed: set<int>)
      requires Ok(t, removed)
      ensures forall u | u in t.wait :: t.wait[u] != []
    {
    }

    /** The test is exact: it answers true if and only if some transaction with an
        acquired lock reaches a cycle of waits. */
    method HasDeadLock() returns (found: bool)
      modifies `xidStamp, `pathCache, `stamp
      ensures found <==> Deadlocked(View())
    {
      hide ReachesCycle, Edges;
      xidStamp, pathCache, stamp := map[], map[], 1;
      var rest := x2u.Keys;
      while rest != {}
        invariant rest <= x2u.Keys && Searching({})
        invariant forall x | x in pathCache :: !pathCache[x]
        invariant forall x | x in x2u.Keys - rest :: x in pathCache
        decreases rest
      {
        ghost var some := SomeElement(rest);
        var xid: int :| xid in rest;
        rest := rest - {xid};
        if xid in xidStamp && xidStamp[xid] > 0 {
          continue;
        }
        stamp := stamp + 1;
        var cyclic := Dfs(xid, {});
        if cyclic {
          return true;
        }
      }
      found := false;
    }

    // Adding and removing.

    /** Asks for a lock. It is granted when it is free, and refused exactly when waiting
        for its holder would send a transaction with an acquired lock into a cycle, which
        is when one waits for this transaction and the holder does too, or is in a cycle
        already. A refused request leaves the table as it was. */
    method Add(xid: int, uid: int) returns (res: AddResult)
      requires Valid() && Can(View(), removed, Event.Add(xid, uid))
      modifies this
      ensures Valid() && removed == old(removed)
      ensures View() == Next(old(View()), Event.Add(xid, uid)) && res == ResultOf(old(View()), xid, uid)
      ensures res.Owned? <==> uid in ListOf(old(x2u), xid)
      ensures res.Grant? <==> uid !in ListOf(old(x2u), xid) && uid !in old(u2x)
      ensures res.Deadlock? <==>
                && uid !in ListOf(old(x2u), xid) && uid in old(u2x)
                && exists x :: x in old(x2u) && ReachesCycle(old(Edges(View()))[xid := old(u2x)[uid]], x)
      ensures res.Deadlock? <==>
                && uid !in ListOf(old(x2u), xid) && uid in old(u2x)
                && (exists x :: x in old(x2u) && Leads(old(Edges(View())), x, xid))
                && (Leads(old(Edges(View())), old(u2x)[uid], xid) || ReachesCycle(old(Edges(View())), old(u2x)[uid]))
      ensures res.Grant? ==>
                && u2x == old(u2x)[uid := xid] && x2u == old(x2u)[xid := [uid] + ListOf(old(x2u), xid)]
                && wait == old(wait) && waitU == old(waitU) && waitLock == old(waitLock)
      ensures res.Wait? ==>
                && waitU == old(waitU)[xid := uid] && waitLock == old(waitLock) + {xid}
                && wait == old(wait)[uid := [xid] + ListOf(old(wait), uid)] && u2x == old(u2x) && x2u == old(x2u)
      ensures res.Owned? || res.Deadlock? ==> View() == old(View())
    {
      AddAnswers(View(), removed, xid, uid);
      hide Ok, Deadlocked, Leads, ReachesCycle, Edges;
      NextOk(View(), removed, Event.Add(xid, uid));
      var owned := IsInList(x2u, xid, uid);
      if owned {
        return Owned;
      }
      if uid !in u2x {
        u2x := u2x[uid := xid];
        x2u := Put(x2u, xid, uid);
        return Grant;
      }
      ghost var was := View();
      waitU := waitU[xid := uid];
      wait := Put(wait, uid, xid);
      assert View() == Asked(was, xid, uid);
      var dead := HasDeadLock();
      if dead {
        waitU := waitU - {xid};
        wait := RemoveFromList(wait, uid, xid);
        assert View() == was by { AskUndone(was, removed, xid, uid, View()); }
        return Deadlock;
      }
      waitLock := waitLock + {xid};
      res := Wait;
    }

    static lemma AddAnswers(t: Table, removed: set<int>, xid: int, uid: int)
      requires Ok(t, removed) && xid !in t.waitU
      ensures uid in t.u2x ==>
                && (Deadlocked(Asked(t, xid, uid)) <==> exists x :: x in t.x2u && ReachesCycle(Edges(t)[xid := t.u2x[uid]], x))
                && (Deadlocked(Asked(t, xid, uid)) <==>
                    && (exists x :: x in t.x2u && Leads(Edges(t), x, xid))
                    && (Leads(Edges(t), t.u2x[uid], xid) || ReachesCycle(Edges(t), t.u2x[uid])))
    {
      hide Leads, ReachesCycle, Edges, QueuesOk, OwnersOk, WaitersOk, Queued;
      if uid in t.u2x {
        RefusedWhen(t, xid, uid);
      }
    }

    lemma AskUndone(was: Table, removed: set<int>, xid: int, uid: int, now: Table)
      requires Ok(was, removed) && xid !in was.waitU
      requires now.x2u == was.x2u && now.u2x == was.u2x && now.waitLock == was.waitLock
      requires now.waitU == Asked(was, xid, uid).waitU - {xid}
      requires now.wait == Without(Asked(was, xid, uid).wait, uid, Asked(was, xid, uid).wait[uid][1..])
      ensures now == was
    {
      hide Deadlocked;
      assert ([xid] + ListOf(was.wait, uid))[1..] == ListOf(was.wait, uid);
      assert now.wait == was.wait;
      assert now.waitU == was.waitU;
    }

    method SelectNewXID(uid: int)
      requires uid in wait ==> wait[uid] != []
      modifies `u2x, `wait, `waitU, `waitLock
      ensures View() == Selected(old(View()), uid)
      ensures uid in u2x <==> exists x :: PassesTo(old(View()), uid, x)
      ensures uid in u2x ==> PassesTo(old(View()), uid, u2x[uid])
    {
      ghost var was := View();
      SelectedOwner(was, uid);
      hide PassesTo;
      u2x := u2x - {uid};
      if uid !in wait {
        return;
      }
      var l := wait[uid];
      ghost var all, i := l, 0;
      while |l| > 0
        invariant i <= |all| && l == all[i..]
        invariant FirstWaiter(all, waitLock, 0) == FirstWaiter(all, waitLock, i)
        decreases |l|
      {
        var xid := l[0];
        l := l[1..];
        i := i + 1;
        if xid in waitLock {
          u2x := u2x[uid := xid];
          waitLock := waitLock - {xid};
          waitU := waitU - {xid};
          wait := if |l| == 0 then wait - {uid} else wait[uid := l];
          assert FirstWaiter(all, was.waitLock, 0) == i - 1;
          assert u2x == was.u2x[uid := xid];
          return;
        }
      }
      wait := wait - {uid};
    }

    /** Gives back a transaction's acquired locks, first to last, and forgets it. */
    method Remove(xid: int)
      requires Valid()
      modifies this
      ensures Valid() && removed == old(removed) + {xid}
      ensures View() == Next(old(View()), Event.Remove(xid))
      ensures forall u | u in ListOf(old(x2u), xid) :: u in u2x <==> exists x :: PassesTo(old(View()), u, x)
      ensures forall u | u in ListOf(old(x2u), xid) && u in u2x :: PassesTo(old(View()), u, u2x[u])
      ensures forall u | u !in ListOf(old(x2u), xid) :: u in u2x <==> u in old(u2x)
      ensures forall u | u !in ListOf(old(x2u), xid) && u in u2x :: u2x[u] == old(u2x)[u]
      ensures xid !in x2u && xid !in waitU && xid !in waitLock
    {
      hide Ok, Selected, Deadlocked, PassesTo;
      ghost var was := View();
      forall u ensures
        var after := ReleasedAll(was, xid);
        if u in ListOf(was.x2u, xid) then
          && (u in after.u2x <==> exists x :: PassesTo(was, u, x))
          && (u in after.u2x ==> PassesTo(was, u, after.u2x[u]))
        else
          (u in after.u2x <==> u in was.u2x) && (u in was.u2x ==> after.u2x[u] == was.u2x[u])
      {
        RemovePassesOn(was, removed, xid, u);
      }
      NextOk(was, removed, Event.Remove(xid));
      while xid in x2u && |x2u[xid]| > 0
        invariant removed == old(removed) && Ok(View(), removed)
        invariant ReleasedAll(View(), xid) == ReleasedAll(was, xid)
        decreases |ListOf(x2u, xid)|
      {
        ReleaseOk(View(), removed, xid);
        QueuesNotEmpty(View(), removed);
        ghost var before := View();
        var uid := x2u[xid][0];
        x2u := x2u[xid := x2u[xid][1..]];
        SelectNewXID(uid);
        assert View() == Released(before, xid);
      }
      waitU, x2u, waitLock := waitU - {xid}, x2u - {xid}, waitLock - {xid};
      removed := removed + {xid};
    }
  }
}
