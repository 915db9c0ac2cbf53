/** The version manager as an object. Each method is one atomic step of the state
    machine, made by updating the fields; `m` records what the steps mean. */
module VersionManagerObject {
  import opened FiniteSets
  import opened Visibility
  import opened Mvcc
  import opened MvccGap

  datatype ReadRes = Thrown | Null | Data
  datatype DeleteRes = Raised | NotVisible | MustWait

  /** newTransaction: the snapshot is filled one active transaction at a time. */
  method NewTransaction(xid: int, level: IsolationLevel, active: set<int>) returns (t: Transaction)
    ensures t == Transaction(xid, level, if KeepsSnapshot(level) then active else {}, false, None)
  {
    var snapshot: set<int> := {};
    if level != ReadCommitted && level != ReadUncommitted {
      var rest := active;
      while rest != {}
        invariant rest <= active && snapshot == active - rest
        decreases rest
      {
        ghost var some := SomeElement(rest);
        var x: int :| x in rest;
        snapshot := snapshot + {x};
        rest := rest - {x};
      }
    }
    t := Transaction(xid, level, snapshot, false, None);
  }

  class VersionManager {
    var status: map<int, Status>
    var xidCounter: int
    var activeTransaction: map<int, Transaction>
    var entries: map<int, Entry>
    var owner: map<int, int>
    ghost var m: Meaning

    ghost function View(): Db
      reads this
    {
      Db(status, xidCounter, activeTransaction, entries, owner)
    }

    ghost predicate Valid()
      reads this
    {
      Ok(View(), m)
    }

    /** The fields have made the step `e`, and so has their meaning. */
    twostate predicate Stepped(e: Event)
      reads this
    {
      View() == Next(old(View()), e) && m == NextMeaning(old(m), old(View()), e)
    }

    constructor ()
      ensures View() == EmptyDb() && m == EmptyMeaning() && Valid()
    {
      status, xidCounter, activeTransaction, entries, owner := map[], 0, map[], map[], map[];
      m := EmptyMeaning();
    }

    method Begin(level: IsolationLevel) returns (xid: int)
      requires Valid()
      modifies this
      ensures Valid() && Stepped(Event.Begin(level)) && xid == xidCounter == old(xidCounter) + 1
      ensures activeTransaction == old(activeTransaction)[xid := Transaction(xid, level,
                if level in {RepeatableRead, Serializable} then old(activeTransaction).Keys + {SUPER_XID} else {}, false, None)]
      ensures m.work == old(m.work)[xid := Work(level, old(m.committed), {}, {})]
      ensures status == old(status)[xid := Active] && entries == old(entries) && owner == old(owner)
    {
      ghost var db := View();
      NextOk(db, m, Event.Begin(level));
      xid := xidCounter + 1;
      var t := NewTransaction(xid, level, activeTransaction.Keys + {SUPER_XID});
      status, xidCounter := status[xid := Active], xid;
      activeTransaction := activeTransaction[xid := t];
      m := NextMeaning(m, db, Event.Begin(level));
    }

    /** A live snapshot-keeping reader gets a row's data exactly when the row is
        one of those it is meant to see. */
    method Read(xid: int, uid: int) returns (res: ReadRes)
      requires Valid() && xid in activeTransaction
      ensures res.Thrown? <==> activeTransaction[xid].failed
      ensures res.Data? ==> uid in entries
      ensures !res.Thrown? ==> xid in m.work
      ensures !res.Thrown? && m.work[xid].level in {RepeatableRead, Serializable} ==>
                (res.Data? <==> uid in Rows(m.work[xid]))
      ensures !res.Thrown? && m.work[xid].level == ReadUncommitted ==>
                (res.Data? <==> uid in entries && entries[uid].xmax == 0)
      ensures !res.Thrown? && m.work[xid].level == ReadCommitted ==>
                xid in m.work && (res.Data? <==> uid in (m.committed + m.work[xid].inserted) - m.work[xid].deleted)
    {
      if activeTransaction[xid].failed {
        return Thrown;
      }
      ReadMeant(xid, uid);
      if uid !in entries {
        return Null;
      }
      res := if IsVisible(status, activeTransaction[xid], entries[uid]) then Data else Null;
    }

    lemma ReadMeant(xid: int, uid: int)
      requires Valid() && xid in activeTransaction && !activeTransaction[xid].failed
      ensures xid in m.work && m.work[xid].level == activeTransaction[xid].level
      ensures var seen := uid in entries && IsVisible(status, activeTransaction[xid], entries[uid]);
              && (KeepsSnapshot(activeTransaction[xid].level) ==> (seen <==> uid in Rows(m.work[xid])))
              && (activeTransaction[xid].level == ReadCommitted ==>
                    (seen <==> uid in (m.committed + m.work[xid].inserted) - m.work[xid].deleted))
    {
      InMeaning(View(), m, xid);
      assert WorkOk(View(), m.work[xid], xid, uid);
      if uid in entries {
        if KeepsSnapshot(activeTransaction[xid].level) {
          SnapshotIsMeant(View(), m, xid, uid);
        } else if activeTransaction[xid].level == ReadCommitted {
          ReadCommittedIsMeant(View(), m, xid, uid);
        }
      } else {
        assert WorkOk(View(), m.work[xid], xid, uid) && CommittedOk(View(), m, uid);
      }
    }

    method Insert(xid: int, uid: int) returns (thrown: bool)
      requires Valid() && xid in activeTransaction && activeTransaction[xid].waitingFor.None? && uid !in entries
      modifies this
      ensures Valid() && Stepped(Event.Insert(xid, uid)) && thrown == old(activeTransaction[xid].failed)
      ensures View() == if thrown then old(View()) else old(View()).(entries := old(entries)[uid := Entry(xid, 0)])
    {
      NextOk(View(), m, Event.Insert(xid, uid));
      m := NextMeaning(m, View(), Event.Insert(xid, uid));
      if activeTransaction[xid].failed {
        return true;
      }
      entries := entries[uid := Entry(xid, 0)];
      thrown := false;
    }

    /** The first part of delete, up to the request for the row's lock. Only a request
        by a transaction without a snapshot leaves the states that are meant. */
    method Delete(xid: int, uid: int) returns (res: DeleteRes)
      requires Valid() && xid in activeTransaction && activeTransaction[xid].waitingFor.None?
      modifies this
      ensures Stepped(DeleteAsk(xid, uid))
      ensures KeepsSnapshot(old(activeTransaction[xid].level)) || !res.MustWait? ==> Valid()
      ensures res.Raised? <==> old(activeTransaction[xid].failed)
      ensures res.MustWait? <==>
                !res.Raised? && uid in entries && IsVisible(status, old(activeTransaction[xid]), entries[uid])
      ensures !res.Raised? && old(activeTransaction[xid].level) in {RepeatableRead, Serializable} ==>
                xid in m.work && (res.MustWait? <==> uid in Rows(m.work[xid]))
      ensures View() == if res.MustWait?
                        then old(View()).(active := old(activeTransaction)[xid := old(activeTransaction[xid]).(waitingFor := Some(uid))])
                        else old(View())
    {
      if !activeTransaction[xid].failed && KeepsSnapshot(activeTransaction[xid].level) {
        DeleteAsks(View(), m, xid, uid);
      }
      if KeepsSnapshot(activeTransaction[xid].level) {
        NextOk(View(), m, DeleteAsk(xid, uid));
      }
      m := NextMeaning(m, View(), DeleteAsk(xid, uid));
      if activeTransaction[xid].failed {
        return Raised;
      }
      if uid !in entries || !IsVisible(status, activeTransaction[xid], entries[uid]) {
        return NotVisible;
      }
      activeTransaction := activeTransaction[xid := activeTransaction[xid].(waitingFor := Some(uid))];
      res := MustWait;
    }

    /** The lock table reports a deadlock: the transaction is aborted on the spot. */
    method Refuse(xid: int)
      requires Valid() && Waiting(View(), xid)
      modifies this
      ensures Valid() && Stepped(LockRefused(xid))
      ensures status == old(status)[xid := Aborted] && entries == old(entries)
      ensures activeTransaction == old(activeTransaction)[xid := old(activeTransaction[xid]).(failed := true, waitingFor := None)]
      ensures forall u :: u in owner <==> u in old(owner) && old(owner)[u] != xid
      ensures forall u | u in owner :: owner[u] == old(owner)[u]
    {
      NextOk(View(), m, LockRefused(xid));
      m := NextMeaning(m, View(), LockRefused(xid));
      AutoAbort(xid);
    }

    method AutoAbort(xid: int)
      requires xid in activeTransaction
      modifies `status, `owner, `activeTransaction
      ensures View() == AutoAbortDb(old(View()), xid)
    {
      ReleaseAll(xid);
      status := status[xid := Aborted];
      activeTransaction := activeTransaction[xid := activeTransaction[xid].(failed := true, waitingFor := None)];
    }

    /** Gives back every lock of a transaction, one at a time. */
    method ReleaseAll(xid: int)
      modifies `owner
      ensures owner == Release(old(owner), xid)
    {
      var held := set u | u in owner && owner[u] == xid;
      var rest := held;
      ghost var was := owner;
      while rest != {}
        invariant rest <= held && owner == map u | u in was && u !in held - rest :: was[u]
        decreases rest
      {
        ghost var some := SomeElement(rest);
        var u: int :| u in rest;
        owner := owner - {u};
        rest := rest - {u};
      }
    }

    method Grant(xid: int)
      requires Valid() && Waiting(View(), xid) && activeTransaction[xid].waitingFor.uid !in owner
      modifies this
      ensures Valid() && Stepped(LockGranted(xid))
      ensures View() == old(View()).(owner := old(owner)[old(activeTransaction[xid]).waitingFor.uid := xid])
    {
      NextOk(View(), m, LockGranted(xid));
      m := NextMeaning(m, View(), LockGranted(xid));
      owner := owner[activeTransaction[xid].waitingFor.uid := xid];
    }

    /** The rest of delete, once the row's lock is held. */
    method DeleteGranted(xid: int) returns (deleted: bool)
      requires Valid() && Waiting(View(), xid)
      requires activeTransaction[xid].waitingFor.uid in owner && owner[activeTransaction[xid].waitingFor.uid] == xid
      modifies this
      ensures Valid() && Stepped(DeleteFinish(xid))
      ensures var u := old(activeTransaction[xid].waitingFor.uid);
              && u in old(entries) && u in entries && (deleted <==> old(entries[u]).xmax != xid && entries[u].xmax == xid)
              && xid in old(m.work) && (deleted <==> u in old(m.committed) || u in old(m.work)[xid].inserted)
              && entries == if deleted then old(entries)[u := old(entries)[u].(xmax := xid)] else old(entries)
      ensures status == if deleted then old(status) else old(status)[xid := Aborted]
      ensures activeTransaction == old(activeTransaction)[xid := old(activeTransaction[xid]).(failed := !deleted, waitingFor := None)]
      ensures owner == if deleted then old(owner) else Release(old(owner), xid)
    {
      ghost var was, meant := View(), m;
      var u := activeTransaction[xid].waitingFor.uid;
      MarkIsFree(View(), m, xid, u);
      NextOk(View(), m, DeleteFinish(xid));
      m := NextMeaning(m, View(), DeleteFinish(xid));
      var t := activeTransaction[xid];
      deleted := false;
      if entries[u].xmax == xid {
        activeTransaction := activeTransaction[xid := t.(waitingFor := None)];
      } else if IsVersionSkip(status, t, entries[u]) {
        AutoAbort(xid);
      } else {
        entries := entries[u := entries[u].(xmax := xid)];
        activeTransaction := activeTransaction[xid := t.(waitingFor := None)];
        deleted := true;
      }
      DeleteWorks(was, meant, xid, u);
    }

    /** The first action of commit, unless the transaction has failed: it leaves the
        active ones. */
    method LeaveActive(xid: int) returns (thrown: bool)
      requires xid in activeTransaction
      modifies `activeTransaction
      ensures thrown == old(activeTransaction[xid].failed)
      ensures View() == if thrown then old(View()) else Leave(old(View()), xid)
    {
      if activeTransaction[xid].failed {
        return true;
      }
      activeTransaction := activeTransaction - {xid};
      thrown := false;
    }

    /** The last one. */
    method MarkCommitted(xid: int)
      modifies `status
      ensures View() == Mark(old(View()), xid)
    {
      status := status[xid := Committed];
    }

    /** Committing publishes the transaction's work: the committed rows gain its
        insertions and lose its deletions. What others may do between the three actions
        is the subject of the module on the gap. */
    method Commit(xid: int) returns (thrown: bool)
      requires Valid() && xid in activeTransaction && activeTransaction[xid].waitingFor.None?
      modifies this
      ensures Valid() && Stepped(Event.Commit(xid)) && thrown == old(activeTransaction[xid].failed)
      ensures entries == old(entries)
      ensures !thrown ==>
                && activeTransaction == old(activeTransaction) - {xid} && status == old(status)[xid := Committed]
                && owner == Release(old(owner), xid)
      ensures thrown ==> View() == old(View())
      ensures !thrown ==>
                && xid in old(m.work)
                && m.committed == (old(m.committed) + old(m.work)[xid].inserted) - old(m.work)[xid].deleted
    {
      NextOk(View(), m, Event.Commit(xid));
      if !activeTransaction[xid].failed {
        InMeaning(View(), m, xid);
      }
      m := NextMeaning(m, View(), Event.Commit(xid));
      thrown := LeaveActive(xid);
      if thrown {
        return;
      }
      ReleaseAll(xid);
      MarkCommitted(xid);
    }

    method Abort(xid: int)
      requires Valid() && xid in activeTransaction && activeTransaction[xid].waitingFor.None?
      modifies this
      ensures Valid() && Stepped(Event.Abort(xid)) && m.committed == old(m.committed)
      ensures entries == old(entries) && activeTransaction == old(activeTransaction) - {xid}
      ensures status == if old(activeTransaction[xid].failed) then old(status) else old(status)[xid := Aborted]
      ensures forall u :: u in owner <==> u in old(owner) && old(owner)[u] != xid
      ensures forall u | u in owner :: owner[u] == old(owner)[u]
    {
      NextOk(View(), m, Event.Abort(xid));
      var failed := activeTransaction[xid].failed;
      activeTransaction := activeTransaction - {xid};
      if failed {
        return;
      }
      ReleaseAll(xid);
      status := status[xid := Aborted];
    }
  }
}
