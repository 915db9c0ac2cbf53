/** Who sees which version: the visibility tests on a row's xmin and xmax, and
    the test that stops a deleter whose version is out of date. */
module Visibility {

  const SUPER_XID := 0

  datatype IsolationLevel = ReadUncommitted | ReadCommitted | RepeatableRead | Serializable
  datatype Status = Active | Committed | Aborted

  /** A transaction as the version manager keeps it. `failed` stands for its
      stored error; `waitingFor` is the row whose lock its delete has asked for. */
  datatype Transaction = Transaction(xid: int, level: IsolationLevel, snapshot: set<int>, failed: bool, waitingFor: Option)
  datatype Option = None | Some(uid: int)

  /** The header of a stored row; 0 in xmax means that nobody deleted it. */
  datatype Entry = Entry(xmin: int, xmax: int)

  predicate IsCommitted(status: map<int, Status>, xid: int) {
    xid == SUPER_XID || (xid in status && status[xid] == Committed)
  }

  predicate IsInSnapshot(t: Transaction, xid: int) {
    xid != SUPER_XID && xid in t.snapshot
  }

  predicate KeepsSnapshot(level: IsolationLevel) {
    level.RepeatableRead? || level.Serializable?
  }

  predicate IsVersionSkip(status: map<int, Status>, t: Transaction, e: Entry) {
    match t.level
    case ReadUncommitted => false
    case ReadCommitted => false
    case RepeatableRead => IsCommitted(status, e.xmax) && (e.xmax > t.xid || IsInSnapshot(t, e.xmax))
    case Serializable => IsCommitted(status, e.xmax) && (e.xmax > t.xid || IsInSnapshot(t, e.xmax))
  }

  predicate IsVisible(status: map<int, Status>, t: Transaction, e: Entry) {
    match t.level
    case ReadUncommitted => e.xmax == 0
    case ReadCommitted => SeenCommitted(status, t, e)
    case RepeatableRead => SeenInSnapshot(status, t, e)
    case Serializable => SeenInSnapshot(status, t, e)
  }

  predicate SeenCommitted(status: map<int, Status>, t: Transaction, e: Entry) {
    || (e.xmin == t.xid && e.xmax == 0)
    || (IsCommitted(status, e.xmin) &&
        (e.xmax == 0 || (e.xmax != t.xid && !IsCommitted(status, e.xmax))))
  }

  predicate SeenInSnapshot(status: map<int, Status>, t: Transaction, e: Entry) {
    || (e.xmin == t.xid && e.xmax == 0)
    || (IsCommitted(status, e.xmin) && e.xmin < t.xid && !IsInSnapshot(t, e.xmin) &&
        (e.xmax == 0 ||
         (e.xmax != t.xid &&
          (!IsCommitted(status, e.xmax) || e.xmax > t.xid || IsInSnapshot(t, e.xmax)))))
  }

  /** `xid` had committed when `t` began. */
  ghost predicate Before(status: map<int, Status>, t: Transaction, xid: int) {
    IsCommitted(status, xid) && xid < t.xid && !IsInSnapshot(t, xid)
  }

  function ActiveSet(status: map<int, Status>): set<int> {
    set x | x in status && status[x] == Active
  }
}
