/** A crash in the gap of a commit or an abort: what the version manager lets happen
    there is the log for which recovery loses a committed deletion. */
module GapCrash {
  import opened LogRecords
  import opened PageX
  import opened Recovery
  import opened RecoveredRows
  import opened Visibility
  import MvccGap
  import Mvcc

  /** REPEATABLE_READ transactions alone: 2 has marked the row and released its locks, 3
      has marked it again and committed, and then the engine crashes. The row has had
      the headers that the log says and 2 still counts as active, so recovery puts back
      what 2 found, and a new reader sees the row although 3 has committed. */
  lemma CrashInGapLosesADeletion(pages: Pages, t: Transaction)
    returns (db: Mvcc.Db, m: Mvcc.Meaning, d: Mvcc.Db, m': Mvcc.Meaning)
    requires Ready(TwoDeleters(), pages) && FreshReader(TwoDeleters(), t)
    ensures Mvcc.Run(Mvcc.EmptyDb(), Mvcc.EmptyMeaning(), MvccGap.TO_THE_MARK, db, m) && Mvcc.Ready(db, 2)
    ensures MvccGap.GapRun(MvccGap.Leave(db, 2), m, 2, MvccGap.TO_THE_CRASH, d, m')
    ensures LoggedHeaders(TwoDeleters(), ROW) ==
            MvccGap.Headers(Mvcc.EmptyDb(), MvccGap.TO_THE_MARK, 7) +
            MvccGap.GapHeaders(MvccGap.Leave(db, 2), 2, MvccGap.TO_THE_CRASH, 7)
    ensures ActiveSet(d.status) == {2} && IsCommitted(d.status, 3)
    ensures var after := Recovered(TwoDeleters(), ActiveSet(d.status), [2], pages);
            && Lists([2], TwoDeleters(), ActiveSet(d.status))
            && LostDeletion(TwoDeleters(), ActiveSet(d.status), [2], d.status, ROW)
            && Item(TwoDeleters(), after, ROW) && HoldsRow(Content(TwoDeleters(), after, ROW))
            && Seen(Content(TwoDeleters(), after, ROW), d.status, t)
  {
    hide MvccGap.Headers, MvccGap.GapHeaders, MvccGap.GapRun, Mvcc.Run, TwoDeleters, LoggedHeaders, Lists, LostDeletion, Item,
      Content, Seen, Recovered, Ready, FreshReader, HoldsRow;
    db, m, d, m' := MvccGap.CommitInGap();
    TwoDeletersHeaders();
    RecoveryLoses(d.status, pages, t);
  }

  lemma RecoveryLoses(status: map<int, Status>, pages: Pages, t: Transaction)
    requires Ready(TwoDeleters(), pages) && FreshReader(TwoDeleters(), t)
    requires status == map[1 := Committed, 2 := Active, 3 := Committed]
    ensures ActiveSet(status) == {2} && IsCommitted(status, 3)
    ensures var after := Recovered(TwoDeleters(), ActiveSet(status), [2], pages);
            && Lists([2], TwoDeleters(), ActiveSet(status))
            && LostDeletion(TwoDeleters(), ActiveSet(status), [2], status, ROW)
            && Item(TwoDeleters(), after, ROW) && HoldsRow(Content(TwoDeleters(), after, ROW))
            && Seen(Content(TwoDeleters(), after, ROW), status, t)
  {
    LostStatus(status);
    hide Item, Content, Seen, Recovered, Ready, FreshReader, TwoDeleters, LostDeletion, Lists, RowAt, NoOverwrite, LockRule,
      CommittedRow, HoldsRow, ActiveSet;
    UnlockedWriterLosesADeletion(pages, t);
  }

  lemma LostStatus(status: map<int, Status>)
    requires status == map[1 := Committed, 2 := Active, 3 := Committed]
    ensures status == LOST && ActiveSet(status) == {2} && IsCommitted(status, 3)
  {
  }
}
