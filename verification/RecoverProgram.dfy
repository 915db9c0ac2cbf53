/** Recovery as the program runs it: three passes over the encoded log, changing
    the page cache and the transaction file. */
module RecoverProgram {
  import opened FiniteSets
  import opened Bytes
  import opened LogRecords
  import opened PageX
  import opened Recovery
  import opened Visibility
  import opened XidFile

  function MaxPgno(log: seq<Record>, n: nat): int
    requires n <= |log|
  {
    if n == 0 then 0
    else
      var m := MaxPgno(log, n - 1);
      if log[n - 1].pgno > m then log[n - 1].pgno else m
  }

  function LastPage(log: seq<Record>): (m: int)
    ensures m >= 1 || |log| > 0
  {
    var m := MaxPgno(log, |log|);
    if m == 0 then 1 else m
  }

  function ZeroPage(): Page {
    seq(PAGE_SIZE, _ => 0)
  }

  /** The file cut or extended to pages 1 to `maxPgno`; what is added reads as zeros. */
  function Truncated(pages: Pages, maxPgno: int): Pages {
    map p: int | 1 <= p <= maxPgno :: if p in pages then pages[p] else ZeroPage()
  }

  /** No free-space offset on disk is ahead of the log. */
  ghost predicate NotAhead(log: seq<Record>, pages: Pages) {
    forall pgno | pgno in pages :: Fso(pages[pgno]) <= Top(log, |log|, pgno)
  }

  lemma {:induction false} MaxPgnoBounds(log: seq<Record>, n: nat, k: nat)
    requires k < n <= |log|
    ensures log[k].pgno <= MaxPgno(log, n)
  {
    if k < n - 1 {
      MaxPgnoBounds(log, n - 1, k);
    }
  }

  lemma {:induction false} MaxPgnoReached(log: seq<Record>, n: nat)
    requires n <= |log|
    ensures MaxPgno(log, n) == 0 || exists k :: 0 <= k < n && log[k].pgno == MaxPgno(log, n)
  {
    if n > 0 {
      MaxPgnoReached(log, n - 1);
    }
  }

  /** The highest page that any record names, or 1 if there is none. */
  ghost predicate Highest(log: seq<Record>, m: int) {
    && (forall k | 0 <= k < |log| :: log[k].pgno <= m)
    && if log == [] then m == 1 else exists k :: 0 <= k < |log| && log[k].pgno == m
  }

  lemma LastPageIsHighest(log: seq<Record>)
    requires LogOk(log)
    ensures Highest(log, LastPage(log))
  {
    forall k | 0 <= k < |log| ensures log[k].pgno >= 1 {
      assert RecordOk(log, k);
    }
    forall k | 0 <= k < |log| ensures log[k].pgno <= MaxPgno(log, |log|) {
      MaxPgnoBounds(log, |log|, k);
    }
    MaxPgnoReached(log, |log|);
    if log != [] {
      assert log[0].pgno <= MaxPgno(log, |log|);
    }
  }

  lemma HighestIfOk(log: seq<Record>)
    ensures LogOk(log) ==> Highest(log, LastPage(log))
  {
    hide Highest;
    if LogOk(log) {
      LastPageIsHighest(log);
    }
  }

  /** Truncation keeps every logged page, so that recovery finds them all. */
  lemma TruncatedIsReady(log: seq<Record>, pages: Pages)
    requires LogOk(log) && NotAhead(log, pages)
    ensures Ready(log, Truncated(pages, LastPage(log)))
  {
    var after := Truncated(pages, LastPage(log));
    forall k | 0 <= k < |log| ensures log[k].pgno in after {
      MaxPgnoBounds(log, |log|, k);
      assert RecordOk(log, k);
    }
    forall p | p in after ensures Fso(after[p]) <= Top(log, |log|, p) {
      if p !in pages {
        ZeroPageIsEmpty();
        TopBounds(log, |log|, p);
      }
    }
  }

  lemma ZeroPageIsEmpty()
    ensures Fso(ZeroPage()) == 0
  {
    var two: seq<byte> := ZeroPage()[..OF_DATA];
    assert two == [0, 0];
    assert two[..1] == [0];
    assert Unsigned(two[..1]) == 256 * Unsigned(two[..1][..0]) + 0;
    assert Unsigned(two) == 256 * Unsigned(two[..1]) + 0;
  }

  /** The indices below `n` of one transaction's records. */
  ghost function Picked(log: seq<Record>, xid: int, n: nat): (idx: seq<nat>)
    requires n <= |log|
    ensures forall i | 0 <= i < |idx| :: idx[i] < n && log[idx[i]].xid == xid
  {
    if n == 0 then []
    else if log[n - 1].xid == xid then Picked(log, xid, n - 1) + [n - 1]
    else Picked(log, xid, n - 1)
  }

  /** Nothing of the transaction lies between two picked records. */
  lemma {:induction false} PickedGaps(log: seq<Record>, xid: int, n: nat, i: nat, k: nat)
    requires n <= |log| && i <= |Picked(log, xid, n)| && k < n
    requires i > 0 ==> Picked(log, xid, n)[i - 1] < k
    requires i < |Picked(log, xid, n)| ==> k < Picked(log, xid, n)[i]
    ensures log[k].xid != xid
  {
    var idx := Picked(log, xid, n);
    if log[n - 1].xid == xid {
      assert idx == Picked(log, xid, n - 1) + [n - 1];
      if k < n - 1 {
        PickedGaps(log, xid, n - 1, if i == |idx| then i - 1 else i, k);
      }
    } else if k < n - 1 {
      PickedGaps(log, xid, n - 1, i, k);
    }
  }

  lemma {:induction false} UndoSkipsTo(log: seq<Record>, xid: int, pages: Pages, m: nat, n: nat)
    requires Ready(log, pages) && m <= n <= |log|
    requires forall k | m <= k < n :: log[k].xid != xid
    ensures Undo(log, xid, pages, n) == Undo(log, xid, pages, m)
    decreases n
  {
    hide Ready, Step;
    if m < n {
      UndoSkipsTo(log, xid, pages, m, n - 1);
    }
  }

  ghost predicate Encoded(logs: seq<seq<byte>>, log: seq<Record>) {
    && |logs| == |log|
    && forall k | 0 <= k < |log| :: WellFormed(log[k]) && logs[k] == EncodeRecord(log[k])
  }

  ghost predicate Cached(logCache: map<int, seq<seq<byte>>>, log: seq<Record>, active: set<int>, n: nat)
    requires n <= |log|
  {
    && (forall x :: x in logCache <==> x in active && exists k :: 0 <= k < n && log[k].xid == x)
    && forall x | x in logCache :: CachedFor(logCache[x], log, x, n)
  }

  ghost predicate CachedFor(cached: seq<seq<byte>>, log: seq<Record>, xid: int, n: nat)
    requires n <= |log|
  {
    var idx := Picked(log, xid, n);
    && |cached| == |idx|
    && forall i | 0 <= i < |idx| :: WellFormed(log[idx[i]]) && cached[i] == EncodeRecord(log[idx[i]])
  }

  lemma {:induction false} PickedNone(log: seq<Record>, xid: int, n: nat)
    requires n <= |log| && forall k | 0 <= k < n :: log[k].xid != xid
    ensures Picked(log, xid, n) == []
  {
    if n > 0 {
      PickedNone(log, xid, n - 1);
    }
  }

  /** Every transaction in the log has been begun, as the transaction file knows. */
  ghost predicate Begun(tm: TransactionManager, log: seq<Record>)
    reads tm
  {
    tm.Valid() && forall k | 0 <= k < |log| :: 0 <= log[k].xid <= tm.xidCounter
  }

  ghost function ActiveIn(tm: TransactionManager): set<int>
    requires tm.Valid()
    reads tm
  {
    ActiveSet(Statuses(tm.file))
  }

  class PageStore {
    var pages: Pages

    method TruncateByBgno(maxPgno: int)
      modifies this
      ensures pages == Truncated(old(pages), maxPgno)
      ensures forall p :: p in pages <==> 1 <= p <= maxPgno
      ensures forall p | p in pages && p in old(pages) :: pages[p] == old(pages)[p]
    {
      pages := Truncated(pages, maxPgno);
    }
  }

  lemma KindShows(r: Record)
    ensures EncodeRecord(r) != [] && IsInsertLog(EncodeRecord(r)) == r.Insert?
  {
  }

  method DoInsertLog(pc: PageStore, log: seq<byte>, undo: bool, ghost records: seq<Record>, ghost k: nat)
    requires k < |records| && log == EncodeRecord(records[k]) && WellFormed(records[k]) && records[k].Insert?
    requires Ready(records, pc.pages)
    modifies pc
    ensures Ready(records, old(pc.pages)) && pc.pages == Step(records, old(pc.pages), k, undo)
  {
    KindShows(records[k]);
    hide Ready, RecoverInserted, WellFormed, EncodeRecord, ParseInsertLog;
    CanApply(records, pc.pages, k, undo);
    RecordRoundTrip(records[k]);
    var li := ParseInsertLog(log);
    assert li == records[k];
    var page := new byte[PAGE_SIZE];
    ArrayCopy(pc.pages[li.pgno], page, 0);
    assert page[..] == pc.pages[li.pgno];
    RecoverInsert(page, if undo then Flagged(li.raw) else li.raw, li.offset);
    pc.pages := pc.pages[li.pgno := page[..]];
  }

  method DoUpdateLog(pc: PageStore, log: seq<byte>, undo: bool, ghost records: seq<Record>, ghost k: nat)
    requires k < |records| && log == EncodeRecord(records[k]) && WellFormed(records[k]) && records[k].Update?
    requires Ready(records, pc.pages)
    modifies pc
    ensures Ready(records, old(pc.pages)) && pc.pages == Step(records, old(pc.pages), k, undo)
  {
    KindShows(records[k]);
    hide Ready, RecoverUpdated, WellFormed, EncodeRecord, ParseUpdateLog;
    CanApply(records, pc.pages, k, undo);
    RecordRoundTrip(records[k]);
    var xi := ParseUpdateLog(log);
    assert xi == records[k];
    var page := new byte[PAGE_SIZE];
    ArrayCopy(pc.pages[xi.pgno], page, 0);
    assert page[..] == pc.pages[xi.pgno];
    RecoverUpdate(page, if undo then xi.oldRaw else xi.newRaw, xi.offset);
    pc.pages := pc.pages[xi.pgno := page[..]];
  }

  method DoLog(pc: PageStore, log: seq<byte>, undo: bool, ghost records: seq<Record>, ghost k: nat)
    requires k < |records| && WellFormed(records[k]) && log == EncodeRecord(records[k]) && Ready(records, pc.pages)
    modifies pc
    ensures Ready(records, old(pc.pages)) && pc.pages == Step(records, old(pc.pages), k, undo)
  {
    KindShows(records[k]);
    hide Ready, Step, EncodeRecord;
    if IsInsertLog(log) {
      DoInsertLog(pc, log, undo, records, k);
    } else {
      DoUpdateLog(pc, log, undo, records, k);
    }
  }

  method FindMaxPgno(logs: seq<seq<byte>>, ghost records: seq<Record>) returns (maxPgno: int)
    requires Encoded(logs, records)
    ensures maxPgno == LastPage(records)
    ensures LogOk(records) ==> Highest(records, maxPgno)
  {
    hide Highest, LogOk, Fits, Encode, Decode;
    HighestIfOk(records);
    hide ParseInsertLog, ParseUpdateLog, EncodeRecord, WellFormed;
    maxPgno := 0;
    var i := 0;
    while i < |logs|
      invariant i <= |logs| && maxPgno == MaxPgno(records, i)
    {
      RecordRoundTrip(records[i]);
      var pgno := if IsInsertLog(logs[i]) then ParseInsertLog(logs[i]).pgno else ParseUpdateLog(logs[i]).pgno;
      if pgno > maxPgno {
        maxPgno := pgno;
      }
      i := i + 1;
    }
    if maxPgno == 0 {
      maxPgno := 1;
    }
  }

  method RedoTransactions(tm: TransactionManager, logs: seq<seq<byte>>, pc: PageStore, ghost records: seq<Record>)
    requires Encoded(logs, records) && Ready(records, pc.pages) && Begun(tm, records)
    modifies pc
    ensures Ready(records, old(pc.pages)) && pc.pages == Redo(records, ActiveIn(tm), old(pc.pages), |records|)
  {
    hide Ready, Step, ParseInsertLog, ParseUpdateLog, EncodeRecord, WellFormed;
    var i := 0;
    while i < |logs|
      invariant i <= |logs| && Ready(records, pc.pages)
      invariant pc.pages == Redo(records, ActiveIn(tm), old(pc.pages), i)
    {
      RecordRoundTrip(records[i]);
      var log := logs[i];
      var xid := if IsInsertLog(log) then ParseInsertLog(log).xid else ParseUpdateLog(log).xid;
      var isActive := tm.CheckActive(xid);
      if !isActive {
        DoLog(pc, log, false, records, i);
      }
      i := i + 1;
    }
  }

  method CacheActive(tm: TransactionManager, logs: seq<seq<byte>>, ghost records: seq<Record>)
      returns (logCache: map<int, seq<seq<byte>>>)
    requires Encoded(logs, records) && Begun(tm, records)
    ensures Cached(logCache, records, ActiveIn(tm), |records|)
  {
    hide ParseInsertLog, ParseUpdateLog, EncodeRecord, WellFormed, Cached;
    logCache := map[];
    NothingCached(records, ActiveIn(tm));
    var i := 0;
    while i < |logs|
      invariant i <= |logs| && Cached(logCache, records, ActiveIn(tm), i)
    {
      RecordRoundTrip(records[i]);
      var log := logs[i];
      var xid := if IsInsertLog(log) then ParseInsertLog(log).xid else ParseUpdateLog(log).xid;
      CacheGrows(logCache, records, ActiveIn(tm), i);
      ghost var grown := logCache[xid := (if xid in logCache then logCache[xid] else []) + [log]];
      var isActive := tm.CheckActive(xid);
      if isActive {
        if xid !in logCache {
          logCache := logCache[xid := []];
        }
        logCache := logCache[xid := logCache[xid] + [log]];
        assert logCache == grown;
      }
      i := i + 1;
    }
  }

  lemma NothingCached(log: seq<Record>, active: set<int>)
    ensures Cached(map[], log, active, 0)
  {
  }

  lemma CacheGrows(logCache: map<int, seq<seq<byte>>>, log: seq<Record>, active: set<int>, n: nat)
    requires n < |log| && Cached(logCache, log, active, n) && WellFormed(log[n])
    ensures var xid := log[n].xid;
            var was := if xid in logCache then logCache[xid] else [];
            Cached(if xid in active then logCache[xid := was + [EncodeRecord(log[n])]] else logCache, log, active, n + 1)
  {
    hide EncodeRecord, WellFormed, Picked;
    var xid := log[n].xid;
    var was := if xid in logCache then logCache[xid] else [];
    var after := if xid in active then logCache[xid := was + [EncodeRecord(log[n])]] else logCache;
    if xid in active && xid !in logCache {
      PickedNone(log, xid, n);
    }
    forall x ensures x in after <==> x in active && exists k :: 0 <= k < n + 1 && log[k].xid == x {
      if x == xid && x in active {
        assert log[n].xid == x;
      }
    }
    forall x | x in after ensures CachedFor(after[x], log, x, n + 1) {
      if x == xid {
        CachedMore(was, log, x, n);
      } else {
        CachedElse(logCache[x], log, x, n);
      }
    }
  }

  lemma CachedMore(cached: seq<seq<byte>>, log: seq<Record>, xid: int, n: nat)
    requires n < |log| && log[n].xid == xid && CachedFor(cached, log, xid, n) && WellFormed(log[n])
    ensures CachedFor(cached + [EncodeRecord(log[n])], log, xid, n + 1)
  {
    hide EncodeRecord, WellFormed;
  }

  lemma CachedElse(cached: seq<seq<byte>>, log: seq<Record>, xid: int, n: nat)
    requires n < |log| && log[n].xid != xid && CachedFor(cached, log, xid, n)
    ensures CachedFor(cached, log, xid, n + 1)
  {
    hide EncodeRecord, WellFormed;
  }

  /** One transaction's cached records, undone from the last to the first. */
  method UndoTransaction(logs: seq<seq<byte>>, pc: PageStore, ghost records: seq<Record>, ghost xid: int)
    requires CachedFor(logs, records, xid, |records|) && Ready(records, pc.pages)
    modifies pc
    ensures Ready(records, old(pc.pages)) && pc.pages == Undo(records, xid, old(pc.pages), |records|)
  {
    hide Ready, Step, EncodeRecord, WellFormed;
    ghost var idx := Picked(records, xid, |records|);
    ghost var bound := |records|;
    var i := |logs| - 1;
    while i >= 0
      invariant -1 <= i < |logs| && Ready(records, pc.pages)
      invariant bound == if i + 1 < |idx| then idx[i + 1] else |records|
      invariant Undo(records, xid, old(pc.pages), |records|) == Undo(records, xid, pc.pages, bound)
      decreases i
    {
      ghost var k := idx[i];
      SkipGap(records, xid, pc.pages, i + 1, bound);
      DoLog(pc, logs[i], true, records, k);
      bound := k;
      i := i - 1;
    }
    SkipGap(records, xid, pc.pages, 0, bound);
  }

  /** Undo passes over what lies between two picked records. */
  lemma SkipGap(log: seq<Record>, xid: int, pages: Pages, i: nat, bound: nat)
    requires Ready(log, pages) && i <= |Picked(log, xid, |log|)|
    requires bound == if i < |Picked(log, xid, |log|)| then Picked(log, xid, |log|)[i] else |log|
    ensures bound <= |log|
    ensures var from := if i > 0 then Picked(log, xid, |log|)[i - 1] + 1 else 0;
            from <= bound && Undo(log, xid, pages, bound) == Undo(log, xid, pages, from)
  {
    hide Ready, Step, Undo;
    var from := if i > 0 then Picked(log, xid, |log|)[i - 1] + 1 else 0;
    if i > 0 && i < |Picked(log, xid, |log|)| {
      PickedGrows(log, xid, |log|, i);
    }
    forall k | from <= k < bound ensures log[k].xid != xid {
      PickedGaps(log, xid, |log|, i, k);
    }
    UndoSkipsTo(log, xid, pages, from, bound);
  }

  lemma {:induction false} PickedGrows(log: seq<Record>, xid: int, n: nat, i: nat)
    requires n <= |log| && 0 < i < |Picked(log, xid, n)|
    ensures Picked(log, xid, n)[i - 1] < Picked(log, xid, n)[i]
  {
    if log[n - 1].xid != xid || i < |Picked(log, xid, n)| - 1 {
      PickedGrows(log, xid, n - 1, i);
    }
  }

  function Withdrawn(status: map<int, Status>, xids: set<int>): map<int, Status> {
    map x | x in status.Keys + xids :: if x in xids then Aborted else status[x]
  }

  function Elements(xids: seq<int>): set<int> {
    set x | x in xids
  }

  lemma AbortOneMore(status: map<int, Status>, xids: seq<int>, xid: int)
    ensures Elements(xids + [xid]) == Elements(xids) + {xid}
    ensures Withdrawn(status, Elements(xids + [xid])) == Withdrawn(status, Elements(xids))[xid := Aborted]
  {
  }

  lemma CacheLists(logCache: map<int, seq<seq<byte>>>, log: seq<Record>, active: set<int>, xids: seq<int>)
    requires Cached(logCache, log, active, |log|) && Elements(xids) == logCache.Keys
    ensures Lists(xids, log, active)
  {
    hide CachedFor;
    forall x ensures x in xids <==> x in active && exists k :: 0 <= k < |log| && log[k].xid == x {
      assert x in xids <==> x in Elements(xids);
    }
  }

  lemma NothingUndone(log: seq<Record>, pages: Pages, status: map<int, Status>)
    requires Ready(log, pages)
    ensures UndoAll(log, [], pages, 0) == pages && Elements([]) == {} && Withdrawn(status, {}) == status
  {
  }

  lemma CachedOne(logCache: map<int, seq<seq<byte>>>, log: seq<Record>, active: set<int>, xid: int)
    requires Cached(logCache, log, active, |log|) && xid in logCache
    ensures CachedFor(logCache[xid], log, xid, |log|) && xid in active
  {
  }

  method UndoTransactions(tm: TransactionManager, logs: seq<seq<byte>>, pc: PageStore, ghost records: seq<Record>)
      returns (ghost xids: seq<int>)
    requires Encoded(logs, records) && Ready(records, pc.pages) && Begun(tm, records)
    modifies pc, tm`file
    ensures Lists(xids, records, old(ActiveIn(tm)))
    ensures Ready(records, old(pc.pages)) && pc.pages == UndoAll(records, xids, old(pc.pages), |xids|)
    ensures Begun(tm, records) && Statuses(tm.file) == Withdrawn(old(Statuses(tm.file)), Elements(xids))
  {
    hide Ready, Step, Undo, UndoAll, EncodeRecord, WellFormed, Picked, Elements, Withdrawn, Lists, Cached, CachedFor;
    NothingUndone(records, pc.pages, Statuses(tm.file));
    var logCache := CacheActive(tm, logs, records);
    ghost var active := ActiveIn(tm);
    ghost var was := Statuses(tm.file);
    ghost var last := tm.xidCounter;
    assert forall x | x in active :: 1 <= x <= last;
    var rest := logCache.Keys;
    xids := [];
    while rest != {}
      invariant rest <= logCache.Keys && Elements(xids) == logCache.Keys - rest
      invariant Ready(records, pc.pages) && pc.pages == UndoAll(records, xids, old(pc.pages), |xids|)
      invariant tm.xidCounter == last
      invariant Begun(tm, records) && Statuses(tm.file) == Withdrawn(was, Elements(xids))
      decreases rest
    {
      ghost var some := SomeElement(rest);
      var xid: int :| xid in rest;
      CachedOne(logCache, records, active, xid);
      UndoTransaction(logCache[xid], pc, records, xid);
      tm.Abort(xid);
      UndoOneMore(records, xids, xid, old(pc.pages));
      AbortOneMore(was, xids, xid);
      xids := xids + [xid];
      rest := rest - {xid};
    }
    CacheLists(logCache, records, active, xids);
  }

  lemma {:induction false} UndoAllPrefix(log: seq<Record>, xids: seq<int>, ys: seq<int>, pages: Pages, n: nat)
    requires Ready(log, pages) && n <= |xids| <= |ys| && ys[..|xids|] == xids
    ensures UndoAll(log, ys, pages, n) == UndoAll(log, xids, pages, n)
  {
    hide Ready, Undo;
    if n > 0 {
      UndoAllPrefix(log, xids, ys, pages, n - 1);
      assert ys[n - 1] == ys[..|xids|][n - 1];
    }
  }

  lemma UndoLast(log: seq<Record>, xids: seq<int>, pages: Pages, n: nat)
    requires Ready(log, pages) && n < |xids|
    ensures UndoAll(log, xids, pages, n + 1) == Undo(log, xids[n], UndoAll(log, xids, pages, n), |log|)
  {
    hide Ready, Undo;
  }

  lemma UndoOneMore(log: seq<Record>, xids: seq<int>, xid: int, pages: Pages)
    requires Ready(log, pages)
    ensures UndoAll(log, xids + [xid], pages, |xids| + 1) == Undo(log, xid, UndoAll(log, xids, pages, |xids|), |log|)
  {
    hide Ready, Undo, UndoAll;
    var ys := xids + [xid];
    assert ys[..|xids|] == xids && ys[|xids|] == xid;
    UndoAllPrefix(log, xids, ys, pages, |xids|);
    UndoLast(log, ys, pages, |xids|);
  }

  /** The program computes the recovery that the log determines, and marks every
      transaction it undid as aborted. */
  method Recover(tm: TransactionManager, logs: seq<seq<byte>>, pc: PageStore, ghost records: seq<Record>)
      returns (ghost xids: seq<int>)
    requires Encoded(logs, records) && LogOk(records) && NotAhead(records, pc.pages) && Begun(tm, records)
    modifies tm`file, pc
    ensures Lists(xids, records, old(ActiveIn(tm)))
    ensures var pages := Truncated(old(pc.pages), LastPage(records));
            Ready(records, pages) && pc.pages == Recovered(records, old(ActiveIn(tm)), xids, pages)
    ensures Begun(tm, records) && Statuses(tm.file) == Withdrawn(old(Statuses(tm.file)), Elements(xids))
  {
    var maxPgno := FindMaxPgno(logs, records);
    TruncatedIsReady(records, pc.pages);
    pc.TruncateByBgno(maxPgno);
    RedoTransactions(tm, logs, pc, records);
    xids := UndoTransactions(tm, logs, pc, records);
  }
}
