/** The transactional unique index, against a plain set with pending changes. */
module UniqueIndexes {

  type Columns = map<string, set<int>>
  type Key = (string, int)

  datatype Index = Index(index: Columns, tempIndex: map<int, Columns>, deleteMark: map<int, Columns>)

  datatype Event =
    | Insert(xid: int, column: string, data: int)
    | Delete(xid: int, column: string, data: int)
    | Commit(xid: int)
    | Rollback(xid: int)

  datatype Outcome = Done | Violation | NotFound | Conflict | NullColumn

  predicate Has(m: Columns, c: string, v: int) {
    c in m && v in m[c]
  }

  function Column(m: Columns, c: string): set<int> {
    if c in m then m[c] else {}
  }

  function Of(m: map<int, Columns>, xid: int): Columns {
    if xid in m then m[xid] else map[]
  }

  /** putIfAbsent(column, new HashSet<>()) */
  function Registered(m: Columns, c: string): Columns {
    m[c := Column(m, c)]
  }

  function Added(m: Columns, c: string, v: int): Columns {
    m[c := Column(m, c) + {v}]
  }

  function Dropped(m: Columns, c: string, v: int): Columns {
    m[c := Column(m, c) - {v}]
  }

  predicate Pending(t: Index, xid: int, c: string, v: int) {
    Has(Of(t.tempIndex, xid), c, v)
  }

  predicate Marked(t: Index, xid: int, c: string, v: int) {
    Has(Of(t.deleteMark, xid), c, v)
  }

  predicate TakenByOther(t: Index, xid: int, c: string, v: int) {
    exists y :: y in t.tempIndex && y != xid && Has(t.tempIndex[y], c, v)
  }

  function AfterInsert(t: Index, xid: int, c: string, v: int): (Index, Outcome) {
    var prepared := t.(index := Registered(t.index, c),
                       tempIndex := t.tempIndex[xid := Registered(Of(t.tempIndex, xid), c)]);
    if TakenByOther(t, xid, c, v) || Has(t.index, c, v) || Pending(t, xid, c, v) then (prepared, Violation)
    else (prepared.(tempIndex := t.tempIndex[xid := Added(Of(t.tempIndex, xid), c, v)]), Done)
  }

  function AfterDelete(t: Index, xid: int, c: string, v: int): (Index, Outcome) {
    var prepared := t.(tempIndex := t.tempIndex[xid := Of(t.tempIndex, xid)],
                       deleteMark := t.deleteMark[xid := Registered(Of(t.deleteMark, xid), c)]);
    if Has(t.index, c, v) then
      (prepared.(deleteMark := t.deleteMark[xid := Added(Of(t.deleteMark, xid), c, v)]), Done)
    else if Pending(t, xid, c, v) then
      (prepared.(tempIndex := t.tempIndex[xid := Dropped(Of(t.tempIndex, xid), c, v)]), Done)
    else (prepared, NotFound)
  }

  function Union(m: Columns, more: Columns): Columns {
    map c | c in m.Keys + more.Keys :: Column(m, c) + Column(more, c)
  }

  function Minus(m: Columns, less: Columns): Columns {
    map c | c in m :: m[c] - Column(less, c)
  }

  predicate Clashes(m: Columns, p: Columns) {
    exists c :: c in p && exists v :: v in p[c] && Has(m, c, v)
  }

  /** A pending value in a column the index does not know. */
  predicate Unregistered(m: Columns, p: Columns) {
    exists c :: c in p && c !in m && p[c] != {}
  }

  predicate UnknownMarks(m: Columns, p: Columns, d: Columns) {
    exists c :: c in d && c !in m && c !in p
  }

  function AfterCommit(t: Index, xid: int): (Index, Outcome) {
    if xid !in t.tempIndex then (t, Done)
    else
      var p, d := t.tempIndex[xid], Of(t.deleteMark, xid);
      if Clashes(t.index, p) then (t, Conflict)
      else if Unregistered(t.index, p) then (t, NullColumn)
      else if UnknownMarks(t.index, p, d) then (t.(index := Union(t.index, p)), NullColumn)
      else (Index(Minus(Union(t.index, p), d), t.tempIndex - {xid}, t.deleteMark - {xid}), Done)
  }

  function AfterRollback(t: Index, xid: int): Index {
    if xid !in t.tempIndex then t
    else
      var d := Of(t.deleteMark, xid);
      Index(Union(t.index, d), t.tempIndex - {xid}, t.deleteMark - {xid})
  }

  function Step(t: Index, e: Event): (Index, Outcome) {
    match e
    case Insert(xid, c, v) => AfterInsert(t, xid, c, v)
    case Delete(xid, c, v) => AfterDelete(t, xid, c, v)
    case Commit(xid) => AfterCommit(t, xid)
    case Rollback(xid) => (AfterRollback(t, xid), Done)
  }

  // The plain set.

  /** Committed keys, and each transaction's own insertions and deletions. */
  datatype Plain = Plain(committed: set<Key>, inserted: map<int, set<Key>>, deleted: map<int, set<Key>>)

  function Work(m: map<int, set<Key>>, xid: int): set<Key> {
    if xid in m then m[xid] else {}
  }

  predicate InUse(s: Plain, k: Key) {
    k in s.committed || exists x :: x in s.inserted && k in s.inserted[x]
  }

  /** The deletions of the others, without the keys that this one deleted. */
  function Lapsed(m: map<int, set<Key>>, xid: int): map<int, set<Key>> {
    map x | x in m && x != xid :: m[x] - Work(m, xid)
  }

  /** What a unique index is for: a key can be inserted while nobody has it, deleted
      while it is committed or one's own, and transactions take effect whole. A
      deletion lapses when another transaction's commit takes the key away. */
  function PlainStep(s: Plain, e: Event): (Plain, Outcome) {
    match e
    case Insert(xid, c, v) =>
      if InUse(s, (c, v)) then (s, Violation)
      else (s.(inserted := s.inserted[xid := Work(s.inserted, xid) + {(c, v)}]), Done)
    case Delete(xid, c, v) =>
      if (c, v) in s.committed then (s.(deleted := s.deleted[xid := Work(s.deleted, xid) + {(c, v)}]), Done)
      else if (c, v) in Work(s.inserted, xid) then
        (s.(inserted := s.inserted[xid := Work(s.inserted, xid) - {(c, v)}]), Done)
      else (s, NotFound)
    case Commit(xid) =>
      (Plain((s.committed + Work(s.inserted, xid)) - Work(s.deleted, xid), s.inserted - {xid}, Lapsed(s.deleted, xid)), Done)
    case Rollback(xid) =>
      (Plain(s.committed, s.inserted - {xid}, s.deleted - {xid}), Done)
  }

  // The flat view of columns of values.

  ghost function Flat(m: Columns): set<Key> {
    set c, v | c in m && v in m[c] :: (c, v)
  }

  lemma FlatHas(m: Columns, c: string, v: int)
    ensures Has(m, c, v) <==> (c, v) in Flat(m)
  {
  }

  lemma FlatRegistered(m: Columns, c: string)
    ensures Flat(Registered(m, c)) == Flat(m) && Registered(m, c).Keys == m.Keys + {c}
  {
    var after := Registered(m, c);
    forall k ensures k in Flat(after) <==> k in Flat(m) {
      assert Has(after, k.0, k.1) <==> Has(m, k.0, k.1);
    }
  }

  lemma FlatAdded(m: Columns, c: string, v: int)
    ensures Flat(Added(m, c, v)) == Flat(m) + {(c, v)} && Added(m, c, v).Keys == m.Keys + {c}
  {
    forall k ensures k in Flat(Added(m, c, v)) <==> k in Flat(m) + {(c, v)} {
      assert Has(Added(m, c, v), k.0, k.1) <==> Has(m, k.0, k.1) || k == (c, v);
    }
  }

  lemma FlatDropped(m: Columns, c: string, v: int)
    ensures Flat(Dropped(m, c, v)) == Flat(m) - {(c, v)} && Dropped(m, c, v).Keys == m.Keys + {c}
  {
    forall k ensures k in Flat(Dropped(m, c, v)) <==> k in Flat(m) - {(c, v)} {
      assert Has(Dropped(m, c, v), k.0, k.1) <==> Has(m, k.0, k.1) && k != (c, v);
    }
  }

  lemma FlatUnion(m: Columns, more: Columns)
    ensures Flat(Union(m, more)) == Flat(m) + Flat(more) && Union(m, more).Keys == m.Keys + more.Keys
  {
    forall k ensures k in Flat(Union(m, more)) <==> k in Flat(m) + Flat(more) {
      assert Has(Union(m, more), k.0, k.1) <==> Has(m, k.0, k.1) || Has(more, k.0, k.1);
    }
  }

  lemma FlatMinus(m: Columns, less: Columns)
    ensures Flat(Minus(m, less)) == Flat(m) - Flat(less) && Minus(m, less).Keys == m.Keys
  {
    forall k ensures k in Flat(Minus(m, less)) <==> k in Flat(m) - Flat(less) {
      assert Has(Minus(m, less), k.0, k.1) <==> Has(m, k.0, k.1) && !Has(less, k.0, k.1);
    }
  }

  /** What every step keeps, right or wrong: pending values are in columns the index
      knows, and who has marks has pending values, if only none. */
  ghost predicate Known(t: Index) {
    && (forall x :: Of(t.tempIndex, x).Keys <= t.index.Keys)
    && t.deleteMark.Keys <= t.tempIndex.Keys
  }

  /** The three maps hold the plain set's keys. A mark that has lapsed is still there. */
  ghost predicate Refines(t: Index, s: Plain) {
    Known(t) && Flat(t.index) == s.committed && forall x :: RefinesFor(t, s, x)
  }

  ghost predicate RefinesFor(t: Index, s: Plain, x: int) {
    && Flat(Of(t.tempIndex, x)) == Work(s.inserted, x)
    && Work(s.deleted, x) <= Flat(Of(t.deleteMark, x))
  }

  /** Nobody inserts a key that is committed or pending elsewhere, and nobody deletes
      what is not committed. */
  ghost predicate PlainOk(s: Plain) {
    && (forall x, y | x != y :: Work(s.inserted, x) !! Work(s.inserted, y))
    && (forall x :: Work(s.inserted, x) !! s.committed && Work(s.deleted, x) <= s.committed)
  }

  /** The marks that another commit has overtaken. */
  ghost function Stale(t: Index, s: Plain, xid: int): set<Key> {
    Flat(Of(t.deleteMark, xid)) - Work(s.deleted, xid)
  }

  /** When a step is the plain set's. A commit must know all columns it has marks in and
      have no overtaken mark on a key that is committed again, or that it inserted
      itself; a rollback must find all its marks still committed. */
  ghost predicate Right(t: Index, s: Plain, e: Event) {
    match e
    case Insert(_, _, _) => true
    case Delete(_, _, _) => true
    case Commit(xid) =>
      Of(t.deleteMark, xid).Keys <= t.index.Keys && Stale(t, s, xid) !! s.committed + Work(s.inserted, xid)
    case Rollback(xid) => Flat(Of(t.deleteMark, xid)) <= s.committed
  }

  const EMPTY := Index(map[], map[], map[])
  const NOTHING := Plain({}, map[], map[])

  /** Every step of the plain set keeps pending keys apart, and deletions on committed
      keys. */
  lemma PlainStepOk(s: Plain, e: Event)
    requires PlainOk(s)
    ensures PlainOk(PlainStep(s, e).0)
  {
    var after := PlainStep(s, e).0;
    forall x, y | x != y ensures Work(after.inserted, x) !! Work(after.inserted, y) {
      assert Work(s.inserted, x) !! Work(s.inserted, y);
    }
    forall x ensures Work(after.inserted, x) !! after.committed && Work(after.deleted, x) <= after.committed {
      assert Work(s.inserted, x) !! s.committed && Work(s.deleted, x) <= s.committed;
      if x != e.xid {
        assert Work(s.inserted, x) !! Work(s.inserted, e.xid);
      }
    }
  }

  lemma KnownStays(t: Index, e: Event)
    requires Known(t)
    ensures Known(Step(t, e).0)
  {
    var after := Step(t, e).0;
    forall x ensures Of(after.tempIndex, x).Keys <= after.index.Keys {
      assert Of(t.tempIndex, x).Keys <= t.index.Keys;
    }
  }

  lemma TakenIsInUse(t: Index, s: Plain, xid: int, c: string, v: int)
    requires Refines(t, s)
    ensures TakenByOther(t, xid, c, v) || Has(t.index, c, v) || Pending(t, xid, c, v) <==> InUse(s, (c, v))
  {
    hide Flat;
    assert RefinesFor(t, s, xid);
    FlatHas(t.index, c, v);
    FlatHas(Of(t.tempIndex, xid), c, v);
    if TakenByOther(t, xid, c, v) {
      var y :| y in t.tempIndex && y != xid && Has(t.tempIndex[y], c, v);
      assert RefinesFor(t, s, y);
      FlatHas(Of(t.tempIndex, y), c, v);
    }
    if InUse(s, (c, v)) && (c, v) !in s.committed {
      var x :| x in s.inserted && (c, v) in s.inserted[x];
      assert RefinesFor(t, s, x) && (c, v) in Work(s.inserted, x);
      FlatHas(Of(t.tempIndex, x), c, v);
    }
  }

  lemma RefinesFacts(t: Index, s: Plain, x: int)
    requires Refines(t, s)
    ensures Flat(t.index) == s.committed && RefinesFor(t, s, x) && Known(t) && t.deleteMark.Keys <= t.tempIndex.Keys
    ensures Flat(Of(t.tempIndex, x)) == Work(s.inserted, x) && Work(s.deleted, x) <= Flat(Of(t.deleteMark, x))
    ensures Of(t.tempIndex, x).Keys <= t.index.Keys
  {
  }

  lemma RefinesOne(t: Index, s: Plain, x: int)
    requires Flat(Of(t.tempIndex, x)) == Work(s.inserted, x) && Work(s.deleted, x) <= Flat(Of(t.deleteMark, x))
    ensures RefinesFor(t, s, x)
  {
  }

  lemma FlatNothing()
    ensures Flat(map[]) == {}
  {
  }

  lemma UnknownColumns(m: Columns, p: Columns, d: Columns)
    requires p.Keys <= m.Keys
    ensures UnknownMarks(m, p, d) <==> !(d.Keys <= m.Keys)
  {
  }

  lemma OfMine(t: Index, xid: int)
    requires t.deleteMark.Keys <= t.tempIndex.Keys
    ensures xid in t.tempIndex ==> Of(t.tempIndex, xid) == t.tempIndex[xid]
    ensures xid !in t.tempIndex ==> Of(t.tempIndex, xid) == map[] && Of(t.deleteMark, xid) == map[]
  {
  }

  lemma DeletedIsCommitted(s: Plain, xid: int)
    requires PlainOk(s)
    ensures Work(s.deleted, xid) <= s.committed
  {
  }

  lemma OthersStay(t: Index, s: Plain, after: Index, plain: Plain, xid: int)
    requires Refines(t, s) && Known(after) && Flat(after.index) == plain.committed
    requires forall x | x != xid :: Of(after.tempIndex, x) == Of(t.tempIndex, x) && Of(after.deleteMark, x) == Of(t.deleteMark, x)
    requires forall x | x != xid :: Work(plain.inserted, x) == Work(s.inserted, x) && Work(plain.deleted, x) <= Work(s.deleted, x)
    requires RefinesFor(after, plain, xid)
    ensures Refines(after, plain)
  {
    hide Flat, Of, Work, Known;
    forall x ensures RefinesFor(after, plain, x) {
      assert RefinesFor(t, s, x);
    }
  }

  lemma MapFacts(m: map<int, Columns>, w: map<int, set<Key>>, xid: int, p: Columns, k: set<Key>)
    ensures Of(m[xid := p], xid) == p && Of(m - {xid}, xid) == map[]
    ensures forall x | x != xid :: Of(m[xid := p], x) == Of(m, x) && Of(m - {xid}, x) == Of(m, x)
    ensures Work(w[xid := k], xid) == k && Work(w - {xid}, xid) == {}
    ensures forall x | x != xid :: Work(w[xid := k], x) == Work(w, x) && Work(w - {xid}, x) == Work(w, x)
  {
    OfFacts(m, xid, p);
    WorkFacts(w, xid, k);
  }

  lemma OfFacts(m: map<int, Columns>, xid: int, p: Columns)
    ensures Of(m[xid := p], xid) == p && Of(m - {xid}, xid) == map[]
    ensures forall x | x != xid :: Of(m[xid := p], x) == Of(m, x) && Of(m - {xid}, x) == Of(m, x)
  {
  }

  lemma WorkFacts(w: map<int, set<Key>>, xid: int, k: set<Key>)
    ensures Work(w[xid := k], xid) == k && Work(w - {xid}, xid) == {}
    ensures forall x | x != xid :: Work(w[xid := k], x) == Work(w, x) && Work(w - {xid}, x) == Work(w, x)
  {
  }

  lemma LapsedFacts(w: map<int, set<Key>>, xid: int)
    ensures Work(Lapsed(w, xid), xid) == {}
    ensures forall x | x != xid :: Work(Lapsed(w, xid), x) <= Work(w, x)
  {
  }

  /** Insertions succeed in the index exactly when the plain set allows them. */
  lemma InsertRefines(t: Index, s: Plain, xid: int, c: string, v: int)
    requires Refines(t, s)
    ensures AfterInsert(t, xid, c, v).1 == PlainStep(s, Insert(xid, c, v)).1
    ensures Refines(AfterInsert(t, xid, c, v).0, PlainStep(s, Insert(xid, c, v)).0)
  {
    hide Flat, Has, TakenByOther, InUse, Pending, Registered, Added, Refines, RefinesFor, Of, Work;
    RefinesFacts(t, s, xid);
    KnownStays(t, Insert(xid, c, v));
    hide Known;
    TakenIsInUse(t, s, xid, c, v);
    var mine := Of(t.tempIndex, xid);
    FlatRegistered(t.index, c);
    FlatRegistered(mine, c);
    FlatAdded(mine, c, v);
    MapFacts(t.tempIndex, s.inserted, xid, Registered(mine, c), Work(s.inserted, xid));
    MapFacts(t.tempIndex, s.inserted, xid, Added(mine, c, v), Work(s.inserted, xid) + {(c, v)});
    var after, plain := AfterInsert(t, xid, c, v).0, PlainStep(s, Insert(xid, c, v)).0;
    RefinesOne(after, plain, xid);
    OthersStay(t, s, after, plain, xid);
  }

  lemma DeleteRefines(t: Index, s: Plain, xid: int, c: string, v: int)
    requires Refines(t, s)
    ensures AfterDelete(t, xid, c, v).1 == PlainStep(s, Delete(xid, c, v)).1
    ensures Refines(AfterDelete(t, xid, c, v).0, PlainStep(s, Delete(xid, c, v)).0)
  {
    hide Flat, Has, Registered, Added, Dropped, Refines, RefinesFor, Of, Work;
    RefinesFacts(t, s, xid);
    KnownStays(t, Delete(xid, c, v));
    hide Known;
    var mine, marks := Of(t.tempIndex, xid), Of(t.deleteMark, xid);
    FlatHas(t.index, c, v);
    FlatHas(mine, c, v);
    FlatRegistered(marks, c);
    FlatAdded(marks, c, v);
    FlatDropped(mine, c, v);
    MapFacts(t.tempIndex, s.inserted, xid, mine, Work(s.inserted, xid));
    MapFacts(t.tempIndex, s.inserted, xid, Dropped(mine, c, v), Work(s.inserted, xid) - {(c, v)});
    MapFacts(t.deleteMark, s.deleted, xid, Registered(marks, c), Work(s.deleted, xid));
    MapFacts(t.deleteMark, s.deleted, xid, Added(marks, c, v), Work(s.deleted, xid) + {(c, v)});
    var after, plain := AfterDelete(t, xid, c, v).0, PlainStep(s, Delete(xid, c, v)).0;
    RefinesOne(after, plain, xid);
    OthersStay(t, s, after, plain, xid);
  }

  lemma NoClash(t: Index, s: Plain, xid: int)
    requires Refines(t, s) && PlainOk(s)
    ensures !Clashes(t.index, Of(t.tempIndex, xid)) && !Unregistered(t.index, Of(t.tempIndex, xid))
  {
    var p := Of(t.tempIndex, xid);
    assert RefinesFor(t, s, xid);
    forall c, v | c in p && v in p[c] ensures !Has(t.index, c, v) {
      FlatHas(p, c, v);
      FlatHas(t.index, c, v);
      assert (c, v) in Work(s.inserted, xid);
    }
  }

  /** Committing never meets a conflict, and publishes the transaction's changes at
      once if and only if it knows its columns and no overtaken mark does harm. */
  lemma CommitRefines(t: Index, s: Plain, xid: int)
    requires Refines(t, s) && PlainOk(s)
    ensures !AfterCommit(t, xid).1.Conflict?
    ensures AfterCommit(t, xid).1.Done? && Refines(AfterCommit(t, xid).0, PlainStep(s, Commit(xid)).0) <==>
            Right(t, s, Commit(xid))
  {
    hide Flat, Has, Clashes, Unregistered, Union, Minus, PlainOk, UnknownMarks, Refines, RefinesFor, Of, Work;
    RefinesFacts(t, s, xid);
    KnownStays(t, Commit(xid));
    hide Known;
    NoClash(t, s, xid);
    var p, d := Of(t.tempIndex, xid), Of(t.deleteMark, xid);
    FlatUnion(t.index, p);
    FlatMinus(Union(t.index, p), d);
    FlatNothing();
    UnknownColumns(t.index, p, d);
    OfMine(t, xid);
    var after, plain := AfterCommit(t, xid).0, PlainStep(s, Commit(xid)).0;
    if d.Keys <= t.index.Keys {
      MapFacts(t.tempIndex, s.inserted, xid, p, {});
      OfFacts(t.deleteMark, xid, d);
      LapsedFacts(s.deleted, xid);
      DeletedIsCommitted(s, xid);
      TakeAway(s.committed + Work(s.inserted, xid), Flat(d), Work(s.deleted, xid));
      if Flat(after.index) == plain.committed {
        RefinesOne(after, plain, xid);
        OthersStay(t, s, after, plain, xid);
      } else {
        NotRefined(after, plain);
      }
    }
  }

  lemma NotRefined(t: Index, s: Plain)
    requires Flat(t.index) != s.committed
    ensures !Refines(t, s)
  {
  }

  /** Taking away more is the same exactly when the rest was not there. */
  lemma TakeAway(all: set<Key>, more: set<Key>, less: set<Key>)
    requires less <= more
    ensures all - more == all - less <==> more - less !! all
  {
    forall k | k in all && k in more - less ensures k !in all - more && k in all - less {
    }
  }

  /** Rolling back leaves the committed values as they are exactly when the values
      marked for deletion are still committed. */
  lemma RollbackKeepsCommitted(t: Index, xid: int)
    requires xid in t.tempIndex
    ensures Flat(AfterRollback(t, xid).index) == Flat(t.index) <==> Flat(Of(t.deleteMark, xid)) <= Flat(t.index)
  {
    FlatUnion(t.index, Of(t.deleteMark, xid));
  }

  /** Rolling back drops the transaction's changes and nothing else if and only if all
      its marks are on keys still committed. */
  lemma RollbackRefines(t: Index, s: Plain, xid: int)
    requires Refines(t, s) && PlainOk(s)
    ensures Refines(AfterRollback(t, xid), PlainStep(s, Rollback(xid)).0) <==> Right(t, s, Rollback(xid))
  {
    hide Flat, Union, PlainOk, Refines, RefinesFor, Of, Work;
    RefinesFacts(t, s, xid);
    KnownStays(t, Rollback(xid));
    hide Known;
    var d := Of(t.deleteMark, xid);
    FlatUnion(t.index, d);
    FlatNothing();
    OfMine(t, xid);
    MapFacts(t.tempIndex, s.inserted, xid, d, {});
    MapFacts(t.deleteMark, s.deleted, xid, d, {});
    var after, plain := AfterRollback(t, xid), PlainStep(s, Rollback(xid)).0;
    assert Flat(after.index) == s.committed <==> Flat(d) <= s.committed;
    if Flat(after.index) == s.committed {
      RefinesOne(after, plain, xid);
      OthersStay(t, s, after, plain, xid);
    } else {
      NotRefined(after, plain);
    }
  }

  /** The step answers as the plain set does and keeps its keys. */
  ghost predicate SameStep(t: Index, s: Plain, e: Event) {
    Step(t, e).1 == PlainStep(s, e).1 && Refines(Step(t, e).0, PlainStep(s, e).0)
  }

  lemma StepRefines(t: Index, s: Plain, e: Event)
    requires Refines(t, s) && PlainOk(s)
    ensures SameStep(t, s, e) <==> Right(t, s, e)
    ensures PlainOk(PlainStep(s, e).0)
  {
    PlainStepOk(s, e);
    hide Refines, PlainOk, AfterInsert, AfterDelete, AfterCommit, AfterRollback;
    match e
    case Insert(xid, c, v) => InsertRefines(t, s, xid, c, v);
    case Delete(xid, c, v) => DeleteRefines(t, s, xid, c, v);
    case Commit(xid) => CommitRefines(t, s, xid);
    case Rollback(xid) => RollbackRefines(t, s, xid);
  }

  /** At every point of the run the index holds the plain set's keys, and every step
      answers as the plain set does. */
  ghost predicate InStep(t: Index, s: Plain, events: seq<Event>, n: nat)
    requires n <= |events|
    decreases |events| - n
  {
    && Refines(t, s)
    && (n < |events| ==>
          && Step(t, events[n]).1 == PlainStep(s, events[n]).1
          && InStep(Step(t, events[n]).0, PlainStep(s, events[n]).0, events, n + 1))
  }

  ghost predicate AllRight(t: Index, s: Plain, events: seq<Event>, n: nat)
    requires n <= |events|
    decreases |events| - n
  {
    n < |events| ==>
      && Right(t, s, events[n])
      && AllRight(Step(t, events[n]).0, PlainStep(s, events[n]).0, events, n + 1)
  }

  /** The outcomes of a run, and the index it ends with. */
  function Play(t: Index, events: seq<Event>, n: nat): (seq<Outcome>, Index)
    requires n <= |events|
    decreases |events| - n
  {
    if n == |events| then ([], t)
    else
      var (after, o) := Step(t, events[n]);
      var (os, last) := Play(after, events, n + 1);
      ([o] + os, last)
  }

  function PlainPlay(s: Plain, events: seq<Event>, n: nat): (seq<Outcome>, Plain)
    requires n <= |events|
    decreases |events| - n
  {
    if n == |events| then ([], s)
    else
      var (after, o) := PlainStep(s, events[n]);
      var (os, last) := PlainPlay(after, events, n + 1);
      ([o] + os, last)
  }

  lemma {:induction false} PlayRefines(t: Index, s: Plain, events: seq<Event>, n: nat)
    requires Refines(t, s) && PlainOk(s) && n <= |events|
    ensures InStep(t, s, events, n) <==> AllRight(t, s, events, n)
    ensures InStep(t, s, events, n) ==>
              && Play(t, events, n).0 == PlainPlay(s, events, n).0
              && Refines(Play(t, events, n).1, PlainPlay(s, events, n).1)
    ensures PlainOk(PlainPlay(s, events, n).1)
    decreases |events| - n
  {
    hide Refines, PlainOk, Step, PlainStep, Right;
    if n < |events| {
      StepRefines(t, s, events[n]);
      var t', s' := Step(t, events[n]).0, PlainStep(s, events[n]).0;
      if Refines(t', s') {
        PlayRefines(t', s', events, n + 1);
      } else {
        PlainPlayOk(s', events, n + 1);
      }
    }
  }

  lemma {:induction false} PlainPlayOk(s: Plain, events: seq<Event>, n: nat)
    requires PlainOk(s) && n <= |events|
    ensures PlainOk(PlainPlay(s, events, n).1)
    decreases |events| - n
  {
    hide PlainOk, PlainStep;
    if n < |events| {
      PlainStepOk(s, events[n]);
      PlainPlayOk(PlainStep(s, events[n]).0, events, n + 1);
    }
  }

  /** Any run of the index goes as on the plain set, where committed sets are folds of
      whole transactions in commit order and no key is ever held twice, if and only if
      every commit and every rollback in it is right. */
  lemma RunsRefineAPlainSet(columns: set<string>, events: seq<Event>)
    ensures InStep(Registry(columns), NOTHING, events, 0) <==> AllRight(Registry(columns), NOTHING, events, 0)
    ensures InStep(Registry(columns), NOTHING, events, 0) ==>
              && Play(Registry(columns), events, 0).0 == PlainPlay(NOTHING, events, 0).0
              && Refines(Play(Registry(columns), events, 0).1, PlainPlay(NOTHING, events, 0).1)
    ensures PlainOk(PlainPlay(NOTHING, events, 0).1)
  {
    RegistryRefines(columns);
    hide InStep, AllRight, Play, PlainPlay;
    PlayRefines(Registry(columns), NOTHING, events, 0);
  }

  lemma RegistryRefines(columns: set<string>)
    ensures Refines(Registry(columns), NOTHING) && PlainOk(NOTHING)
  {
    var t := Registry(columns);
    assert Flat(t.index) == {} && Flat(map[]) == {};
    forall x ensures RefinesFor(t, NOTHING, x) {
    }
  }

  // Runs in which no two transactions mark one value.

  /** Deletions are of known columns, and of values that no other active transaction
      has marked. */
  ghost predicate Unshared(t: Index, e: Event) {
    e.Delete? ==> e.column in t.index && forall y | y != e.xid :: !Marked(t, y, e.column, e.data)
  }

  ghost predicate AllUnshared(t: Index, events: seq<Event>, n: nat)
    requires n <= |events|
    decreases |events| - n
  {
    n < |events| ==> Unshared(t, events[n]) && AllUnshared(Step(t, events[n]).0, events, n + 1)
  }

  /** No mark has lapsed, and none is shared. */
  ghost predicate Fresh(t: Index, s: Plain) {
    && (forall x :: Flat(Of(t.deleteMark, x)) == Work(s.deleted, x) && Of(t.deleteMark, x).Keys <= t.index.Keys)
    && (forall x, y | x != y :: Work(s.deleted, x) !! Work(s.deleted, y))
  }

  lemma FreshIsRight(t: Index, s: Plain, e: Event)
    requires Refines(t, s) && PlainOk(s) && Fresh(t, s)
    ensures Right(t, s, e)
  {
    hide Flat;
  }

  lemma FreshAfter(t: Index, s: Plain, after: Index, plain: Plain, xid: int)
    requires Fresh(t, s) && t.index.Keys <= after.index.Keys
    requires forall x | x != xid :: Of(after.deleteMark, x) == Of(t.deleteMark, x) && Work(plain.deleted, x) == Work(s.deleted, x)
    requires Flat(Of(after.deleteMark, xid)) == Work(plain.deleted, xid)
    requires Of(after.deleteMark, xid).Keys <= after.index.Keys
    requires forall x | x != xid :: Work(s.deleted, x) !! Work(plain.deleted, xid)
    ensures Fresh(after, plain)
  {
    hide Flat, Of, Work;
    forall x ensures Flat(Of(after.deleteMark, x)) == Work(plain.deleted, x) && Of(after.deleteMark, x).Keys <= after.index.Keys {
      assert Flat(Of(t.deleteMark, x)) == Work(s.deleted, x) && Of(t.deleteMark, x).Keys <= t.index.Keys;
    }
    forall x, y | x != y ensures Work(plain.deleted, x) !! Work(plain.deleted, y) {
      assert Work(s.deleted, x) !! Work(s.deleted, y);
    }
  }

  lemma FreshFacts(t: Index, s: Plain, xid: int)
    requires Fresh(t, s)
    ensures Flat(Of(t.deleteMark, xid)) == Work(s.deleted, xid) && Of(t.deleteMark, xid).Keys <= t.index.Keys
    ensures forall x | x != xid :: Work(s.deleted, x) !! Work(s.deleted, xid)
    ensures forall x | x != xid :: Work(Lapsed(s.deleted, xid), x) == Work(s.deleted, x)
  {
    forall x | x != xid ensures Work(Lapsed(s.deleted, xid), x) == Work(s.deleted, x) {
      assert Work(s.deleted, x) !! Work(s.deleted, xid);
    }
  }

  lemma FreshInsert(t: Index, s: Plain, xid: int, c: string, v: int)
    requires Fresh(t, s)
    ensures Fresh(AfterInsert(t, xid, c, v).0, PlainStep(s, Insert(xid, c, v)).0)
  {
    FreshFacts(t, s, xid);
    hide Flat, Of, Work, Fresh;
    FreshAfter(t, s, AfterInsert(t, xid, c, v).0, PlainStep(s, Insert(xid, c, v)).0, xid);
  }

  lemma FreshDelete(t: Index, s: Plain, xid: int, c: string, v: int)
    requires Refines(t, s) && Fresh(t, s) && Unshared(t, Delete(xid, c, v))
    ensures Fresh(AfterDelete(t, xid, c, v).0, PlainStep(s, Delete(xid, c, v)).0)
  {
    var marks := Of(t.deleteMark, xid);
    RefinesFacts(t, s, xid);
    FreshFacts(t, s, xid);
    FlatHas(t.index, c, v);
    FlatRegistered(marks, c);
    FlatAdded(marks, c, v);
    forall x | x != xid ensures (c, v) !in Work(s.deleted, x) {
      assert !Marked(t, x, c, v);
      FreshFacts(t, s, x);
      FlatHas(Of(t.deleteMark, x), c, v);
    }
    hide Flat, Of, Work, Fresh, Registered, Added, Dropped, Refines, RefinesFor, Known, Has;
    MapFacts(t.deleteMark, s.deleted, xid, Registered(marks, c), Work(s.deleted, xid));
    MapFacts(t.deleteMark, s.deleted, xid, Added(marks, c, v), Work(s.deleted, xid) + {(c, v)});
    FreshAfter(t, s, AfterDelete(t, xid, c, v).0, PlainStep(s, Delete(xid, c, v)).0, xid);
  }

  lemma FreshCommit(t: Index, s: Plain, xid: int)
    requires Refines(t, s) && PlainOk(s) && Fresh(t, s)
    ensures Fresh(AfterCommit(t, xid).0, PlainStep(s, Commit(xid)).0)
  {
    RefinesFacts(t, s, xid);
    FreshFacts(t, s, xid);
    NoClash(t, s, xid);
    UnknownColumns(t.index, Of(t.tempIndex, xid), Of(t.deleteMark, xid));
    OfMine(t, xid);
    FlatNothing();
    hide Flat, Of, Work, Fresh, Lapsed, Refines, RefinesFor, Known, PlainOk, Clashes, Unregistered, UnknownMarks;
    OfFacts(t.deleteMark, xid, map[]);
    LapsedFacts(s.deleted, xid);
    FreshAfter(t, s, AfterCommit(t, xid).0, PlainStep(s, Commit(xid)).0, xid);
  }

  lemma FreshRollback(t: Index, s: Plain, xid: int)
    requires Refines(t, s) && Fresh(t, s)
    ensures Fresh(AfterRollback(t, xid), PlainStep(s, Rollback(xid)).0)
  {
    RefinesFacts(t, s, xid);
    FreshFacts(t, s, xid);
    OfMine(t, xid);
    FlatNothing();
    hide Flat, Of, Work, Fresh, Refines, RefinesFor, Known;
    MapFacts(t.deleteMark, s.deleted, xid, map[], {});
    FreshAfter(t, s, AfterRollback(t, xid), PlainStep(s, Rollback(xid)).0, xid);
  }

  lemma FreshStays(t: Index, s: Plain, e: Event)
    requires Refines(t, s) && PlainOk(s) && Fresh(t, s) && Unshared(t, e)
    ensures Fresh(Step(t, e).0, PlainStep(s, e).0)
  {
    hide Refines, PlainOk, Fresh, Unshared, PlainStep, AfterInsert, AfterDelete, AfterCommit, AfterRollback;
    match e
    case Insert(xid, c, v) => FreshInsert(t, s, xid, c, v);
    case Delete(xid, c, v) => FreshDelete(t, s, xid, c, v);
    case Commit(xid) => FreshCommit(t, s, xid);
    case Rollback(xid) => FreshRollback(t, s, xid);
  }

  /** Then nothing can go wrong. */
  lemma {:induction false} UnsharedIsRight(t: Index, s: Plain, events: seq<Event>, n: nat)
    requires Refines(t, s) && PlainOk(s) && Fresh(t, s) && n <= |events| && AllUnshared(t, events, n)
    ensures AllRight(t, s, events, n)
    decreases |events| - n
  {
    hide Refines, PlainOk, Fresh, Step, PlainStep, Right, Unshared;
    if n < |events| {
      FreshIsRight(t, s, events[n]);
      StepRefines(t, s, events[n]);
      FreshStays(t, s, events[n]);
      UnsharedIsRight(Step(t, events[n]).0, PlainStep(s, events[n]).0, events, n + 1);
    }
  }

  /** A new index that knows a table's unique columns. */
  function Registry(columns: set<string>): Index {
    Index(map c | c in columns :: {}, map[], map[])
  }

  /** If two transactions marked the same committed key, the second one's rollback
      brings back what the first one's commit deleted, and a third transaction that
      inserted the key in between can no longer commit. */
  lemma SharedDeletionBreaksCommit(t: Index, x: int, y: int, z: int, c: string, v: int)
    requires x in t.tempIndex && y in t.tempIndex && z !in t.tempIndex && x != y
    requires Has(t.index, c, v) && Marked(t, x, c, v) && Marked(t, y, c, v)
    requires AfterCommit(t, x).1.Done? && forall w | w in t.tempIndex :: !Has(t.tempIndex[w], c, v)
    ensures var afterX := AfterCommit(t, x).0;
            var (afterZ, o) := AfterInsert(afterX, z, c, v);
            o.Done? && AfterCommit(AfterRollback(afterZ, y), z).1.Conflict?
  {
    hide Flat;
    var afterX := AfterCommit(t, x).0;
    assert !Has(afterX.index, c, v) && afterX.deleteMark[y] == t.deleteMark[y];
    var afterZ := AfterInsert(afterX, z, c, v).0;
    var last := AfterRollback(afterZ, y);
    assert Has(last.index, c, v) && Has(last.tempIndex[z], c, v);
  }

  const ID := "id"

  lemma PlayOne(t: Index, events: seq<Event>, n: nat)
    requires n < |events|
    ensures var (after, o) := Step(t, events[n]);
            var (os, last) := Play(after, events, n + 1);
            Play(t, events, n) == ([o] + os, last)
  {
  }

  /** Key 5 is committed and both 2 and 3 have marked it. */
  function TwoMarks(): Index {
    Index(map[ID := {5}], map[2 := map[], 3 := map[]], map[2 := map[ID := {5}], 3 := map[ID := {5}]])
  }

  lemma ReachesTwoMarks()
    ensures var t1 := Step(Registry({ID}), Insert(1, ID, 5)).0;
            var t2 := Step(t1, Commit(1)).0;
            var t3 := Step(t2, Delete(2, ID, 5)).0;
            && Step(Registry({ID}), Insert(1, ID, 5)).1 == Step(t1, Commit(1)).1 == Done
            && Step(t2, Delete(2, ID, 5)).1 == Done
            && Step(t3, Delete(3, ID, 5)) == (TwoMarks(), Done)
  {
    var t0 := Registry({ID});
    assert t0 == Index(map[ID := {}], map[], map[]);
    var t1 := Step(t0, Insert(1, ID, 5)).0;
    assert Column(map[], ID) + {5} == {5};
    assert t1 == Index(map[ID := {}], map[1 := map[ID := {5}]], map[]);
    var t2 := Step(t1, Commit(1)).0;
    assert Minus(Union(t1.index, t1.tempIndex[1]), map[]) == map[ID := {5}];
    assert t2 == Index(map[ID := {5}], map[], map[]);
    var t3 := Step(t2, Delete(2, ID, 5)).0;
    assert t3 == Index(map[ID := {5}], map[2 := map[]], map[2 := map[ID := {5}]]);
    assert Step(t3, Delete(3, ID, 5)).0 == TwoMarks();
  }

  lemma FromTwoMarks()
    ensures var t5 := Step(TwoMarks(), Commit(2)).0;
            var t6 := Step(t5, Insert(4, ID, 5)).0;
            var t7 := Step(t6, Rollback(3)).0;
            && Step(TwoMarks(), Commit(2)).1 == Step(t5, Insert(4, ID, 5)).1 == Step(t6, Rollback(3)).1 == Done
            && Step(t7, Commit(4)).1 == Conflict
  {
    var t4 := TwoMarks();
    assert AfterCommit(t4, 2).1.Done?;
    SharedDeletionBreaksCommit(t4, 2, 3, 4, ID, 5);
  }

  /** A run in which that happens: the last commit fails although every insertion and
      deletion was accepted. */
  lemma SharedDeletionRun()
    ensures var events := [Insert(1, ID, 5), Commit(1), Delete(2, ID, 5), Delete(3, ID, 5),
                           Commit(2), Insert(4, ID, 5), Rollback(3), Commit(4)];
            Play(Registry({ID}), events, 0).0 == [Done, Done, Done, Done, Done, Done, Done, Conflict]
  {
    hide Play, Step, TwoMarks, Registry;
    ReachesTwoMarks();
    FromTwoMarks();
    var t4 := TwoMarks();
    var events := [Insert(1, ID, 5), Commit(1), Delete(2, ID, 5), Delete(3, ID, 5),
                   Commit(2), Insert(4, ID, 5), Rollback(3), Commit(4)];
    var t0 := Registry({ID});
    PlayOne(t0, events, 0);
    var t1 := Step(t0, events[0]).0;
    PlayOne(t1, events, 1);
    var t2 := Step(t1, events[1]).0;
    PlayOne(t2, events, 2);
    var t3 := Step(t2, events[2]).0;
    PlayOne(t3, events, 3);
    PlayOne(t4, events, 4);
    var t5 := Step(t4, events[4]).0;
    PlayOne(t5, events, 5);
    var t6 := Step(t5, events[5]).0;
    PlayOne(t6, events, 6);
    var t7 := Step(t6, events[6]).0;
    PlayOne(t7, events, 7);
    PlayEnds(Step(t7, events[7]).0, events);
  }

  lemma PlayEnds(t: Index, events: seq<Event>)
    ensures Play(t, events, |events|) == ([], t)
  {
  }

  /** The other way to fail: 3's mark outlives 2's commit, and 3's commit takes away the
      key that 4 has inserted and committed. No step complains, but a sixth transaction
      can now insert the key, which the plain set refuses. */
  lemma StaleMarkRun()
    ensures var events := [Insert(1, ID, 5), Commit(1), Delete(2, ID, 5), Delete(3, ID, 5),
                           Commit(2), Insert(4, ID, 5), Commit(4), Commit(3), Insert(6, ID, 5)];
            && Play(Registry({ID}), events, 0).0 == [Done, Done, Done, Done, Done, Done, Done, Done, Done]
            && PlainPlay(NOTHING, events, 0).0 == [Done, Done, Done, Done, Done, Done, Done, Done, Violation]
  {
    hide Play, PlainPlay, Step, PlainStep, TwoMarks, StaleMark, StaleCommitted, Registry;
    ReachesTwoMarks();
    ReachesStaleMark();
    StaleCommits();
    StaleMarkTakesAway();
    var events := [Insert(1, ID, 5), Commit(1), Delete(2, ID, 5), Delete(3, ID, 5),
                   Commit(2), Insert(4, ID, 5), Commit(4), Commit(3), Insert(6, ID, 5)];
    StalePlain(events);
    var t0 := Registry({ID});
    PlayOne(t0, events, 0);
    var t1 := Step(t0, events[0]).0;
    PlayOne(t1, events, 1);
    var t2 := Step(t1, events[1]).0;
    PlayOne(t2, events, 2);
    var t3 := Step(t2, events[2]).0;
    PlayOne(t3, events, 3);
    var t4 := TwoMarks();
    PlayOne(t4, events, 4);
    var t5 := Step(t4, events[4]).0;
    PlayOne(t5, events, 5);
    var t6 := StaleMark();
    PlayOne(t6, events, 6);
    var t7 := StaleCommitted();
    PlayOne(t7, events, 7);
    var t8 := Step(t7, events[7]).0;
    PlayOne(t8, events, 8);
    PlayEnds(Step(t8, events[8]).0, events);
  }

  /** 3 still has its mark, and 4 has inserted the key again. */
  function StaleMark(): Index {
    Index(map[ID := {}], map[3 := map[], 4 := map[ID := {5}]], map[3 := map[ID := {5}]])
  }

  lemma ReachesStaleMark()
    ensures var t5 := Step(TwoMarks(), Commit(2)).0;
            Step(TwoMarks(), Commit(2)).1 == Done && Step(t5, Insert(4, ID, 5)) == (StaleMark(), Done)
  {
    var t4 := TwoMarks();
    var t5 := Step(t4, Commit(2)).0;
    assert Minus(Union(t4.index, map[]), t4.deleteMark[2]) == map[ID := {}];
    assert t5 == Index(map[ID := {}], map[3 := map[]], map[3 := map[ID := {5}]]);
    var t6 := Step(t5, Insert(4, ID, 5)).0;
    assert Column(map[], ID) + {5} == {5};
    assert t6.tempIndex == map[3 := map[], 4 := map[ID := {5}]];
    assert Registered(t5.index, ID) == map[ID := {}];
  }

  /** 4's key is committed, and 3 still has its mark. */
  function StaleCommitted(): Index {
    Index(map[ID := {5}], map[3 := map[]], map[3 := map[ID := {5}]])
  }

  lemma StaleCommits()
    ensures Step(StaleMark(), Commit(4)) == (StaleCommitted(), Done)
  {
    var t6 := StaleMark();
    assert Minus(Union(t6.index, t6.tempIndex[4]), map[]) == map[ID := {5}];
    assert t6.tempIndex - {4} == map[3 := map[]] && t6.deleteMark - {4} == t6.deleteMark;
  }

  lemma StaleMarkTakesAway()
    ensures var t8 := Step(StaleCommitted(), Commit(3)).0;
            Step(StaleCommitted(), Commit(3)).1 == Step(t8, Insert(6, ID, 5)).1 == Done
  {
    var t7 := StaleCommitted();
    var t8 := Step(t7, Commit(3)).0;
    assert Minus(Union(t7.index, map[]), t7.deleteMark[3]) == map[ID := {}];
    assert t8 == Index(map[ID := {}], map[], map[]);
  }

  lemma StalePlain(events: seq<Event>)
    requires events == [Insert(1, ID, 5), Commit(1), Delete(2, ID, 5), Delete(3, ID, 5),
                        Commit(2), Insert(4, ID, 5), Commit(4), Commit(3), Insert(6, ID, 5)]
    ensures PlainPlay(NOTHING, events, 0).0 == [Done, Done, Done, Done, Done, Done, Done, Done, Violation]
  {
    hide PlainPlay;
    var k := (ID, 5);
    var s0 := NOTHING;
    PlainOne(s0, events, 0);
    var s1 := PlainStep(s0, events[0]).0;
    assert Work(map[], 1) + {k} == {k};
    assert s1 == Plain({}, map[1 := {k}], map[]);
    PlainOne(s1, events, 1);
    var s2 := PlainStep(s1, events[1]).0;
    assert s2 == Plain({k}, map[], map[]);
    PlainOne(s2, events, 2);
    var s3 := PlainStep(s2, events[2]).0;
    assert s3 == Plain({k}, map[], map[2 := {k}]);
    PlainOne(s3, events, 3);
    var s4 := PlainStep(s3, events[3]).0;
    assert s4 == Plain({k}, map[], map[2 := {k}, 3 := {k}]);
    StalePlainOn(s4, events);
  }

  lemma StalePlainOn(s4: Plain, events: seq<Event>)
    requires |events| == 9 && events[4..] == [Commit(2), Insert(4, ID, 5), Commit(4), Commit(3), Insert(6, ID, 5)]
    requires s4 == Plain({(ID, 5)}, map[], map[2 := {(ID, 5)}, 3 := {(ID, 5)}])
    ensures PlainPlay(s4, events, 4).0 == [Done, Done, Done, Done, Violation]
  {
    hide PlainPlay;
    var k := (ID, 5);
    assert forall i | 4 <= i < 9 :: events[i] == events[4..][i - 4];
    PlainOne(s4, events, 4);
    var s5 := PlainStep(s4, events[4]).0;
    assert ({k} + {}) - {k} == {} && {k} - {k} == {};
    assert Lapsed(s4.deleted, 2).Keys == {3} && Lapsed(s4.deleted, 2)[3] == {};
    assert s5 == Plain({}, map[], map[3 := {}]);
    PlainOne(s5, events, 5);
    var s6 := PlainStep(s5, events[5]).0;
    assert Work(map[], 4) + {k} == {k};
    assert s6 == Plain({}, map[4 := {k}], map[3 := {}]);
    PlainOne(s6, events, 6);
    var s7 := PlainStep(s6, events[6]).0;
    assert ({} + {k}) - {} == {k};
    assert Lapsed(s6.deleted, 4).Keys == {3} && Lapsed(s6.deleted, 4)[3] == {};
    assert s7 == Plain({k}, map[], map[3 := {}]);
    PlainOne(s7, events, 7);
    var s8 := PlainStep(s7, events[7]).0;
    assert s8 == Plain({k}, map[], map[]);
    PlainOne(s8, events, 8);
    PlainEnds(PlainStep(s8, events[8]).0, events);
  }

  lemma PlainOne(s: Plain, events: seq<Event>, n: nat)
    requires n < |events|
    ensures var (after, o) := PlainStep(s, events[n]);
            var (os, last) := PlainPlay(after, events, n + 1);
            PlainPlay(s, events, n) == ([o] + os, last)
  {
  }

  lemma PlainEnds(s: Plain, events: seq<Event>)
    ensures PlainPlay(s, events, |events|) == ([], s)
  {
  }
}
