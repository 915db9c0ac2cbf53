/** The unique index as an object: three maps of sets changed column by column. */
module UniqueIndexObject {
  import opened FiniteSets
  import opened UniqueIndexes

  function Restrict(m: Columns, cs: set<string>): Columns {
    map c | c in m && c in cs :: m[c]
  }

  lemma SameColumns(a: Columns, b: Columns)
    requires a.Keys == b.Keys && forall c | c in a :: Column(a, c) == Column(b, c)
    ensures a == b
  {
    assert forall c | c in a :: Column(a, c) == a[c] && Column(b, c) == b[c];
  }

  lemma RestrictAll(m: Columns)
    ensures Restrict(m, m.Keys) == m
  {
  }

  lemma UnionMore(m: Columns, p: Columns, cs: set<string>, c: string)
    requires c in p
    ensures var before := Union(m, Restrict(p, cs));
            Union(m, Restrict(p, cs + {c})) == before[c := Column(before, c) + p[c]]
  {
    var before := Union(m, Restrict(p, cs));
    var after := before[c := Column(before, c) + p[c]];
    forall k | k in after ensures Column(Union(m, Restrict(p, cs + {c})), k) == Column(after, k) {
      if k == c {
        assert Column(Restrict(p, cs), c) + p[c] == p[c] == Column(Restrict(p, cs + {c}), c);
      } else {
        assert Column(Restrict(p, cs), k) == Column(Restrict(p, cs + {c}), k);
      }
    }
    SameColumns(Union(m, Restrict(p, cs + {c})), after);
  }

  lemma MinusMore(m: Columns, d: Columns, cs: set<string>, c: string)
    requires c in d && c in m
    ensures var before := Minus(m, Restrict(d, cs));
            Minus(m, Restrict(d, cs + {c})) == before[c := Column(before, c) - d[c]]
  {
    var before := Minus(m, Restrict(d, cs));
    var after := before[c := Column(before, c) - d[c]];
    forall k | k in after ensures Column(Minus(m, Restrict(d, cs + {c})), k) == Column(after, k) {
      if k == c {
        assert Column(Restrict(d, cs + {c}), c) == d[c];
        assert Column(before, c) - d[c] == m[c] - d[c];
      } else {
        assert Column(Restrict(d, cs), k) == Column(Restrict(d, cs + {c}), k);
      }
    }
    SameColumns(Minus(m, Restrict(d, cs + {c})), after);
  }

  lemma NothingYet(m: Columns, p: Columns)
    ensures Union(m, Restrict(p, {})) == m && Minus(m, Restrict(p, {})) == m
  {
    assert Restrict(p, {}) == map[];
    forall c | c in m ensures Column(Union(m, map[]), c) == Column(m, c) && Column(Minus(m, map[]), c) == Column(m, c) {
      assert m[c] + {} == m[c] && m[c] - {} == m[c];
    }
    SameColumns(Union(m, map[]), m);
    SameColumns(Minus(m, map[]), m);
  }

  class UniqueIndex {
    var index: Columns
    var tempIndex: map<int, Columns>
    var deleteMark: map<int, Columns>
    ghost var plain: Plain

    ghost function View(): Index
      reads `index, `tempIndex, `deleteMark
    {
      Index(index, tempIndex, deleteMark)
    }

    ghost predicate Valid()
      reads `index, `tempIndex, `deleteMark
    {
      Known(View())
    }

    /** The maps hold the keys of the plain set. */
    ghost predicate InStep()
      reads this
    {
      Refines(View(), plain) && PlainOk(plain)
    }

    constructor (columns: set<string>)
      ensures Valid() && InStep() && View() == Registry(columns) && plain == NOTHING
    {
      index, tempIndex, deleteMark, plain := Registry(columns).index, map[], map[], NOTHING;
      new;
      RegistryRefines(columns);
    }

    method TakenElsewhere(column: string, data: int, xid: int) returns (taken: bool)
      ensures taken == TakenByOther(View(), xid, column, data)
    {
      var rest := tempIndex.Keys;
      while rest != {}
        invariant rest <= tempIndex.Keys
        invariant forall y | y in tempIndex.Keys - rest && y != xid :: !Has(tempIndex[y], column, data)
        decreases rest
      {
        ghost var some := SomeElement(rest);
        var other: int :| other in rest;
        if other != xid && data in Column(tempIndex[other], column) {
          return true;
        }
        rest := rest - {other};
      }
      taken := false;
    }

    static lemma InsertIs(t: Index, xid: int, c: string, v: int)
      ensures var mine := Of(t.tempIndex, xid);
              var index, temp := Registered(t.index, c), t.tempIndex[xid := Registered(mine, c)];
              && c in index && c in temp[xid]
              && AfterInsert(t, xid, c, v) ==
                 if TakenByOther(t, xid, c, v) || v in index[c] || v in temp[xid][c] then
                   (t.(index := index, tempIndex := temp), Violation)
                 else (t.(index := index, tempIndex := t.tempIndex[xid := Added(mine, c, v)]), Done)
    {
    }

    static lemma PlainInsert(s: Plain, xid: int, c: string, v: int)
      ensures var (after, o) := PlainStep(s, Event.Insert(xid, c, v));
              if InUse(s, (c, v)) then after == s && o == Violation
              else o == Done && after == s.(inserted := s.inserted[xid := Work(s.inserted, xid) + {(c, v)}])
    {
    }

    static lemma PlainDelete(s: Plain, xid: int, c: string, v: int)
      ensures var (after, o) := PlainStep(s, Event.Delete(xid, c, v));
              after.committed == s.committed && (o == Done <==> (c, v) in s.committed || (c, v) in Work(s.inserted, xid))
    {
    }

    static lemma StillTaken(was: Index, now: Index, xid: int, column: string, data: int)
      requires now.tempIndex.Keys == was.tempIndex.Keys + {xid}
      requires forall y | y in was.tempIndex && y != xid :: now.tempIndex[y] == was.tempIndex[y]
      ensures TakenByOther(was, xid, column, data) == TakenByOther(now, xid, column, data)
    {
    }

    method Insert(column: string, data: int, xid: int) returns (o: Outcome)
      requires Valid()
      modifies this
      ensures Valid() && (View(), o) == Step(old(View()), Event.Insert(xid, column, data))
      ensures old(InStep()) ==> InStep() && (plain, o) == PlainStep(old(plain), Event.Insert(xid, column, data))
      ensures old(InStep()) ==> (o.Done? <==> !InUse(old(plain), (column, data)))
      ensures old(InStep()) && o.Done? ==>
                plain == old(plain).(inserted := old(plain).inserted[xid := Work(old(plain).inserted, xid) + {(column, data)}])
      ensures old(InStep()) && !o.Done? ==> plain == old(plain)
    {
      hide Refines, PlainOk, TakenByOther, Known, PlainStep, InUse, AfterInsert, Of, Registered, Added;
      InsertIs(View(), xid, column, data);
      PlainInsert(plain, xid, column, data);
      ghost var was := View();
      KnownStays(was, Event.Insert(xid, column, data));
      if Refines(was, plain) && PlainOk(plain) {
        StepRefines(was, plain, Event.Insert(xid, column, data));
      }
      plain := PlainStep(plain, Event.Insert(xid, column, data)).0;
      var mine := Of(tempIndex, xid);
      index := Registered(index, column);
      tempIndex := tempIndex[xid := Registered(mine, column)];
      var taken := TakenElsewhere(column, data, xid);
      assert taken == TakenByOther(was, xid, column, data) by { StillTaken(was, View(), xid, column, data); }
      if taken {
        return Violation;
      }
      if data in index[column] || data in tempIndex[xid][column] {
        return Violation;
      }
      var added := Added(mine, column, data);
      SetTwice(old(tempIndex), xid, Registered(mine, column), added);
      tempIndex := tempIndex[xid := added];
      o := Done;
    }

    /** Deletes as the plain set does, whoever else has marked the value. */
    method Delete(column: string, data: int, xid: int) returns (o: Outcome)
      requires Valid()
      modifies this
      ensures Valid() && (View(), o) == Step(old(View()), Event.Delete(xid, column, data))
      ensures old(InStep()) ==> InStep() && (plain, o) == PlainStep(old(plain), Event.Delete(xid, column, data))
      ensures old(InStep()) ==>
                (o.Done? <==> (column, data) in old(plain).committed || (column, data) in Work(old(plain).inserted, xid))
      ensures old(InStep()) ==> plain.committed == old(plain).committed
    {
      hide Refines, PlainOk, Known, PlainStep, Registered, Added, Dropped, AfterDelete, Of;
      PlainDelete(plain, xid, column, data);
      DeleteIs(View(), xid, column, data);
      KnownStays(View(), Event.Delete(xid, column, data));
      if Refines(View(), plain) && PlainOk(plain) {
        StepRefines(View(), plain, Event.Delete(xid, column, data));
      }
      plain := PlainStep(plain, Event.Delete(xid, column, data)).0;
      var mine, marks := Of(tempIndex, xid), Of(deleteMark, xid);
      tempIndex := tempIndex[xid := mine];
      deleteMark := deleteMark[xid := Registered(marks, column)];
      if column in index && data in index[column] {
        var added := Added(marks, column, data);
        SetTwice(old(deleteMark), xid, Registered(marks, column), added);
        deleteMark := deleteMark[xid := added];
        return Done;
      }
      if column in mine && data in mine[column] {
        var dropped := Dropped(mine, column, data);
        SetTwice(old(tempIndex), xid, mine, dropped);
        tempIndex := tempIndex[xid := dropped];
        return Done;
      }
      o := NotFound;
    }

    static lemma SetTwice(m: map<int, Columns>, xid: int, a: Columns, b: Columns)
      ensures m[xid := a][xid := b] == m[xid := b]
    {
    }

    static lemma DeleteIs(t: Index, xid: int, column: string, data: int)
      ensures var mine, marks := Of(t.tempIndex, xid), Of(t.deleteMark, xid);
              AfterDelete(t, xid, column, data) ==
              if column in t.index && data in t.index[column] then
                (Index(t.index, t.tempIndex[xid := mine], t.deleteMark[xid := Added(marks, column, data)]), Done)
              else if column in mine && data in mine[column] then
                (Index(t.index, t.tempIndex[xid := Dropped(mine, column, data)], t.deleteMark[xid := Registered(marks, column)]), Done)
              else
                (Index(t.index, t.tempIndex[xid := mine], t.deleteMark[xid := Registered(marks, column)]), NotFound)
    {
    }

    /** Some of the marked columns have been gone through. */
    static ghost predicate PartlyDropped(before: Columns, d: Columns, after: Columns) {
      exists cs :: cs <= d.Keys && after == Minus(before, Restrict(d, cs))
    }

    /** Publishes a transaction's values. From a state in step with the plain set it goes
        as on the plain set exactly when that is right. Marks in a column that the index
        does not know end it halfway. */
    method Commit(xid: int) returns (o: Outcome)
      requires Valid()
      modifies this
      ensures Valid() && o == Step(old(View()), Event.Commit(xid)).1
      ensures !o.NullColumn? ==> View() == Step(old(View()), Event.Commit(xid)).0
      ensures o.NullColumn? ==>
                && tempIndex == old(tempIndex) && deleteMark == old(deleteMark) && xid in tempIndex
                && PartlyDropped(Union(old(index), tempIndex[xid]), Of(deleteMark, xid), index)
      ensures plain == PlainStep(old(plain), Event.Commit(xid)).0
      ensures plain.committed == (old(plain).committed + Work(old(plain).inserted, xid)) - Work(old(plain).deleted, xid)
      ensures old(InStep()) ==> !o.Conflict? && (o.Done? && InStep() <==> old(Right(View(), plain, Event.Commit(xid))))
    {
      hide Refines, PlainOk, Union, Minus, Clashes, Unregistered, UnknownMarks, Right, Known;
      ghost var was := View();
      KnownStays(was, Event.Commit(xid));
      if Refines(was, plain) && PlainOk(plain) {
        StepRefines(was, plain, Event.Commit(xid));
        CommitRefines(was, plain, xid);
      }
      plain := PlainStep(plain, Event.Commit(xid)).0;
      if xid !in tempIndex {
        return Done;
      }
      var p, d := tempIndex[xid], Of(deleteMark, xid);
      PendingIsKnown(was, xid);
      var clash := FindsConflict(p);
      if clash {
        return Conflict;
      }
      MergeColumns(p);
      MarksAreKnown(was.index, p, d);
      var dropped := DropColumns(d);
      if !dropped {
        KnownHalfway(was, xid, index);
        return NullColumn;
      }
      tempIndex := tempIndex - {xid};
      deleteMark := deleteMark - {xid};
      o := Done;
    }

    static lemma PendingIsKnown(t: Index, xid: int)
      requires Known(t) && xid in t.tempIndex
      ensures t.tempIndex[xid].Keys <= t.index.Keys && !Unregistered(t.index, t.tempIndex[xid])
    {
      assert Of(t.tempIndex, xid).Keys <= t.index.Keys;
    }

    static lemma MarksAreKnown(m: Columns, p: Columns, d: Columns)
      ensures !UnknownMarks(m, p, d) <==> d.Keys <= Union(m, p).Keys
    {
    }

    static lemma KnownHalfway(t: Index, xid: int, after: Columns)
      requires Known(t) && xid in t.tempIndex && after.Keys == Union(t.index, t.tempIndex[xid]).Keys
      ensures Known(t.(index := after))
    {
      forall x ensures Of(t.tempIndex, x).Keys <= after.Keys {
        assert Of(t.tempIndex, x).Keys <= t.index.Keys;
      }
    }

    method FindsConflict(p: Columns) returns (clash: bool)
      requires p.Keys <= index.Keys
      ensures clash == Clashes(index, p)
    {
      var rest := p.Keys;
      while rest != {}
        invariant rest <= p.Keys && forall c, v | c in p.Keys - rest && v in p[c] :: !Has(index, c, v)
        decreases rest
      {
        ghost var some := SomeElement(rest);
        var column: string :| column in rest;
        if exists v :: v in p[column] && v in index[column] {
          return true;
        }
        rest := rest - {column};
      }
      clash := false;
    }

    method MergeColumns(p: Columns)
      modifies `index
      ensures index == Union(old(index), p)
    {
      hide Union, Restrict;
      var rest := p.Keys;
      assert p.Keys - rest == {};
      NothingYet(index, p);
      while rest != {}
        invariant rest <= p.Keys && index == Union(old(index), Restrict(p, p.Keys - rest))
        decreases rest
      {
        ghost var some := SomeElement(rest);
        var column: string :| column in rest;
        UnionMore(old(index), p, p.Keys - rest, column);
        assert p.Keys - (rest - {column}) == (p.Keys - rest) + {column};
        index := index[column := Column(index, column) + p[column]];
        rest := rest - {column};
      }
      RestrictAll(p);
      assert p.Keys - {} == p.Keys;
    }

    /** Removes marked values, column by column, up to a column that is not there. */
    method DropColumns(d: Columns) returns (ok: bool)
      modifies `index
      ensures ok <==> d.Keys <= old(index).Keys
      ensures ok ==> index == Minus(old(index), d)
      ensures !ok ==> PartlyDropped(old(index), d, index)
      ensures index.Keys == old(index).Keys
    {
      hide Minus, Restrict;
      var rest := d.Keys;
      assert d.Keys - rest == {};
      NothingYet(index, d);
      while rest != {}
        invariant rest <= d.Keys && index == Minus(old(index), Restrict(d, d.Keys - rest))
        invariant d.Keys - rest <= old(index).Keys && index.Keys == old(index).Keys
        modifies `index
        decreases rest
      {
        ghost var some := SomeElement(rest);
        var column: string :| column in rest;
        if column !in index {
          assert d.Keys - rest <= d.Keys;
          return false;
        }
        MinusMore(old(index), d, d.Keys - rest, column);
        assert d.Keys - (rest - {column}) == (d.Keys - rest) + {column};
        index := index[column := Column(index, column) - d[column]];
        rest := rest - {column};
      }
      RestrictAll(d);
      assert d.Keys - {} == d.Keys;
      ok := true;
    }

    /** Gives up a transaction's values. From a state in step with the plain set it
        leaves the committed ones as they were exactly when all marked values are still
        committed. */
    method Rollback(xid: int)
      requires Valid()
      modifies this
      ensures Valid() && (View(), Done) == Step(old(View()), Event.Rollback(xid))
      ensures plain == PlainStep(old(plain), Event.Rollback(xid)).0 && plain.committed == old(plain).committed
      ensures old(InStep()) ==> (InStep() <==> old(Right(View(), plain, Event.Rollback(xid))))
    {
      hide Refines, PlainOk, Union, Restrict, Flat, Right, Known;
      ghost var was := View();
      KnownStays(was, Event.Rollback(xid));
      if Refines(was, plain) && PlainOk(plain) {
        StepRefines(was, plain, Event.Rollback(xid));
      }
      plain := PlainStep(plain, Event.Rollback(xid)).0;
      if xid !in tempIndex {
        return;
      }
      tempIndex := tempIndex - {xid};
      var d := Of(deleteMark, xid);
      var rest := d.Keys;
      assert d.Keys - rest == {};
      NothingYet(was.index, d);
      while rest != {}
        invariant rest <= d.Keys && index == Union(was.index, Restrict(d, d.Keys - rest))
        modifies `index
        decreases rest
      {
        ghost var some := SomeElement(rest);
        var column: string :| column in rest;
        UnionMore(was.index, d, d.Keys - rest, column);
        assert d.Keys - (rest - {column}) == (d.Keys - rest) + {column};
        RestoreColumn(column, d[column]);
        rest := rest - {column};
      }
      RestrictAll(d);
      assert d.Keys - {} == d.Keys;
      deleteMark := deleteMark - {xid};
    }

    method RestoreColumn(column: string, marked: set<int>)
      modifies `index
      ensures index == old(index)[column := Column(old(index), column) + marked]
    {
      index := Registered(index, column);
      var rest := marked;
      assert marked - rest == {} && Column(old(index), column) + {} == Column(old(index), column);
      while rest != {}
        invariant rest <= marked && index == old(index)[column := Column(old(index), column) + (marked - rest)]
        modifies `index
        decreases rest
      {
        ghost var some := SomeElement(rest);
        var data: int :| data in rest;
        assert (Column(old(index), column) + (marked - rest)) + {data} == Column(old(index), column) + (marked - (rest - {data}));
        index := index[column := index[column] + {data}];
        rest := rest - {data};
      }
      assert marked - {} == marked;
    }

    /** A value is found exactly when it is committed. */
    method Search(column: string, data: int) returns (found: bool)
      requires InStep()
      ensures found <==> (column, data) in plain.committed
    {
      FlatHas(index, column, data);
      if column !in index {
        return false;
      }
      found := data in index[column];
    }
  }
}
