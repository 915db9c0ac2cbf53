/** Where clauses answered through indexes, against checking every row. */
module QueryPlan {
  import opened Bytes
  import opened BLinkNode
  import opened BPlusTreeIndex
  import TREE = BLinkTree

  datatype Value = IntValue(i: int) | StringValue(s: string)
  datatype CompareOp = Eq | Gt | Lt | Ge | Le | Ne | Like
  datatype Expression = Expression(field: string, op: CompareOp, value: Value)
  datatype LogicOp = And | Or
  datatype Where = All | One(exp: Expression) | Two(exp1: Expression, exp2: Expression, logicOp: LogicOp)

  type Row = map<string, Value>

  const INT_MAX := 0x7fff_ffff

  /** String.compareTo */
  function CompareStrings(a: string, b: string): int {
    if a == [] || b == [] then |a| - |b|
    else if a[0] != b[0] then a[0] as int - b[0] as int
    else CompareStrings(a[1..], b[1..])
  }

  /** The order of strings: a proper prefix comes first, and else the string with the
      smaller character where they first differ. */
  ghost predicate Precedes(a: string, b: string) {
    a < b || exists i: nat :: DiffersAt(a, b, i)
  }

  ghost predicate DiffersAt(a: string, b: string, i: nat) {
    i < |a| && i < |b| && a[..i] == b[..i] && a[i] < b[i]
  }

  lemma {:induction false} ComparesFirstDifference(p: string, c: char, s: string, d: char, t: string)
    requires c != d
    ensures CompareStrings(p + [c] + s, p + [d] + t) == c as int - d as int
  {
    if p != [] {
      assert (p + [c] + s)[1..] == p[1..] + [c] + s && (p + [d] + t)[1..] == p[1..] + [d] + t;
      ComparesFirstDifference(p[1..], c, s, d, t);
    }
  }

  lemma {:induction false} ComparesPrefix(p: string, s: string)
    ensures CompareStrings(p, p + s) == -|s| && CompareStrings(p + s, p) == |s|
  {
    if p != [] {
      assert (p + s)[1..] == p[1..] + s;
      ComparesPrefix(p[1..], s);
    } else {
      assert p + s == s;
    }
  }

  /** Comparing turns its sign round with its arguments. */
  lemma {:induction false} ComparesBack(a: string, b: string)
    ensures CompareStrings(a, b) == -CompareStrings(b, a)
  {
    if a != [] && b != [] && a[0] == b[0] {
      ComparesBack(a[1..], b[1..]);
    }
  }

  lemma {:induction false} FirstDifference(a: string, b: string) returns (i: nat)
    ensures i <= |a| && i <= |b| && a[..i] == b[..i]
    ensures i < |a| && i < |b| ==> a[i] != b[i]
  {
    i := 0;
    while i < |a| && i < |b| && a[i] == b[i]
      invariant i <= |a| && i <= |b| && a[..i] == b[..i]
    {
      assert a[..i + 1] == a[..i] + [a[i]] && b[..i + 1] == b[..i] + [b[i]];
      i := i + 1;
    }
  }

  /** The comparison is that order. */
  lemma ComparesOrder(a: string, b: string)
    ensures CompareStrings(a, b) < 0 <==> Precedes(a, b)
    ensures CompareStrings(a, b) == 0 <==> a == b
    ensures CompareStrings(a, b) > 0 <==> Precedes(b, a)
  {
    hide CompareStrings;
    var i := FirstDifference(a, b);
    ComparesBack(a, b);
    if i < |a| && i < |b| {
      assert a == a[..i] + [a[i]] + a[i + 1..] && b == a[..i] + [b[i]] + b[i + 1..];
      ComparesFirstDifference(a[..i], a[i], a[i + 1..], b[i], b[i + 1..]);
      OneDiffers(a, b, i);
    } else if i == |a| {
      assert b == a + b[i..];
      ComparesPrefix(a, b[i..]);
      PrefixPrecedes(a, b[i..]);
    } else {
      assert a == b + a[i..];
      ComparesPrefix(b, a[i..]);
      PrefixPrecedes(b, a[i..]);
    }
  }

  lemma OneDiffers(a: string, b: string, i: nat)
    requires i < |a| && i < |b| && a[..i] == b[..i] && a[i] != b[i]
    ensures Precedes(a, b) <==> a[i] < b[i]
    ensures Precedes(b, a) <==> b[i] < a[i]
    ensures a != b
  {
    if a[i] < b[i] {
      assert DiffersAt(a, b, i);
      NotBoth(a, b, i);
    } else {
      assert DiffersAt(b, a, i);
      NotBoth(b, a, i);
    }
  }

  lemma NotBoth(a: string, b: string, i: nat)
    requires DiffersAt(a, b, i)
    ensures !Precedes(b, a)
  {
    forall j: nat ensures !DiffersAt(b, a, j) {
      if j < i && j < |a| && j < |b| {
        assert a[j] == a[..i][j] == b[..i][j] == b[j];
      } else if j > i && j < |a| && j < |b| {
        assert a[..j][i] == a[i] && b[..j][i] == b[i];
      }
    }
  }

  lemma PrefixPrecedes(a: string, s: string)
    ensures Precedes(a, a + s) <==> s != []
    ensures !Precedes(a + s, a)
  {
    assert s != [] ==> a < a + s;
    forall j: nat ensures !DiffersAt(a, a + s, j) && !DiffersAt(a + s, a, j) {
    }
    assert s == [] ==> a + s == a;
  }

  lemma OrderIsTransitive(a: string, b: string, c: string)
    requires Precedes(a, b) && Precedes(b, c)
    ensures Precedes(a, c)
  {
    if a < b && b < c {
      assert a < c;
    } else if a < b {
      var j: nat :| DiffersAt(b, c, j);
      if j < |a| {
        assert a[..j] == b[..j] && a[j] == b[j];
        assert DiffersAt(a, c, j);
      } else {
        assert a == b[..|a|] == b[..j][..|a|] == c[..j][..|a|] == c[..|a|];
        assert a < c;
      }
    } else {
      var i: nat :| DiffersAt(a, b, i);
      if b < c {
        assert c[..i] == b[..i] && c[i] == b[i];
        assert DiffersAt(a, c, i);
      } else {
        var j: nat :| DiffersAt(b, c, j);
        TwoDiffer(a, b, c, i, j);
      }
    }
  }

  lemma TwoDiffer(a: string, b: string, c: string, i: nat, j: nat)
    requires DiffersAt(a, b, i) && DiffersAt(b, c, j)
    ensures Precedes(a, c)
  {
    if i <= j {
      assert i < j ==> c[..j][..i] == b[..j][..i] && c[..j][i] == b[..j][i];
      assert c[..i] == b[..i];
      assert DiffersAt(a, c, i);
    } else {
      assert a[..i][..j] == b[..i][..j] && a[..i][j] == b[..i][j];
      assert DiffersAt(a, c, j);
    }
  }

  predicate StartsAt(s: string, part: string, i: nat) {
    i + |part| <= |s| && s[i..i + |part|] == part
  }

  predicate Contains(s: string, part: string) {
    exists i :: 0 <= i <= |s| && StartsAt(s, part, i)
  }

  /** A string contains another exactly when it is that one with something around it. */
  lemma ContainsAround(s: string, part: string)
    ensures Contains(s, part) <==> exists before: string, after: string :: s == before + part + after
  {
    if Contains(s, part) {
      var i :| 0 <= i <= |s| && StartsAt(s, part, i);
      assert s == s[..i] + part + s[i + |part|..];
    }
    if before: string, after: string :| s == before + part + after {
      assert s[|before|..|before| + |part|] == part;
      assert StartsAt(s, part, |before|);
    }
  }

  predicate Comparable(v: Value, w: Value) {
    v.IntValue? == w.IntValue?
  }

  function Compare(v: Value, w: Value): int
    requires Comparable(v, w)
  {
    if v.IntValue? then v.i - w.i else CompareStrings(v.s, w.s)
  }

  /** The constant has the column's type, and only strings are matched by "like". */
  predicate Typed(row: Row, e: Expression) {
    e.field in row && Comparable(row[e.field], e.value) && (e.op.Like? ==> e.value.StringValue?)
  }

  /** checkSingleCondition */
  predicate Holds(row: Row, e: Expression)
    requires Typed(row, e)
  {
    var v := row[e.field];
    match e.op
    case Eq => Compare(v, e.value) == 0
    case Gt => Compare(v, e.value) > 0
    case Lt => Compare(v, e.value) < 0
    case Ge => Compare(v, e.value) >= 0
    case Le => Compare(v, e.value) <= 0
    case Ne => Compare(v, e.value) != 0
    case Like => Contains(v.s, e.value.s)
  }

  /** What a condition says of a row's value: the order of integers or of strings, and
      "like" for strings that contain the constant. */
  lemma HoldsMeans(row: Row, e: Expression)
    requires Typed(row, e)
    ensures row[e.field].IntValue? ==>
              var x, y := row[e.field].i, e.value.i;
              match e.op
              case Eq => Holds(row, e) <==> x == y
              case Gt => Holds(row, e) <==> x > y
              case Lt => Holds(row, e) <==> x < y
              case Ge => Holds(row, e) <==> x >= y
              case Le => Holds(row, e) <==> x <= y
              case Ne => Holds(row, e) <==> x != y
              case Like => true
    ensures row[e.field].StringValue? ==>
              var x, y := row[e.field].s, e.value.s;
              match e.op
              case Eq => Holds(row, e) <==> x == y
              case Gt => Holds(row, e) <==> Precedes(y, x)
              case Lt => Holds(row, e) <==> Precedes(x, y)
              case Ge => Holds(row, e) <==> x == y || Precedes(y, x)
              case Le => Holds(row, e) <==> x == y || Precedes(x, y)
              case Ne => Holds(row, e) <==> x != y
              case Like => Holds(row, e) <==> exists before: string, after: string :: x == before + y + after
  {
    hide CompareStrings, Precedes, Contains;
    if row[e.field].StringValue? {
      ComparesOrder(row[e.field].s, e.value.s);
      ContainsAround(row[e.field].s, e.value.s);
    }
  }

  predicate TypedWhere(row: Row, w: Where) {
    match w
    case All => true
    case One(e) => Typed(row, e)
    case Two(e1, e2, _) => Typed(row, e1) && Typed(row, e2)
  }

  function Combine(op: LogicOp, a: bool, b: bool): bool {
    if op.And? then a && b else a || b
  }

  /** satisfiesCondition */
  predicate Satisfies(row: Row, w: Where)
    requires TypedWhere(row, w)
  {
    match w
    case All => true
    case One(e) => Holds(row, e)
    case Two(e1, e2, op) => Combine(op, Holds(row, e1), Holds(row, e2))
  }

  // Keys of an index.

  /** str2Uid: a rolling hash in 64 bits. */
  function Str2Uid(s: string): int {
    if s == [] then 0 else Wrap64(Str2Uid(s[..|s| - 1]) * 13331 + s[|s| - 1] as int)
  }

  lemma HashOfTwo(c: char, d: char)
    requires c < 128 as char && d < 128 as char
    ensures Str2Uid([c]) == c as int && Str2Uid([c, d]) == 13331 * c as int + d as int
  {
    assert [c][..0] == [] && [c, d][..1] == [c];
  }

  predicate Ascii(s: string) {
    forall i | 0 <= i < |s| :: s[i] < 128 as char
  }

  /** The greatest hash of n characters. */
  function Cap(n: nat): int {
    if n == 0 then 0 else Cap(n - 1) * 13331 + 127
  }

  /** Up to five characters nothing overflows. */
  lemma {:induction false} ShortHash(s: string)
    requires Ascii(s) && |s| <= 5
    ensures 0 <= Str2Uid(s) <= Cap(|s|)
    ensures s != [] ==> Str2Uid(s) == Str2Uid(s[..|s| - 1]) * 13331 + s[|s| - 1] as int
  {
    if s != [] {
      ShortHash(s[..|s| - 1]);
      assert Cap(1) == 127 && Cap(2) == 1693164 && Cap(3) == 22571569411;
      assert Cap(4) == 300901591818168 && Cap(5) == 4011319120527997735;
      assert Cap(|s| - 1) * 13331 + 127 <= 4011319120527997735;
    }
  }

  /** Short strings of the same length have different hashes. */
  lemma {:induction false} ShortHashesDiffer(a: string, b: string)
    requires Ascii(a) && Ascii(b) && |a| == |b| <= 5 && Str2Uid(a) == Str2Uid(b)
    ensures a == b
  {
    if a != [] {
      ShortHash(a);
      ShortHash(b);
      var x, y := a[..|a| - 1], b[..|b| - 1];
      hide Str2Uid;
      assert (Str2Uid(x) - Str2Uid(y)) * 13331 == b[|b| - 1] as int - a[|a| - 1] as int;
      ShortHashesDiffer(x, y);
      assert a == x + [a[|a| - 1]] && b == y + [b[|b| - 1]];
    }
  }

  method HashString(key: string) returns (res: int)
    ensures res == Str2Uid(key)
  {
    res := 0;
    var i := 0;
    while i < |key|
      invariant i <= |key| && res == Str2Uid(key[..i])
    {
      assert key[..i + 1][..i] == key[..i];
      res := Wrap64(res * 13331 + key[i] as int);
      i := i + 1;
    }
    assert key[..|key|] == key;
  }

  /** value2Uid */
  function Key(v: Value): int {
    if v.IntValue? then v.i else Str2Uid(v.s)
  }

  /** A long below the greatest one. */
  predicate KeyOk(v: Value) {
    TREE.NEG_INF < Key(v) < MAX_KEY
  }

  /** calExp: the bounds of the index search. Operators it does not know leave both
      bounds at 0. */
  function Bounds(e: Expression): (int, int) {
    var k := Key(e.value);
    match e.op
    case Lt => (0, if k > 0 then k - 1 else k)
    case Eq => (k, k)
    case Gt => (k + 1, MAX_KEY)
    case Ge => (0, 0)
    case Le => (0, 0)
    case Ne => (0, 0)
    case Like => (0, 0)
  }

  /** What an index search for the expression finds among rows with such a key. */
  predicate Found(key: int, e: Expression) {
    Bounds(e).0 <= key <= Bounds(e).1
  }

  /** The search finds a value that does not fulfil the condition. */
  predicate FalseHit(v: Value, e: Expression)
    requires Comparable(v, e.value) && (e.op.Like? ==> e.value.StringValue?)
  {
    match v
    case IntValue(i) =>
      (match e.op
       case Lt => i == 0 && e.value.i == 0
       case Ge => i == 0 && e.value.i > 0
       case Le => i == 0 && e.value.i < 0
       case Ne => i == 0 && e.value.i == 0
       case _ => false)
    case StringValue(s) =>
      var c := CompareStrings(s, e.value.s);
      (match e.op
       case Eq => Str2Uid(s) == Str2Uid(e.value.s) && c != 0
       case Lt => 0 <= Str2Uid(s) && (Str2Uid(s) < Str2Uid(e.value.s) || Str2Uid(s) == Str2Uid(e.value.s) == 0) && c >= 0
       case Gt => Str2Uid(s) > Str2Uid(e.value.s) && c <= 0
       case Ge => Str2Uid(s) == 0 && c < 0
       case Le => Str2Uid(s) == 0 && c > 0
       case Ne => Str2Uid(s) == 0 && c == 0
       case Like => Str2Uid(s) == 0 && !Contains(s, e.value.s))
  }

  /** The search does not find a value that fulfils the condition. */
  predicate FalseMiss(v: Value, e: Expression)
    requires Comparable(v, e.value) && (e.op.Like? ==> e.value.StringValue?)
  {
    match v
    case IntValue(i) =>
      (match e.op
       case Lt => i < 0 && i < e.value.i
       case Ge => i != 0 && i >= e.value.i
       case Le => i != 0 && i <= e.value.i
       case Ne => i != 0 && i != e.value.i
       case _ => false)
    case StringValue(s) =>
      var c := CompareStrings(s, e.value.s);
      (match e.op
       case Eq => Str2Uid(s) != Str2Uid(e.value.s) && c == 0
       case Lt => (Str2Uid(s) < 0 || Str2Uid(s) > Str2Uid(e.value.s) || Str2Uid(s) == Str2Uid(e.value.s) > 0) && c < 0
       case Gt => Str2Uid(s) <= Str2Uid(e.value.s) && c > 0
       case Ge => Str2Uid(s) != 0 && c >= 0
       case Le => Str2Uid(s) != 0 && c <= 0
       case Ne => Str2Uid(s) != 0 && c != 0
       case Like => Str2Uid(s) != 0 && Contains(s, e.value.s))
  }

  /** Exactly where an index search and the comparison of values part. On integers = and
      > never do, < does at 0 and below, and any other operator finds 0 alone. Strings
      are searched for by their hashes, whose order means nothing. */
  lemma FoundIsHolds(row: Row, e: Expression)
    requires Typed(row, e) && KeyOk(row[e.field])
    ensures Found(Key(row[e.field]), e) && !Holds(row, e) <==> FalseHit(row[e.field], e)
    ensures !Found(Key(row[e.field]), e) && Holds(row, e) <==> FalseMiss(row[e.field], e)
  {
    hide Str2Uid, CompareStrings, Contains;
  }

  /** Equal strings are found. */
  lemma {:induction false} ComparesEqual(a: string, b: string)
    ensures CompareStrings(a, b) == 0 <==> a == b
  {
    if a != [] && b != [] && a[0] == b[0] {
      ComparesEqual(a[1..], b[1..]);
      assert a == [a[0]] + a[1..] && b == [b[0]] + b[1..];
    }
  }

  /** So a search by = misses nothing, and finds too much exactly where hashes collide. */
  lemma EqualIsFound(row: Row, e: Expression)
    requires Typed(row, e) && e.op.Eq?
    ensures !FalseMiss(row[e.field], e)
    ensures FalseHit(row[e.field], e) <==> row[e.field] != e.value && Key(row[e.field]) == Key(e.value)
  {
    if e.value.StringValue? {
      ComparesEqual(row[e.field].s, e.value.s);
    }
  }

  // Plans.

  /** What the plan answers for one condition: `missed` says that the search passed
      over the row. */
  predicate PlanHolds(indexed: set<string>, row: Row, e: Expression, missed: bool)
    requires Typed(row, e)
  {
    !missed && if e.field in indexed then Found(Key(row[e.field]), e) else Holds(row, e)
  }

  /** The constant's key is a long two below the greatest one. */
  predicate Supported(indexed: set<string>, e: Expression) {
    e.field in indexed ==> TREE.NEG_INF < Key(e.value) < MAX_KEY - 1
  }

  predicate SupportedWhere(indexed: set<string>, w: Where) {
    match w
    case All => true
    case One(e) => Supported(indexed, e)
    case Two(e1, e2, _) => Supported(indexed, e1) && Supported(indexed, e2)
  }

  predicate RowOk(indexed: set<string>, row: Row) {
    forall c | c in indexed :: c in row && KeyOk(row[c])
  }

  predicate Planned(indexed: set<string>, row: Row, w: Where, missed1: bool, missed2: bool)
    requires TypedWhere(row, w)
  {
    match w
    case All => !missed1
    case One(e) => PlanHolds(indexed, row, e, missed1)
    case Two(e1, e2, op) => Combine(op, PlanHolds(indexed, row, e1, missed1), PlanHolds(indexed, row, e2, missed2))
  }

  /** The search for one condition reaches the row although it does not fulfil it. */
  predicate Adds(indexed: set<string>, row: Row, e: Expression, missed: bool)
    requires Typed(row, e)
  {
    !missed && e.field in indexed && FalseHit(row[e.field], e)
  }

  /** It does not reach the row although it fulfils it. */
  predicate Omits(indexed: set<string>, row: Row, e: Expression, missed: bool)
    requires Typed(row, e)
  {
    Holds(row, e) && (missed || (e.field in indexed && FalseMiss(row[e.field], e)))
  }

  /** One condition adds the row and the other does not settle the matter. */
  predicate WronglyAdded(indexed: set<string>, row: Row, w: Where, missed1: bool, missed2: bool)
    requires TypedWhere(row, w)
  {
    match w
    case All => false
    case One(e) => Adds(indexed, row, e, missed1)
    case Two(e1, e2, And) =>
      var adds1, adds2 := Adds(indexed, row, e1, missed1), Adds(indexed, row, e2, missed2);
      || (adds1 && (adds2 || (Holds(row, e2) && !Omits(indexed, row, e2, missed2))))
      || (adds2 && Holds(row, e1) && !Omits(indexed, row, e1, missed1))
    case Two(e1, e2, Or) =>
      && !Holds(row, e1) && !Holds(row, e2)
      && (Adds(indexed, row, e1, missed1) || Adds(indexed, row, e2, missed2))
  }

  /** A condition omits the row and the other does not bring it back. */
  predicate WronglyOmitted(indexed: set<string>, row: Row, w: Where, missed1: bool, missed2: bool)
    requires TypedWhere(row, w)
  {
    match w
    case All => missed1
    case One(e) => Omits(indexed, row, e, missed1)
    case Two(e1, e2, And) =>
      Holds(row, e1) && Holds(row, e2) && (Omits(indexed, row, e1, missed1) || Omits(indexed, row, e2, missed2))
    case Two(e1, e2, Or) =>
      && (Holds(row, e1) || Holds(row, e2))
      && (Holds(row, e1) ==> Omits(indexed, row, e1, missed1)) && (Holds(row, e2) ==> Omits(indexed, row, e2, missed2))
      && !Adds(indexed, row, e1, missed1) && !Adds(indexed, row, e2, missed2)
  }

  /** Exactly which rows the plan gets wrong, and which way. */
  lemma PlannedIsSatisfied(indexed: set<string>, row: Row, w: Where, missed1: bool, missed2: bool)
    requires TypedWhere(row, w) && RowOk(indexed, row)
    ensures Planned(indexed, row, w, missed1, missed2) && !Satisfies(row, w) <==>
            WronglyAdded(indexed, row, w, missed1, missed2)
    ensures !Planned(indexed, row, w, missed1, missed2) && Satisfies(row, w) <==>
            WronglyOmitted(indexed, row, w, missed1, missed2)
  {
    hide Holds, Found, FalseHit, FalseMiss, Typed, RowOk;
    match w
    case All =>
    case One(e) => PlanOne(indexed, row, e, missed1);
    case Two(e1, e2, _) =>
      PlanOne(indexed, row, e1, missed1);
      PlanOne(indexed, row, e2, missed2);
  }

  lemma PlanOne(indexed: set<string>, row: Row, e: Expression, missed: bool)
    requires Typed(row, e) && RowOk(indexed, row)
    ensures PlanHolds(indexed, row, e, missed) <==>
            (Holds(row, e) && !Omits(indexed, row, e, missed)) || Adds(indexed, row, e, missed)
    ensures Adds(indexed, row, e, missed) ==> !Holds(row, e)
  {
    if e.field in indexed {
      FoundIsHolds(row, e);
    }
  }

  lemma Unindexed(indexed: set<string>, row: Row, w: Where, missed: bool)
    requires w.Two? && w.exp1.field !in indexed && w.exp2.field !in indexed && TypedWhere(row, w)
    ensures Planned(indexed, row, w, missed, missed) == (Satisfies(row, w) && !missed)
  {
  }

  // Searching an index.

  /** An index over a column: one entry for each row, and nothing else. */
  ghost predicate Indexes(entries: seq<Pair>, column: string, rows: map<int, Row>) {
    && (forall u | u in rows :: column in rows[u] && Pair(u, Key(rows[u][column])) in entries)
    && (forall p | p in entries :: p.son in rows && column in rows[p.son] && Key(rows[p.son][column]) == p.key)
  }

  predicate Within(row: Row, column: string, left: int, right: int) {
    column in row && left <= Key(row[column]) <= right
  }

  /** The search passes over a row on the left bound: its entry stands behind the leaf
      where the scan begins. */
  predicate PassedOver(ahead: seq<Pair>, column: string, rows: map<int, Row>, left: int, u: int) {
    u in rows && column in rows[u] && Key(rows[u][column]) == left && Pair(u, left) !in ahead
  }

  ghost predicate Once(entries: seq<Pair>) {
    forall i, j | 0 <= i < j < |entries| :: entries[i] != entries[j]
  }

  /** A search finds exactly the rows in range that it does not pass over. */
  lemma SearchFinds(entries: seq<Pair>, behind: seq<Pair>, ahead: seq<Pair>, column: string, rows: map<int, Row>,
                    left: int, right: int, uids: seq<int>)
    requires Indexes(entries, column, rows) && entries == behind + ahead
    requires uids == Sons(Select(ahead, left, right)) && forall p | p in behind :: p.key <= left
    ensures forall u :: u in uids <==>
              u in rows && Within(rows[u], column, left, right) && !PassedOver(ahead, column, rows, left, u)
  {
    hide Str2Uid;
    var found := Select(ahead, left, right);
    forall u ensures u in uids <==>
               u in rows && Within(rows[u], column, left, right) && !PassedOver(ahead, column, rows, left, u)
    {
      if u in uids {
        var i :| 0 <= i < |uids| && uids[i] == u;
        assert found[i] in found && found[i].son == u;
        SelectHas(ahead, left, right, found[i]);
        assert found[i] in entries;
      }
      if u in rows && Within(rows[u], column, left, right) && !PassedOver(ahead, column, rows, left, u) {
        var p := Pair(u, Key(rows[u][column]));
        assert p in entries && p in ahead;
        SelectHas(ahead, left, right, p);
        var i :| 0 <= i < |found| && found[i] == p;
        assert uids[i] == u;
      }
    }
  }

  lemma NotTwice(behind: seq<Pair>, ahead: seq<Pair>, p: Pair)
    requires Once(behind + ahead) && p in behind
    ensures p !in ahead
  {
    var i :| 0 <= i < |behind| && behind[i] == p;
    forall j | 0 <= j < |ahead| ensures ahead[j] != p {
      assert (behind + ahead)[i] != (behind + ahead)[|behind| + j];
    }
  }

  /** A row is passed over if and only if an entry with the left bound stands behind. */
  lemma PassesOver(entries: seq<Pair>, behind: seq<Pair>, ahead: seq<Pair>, column: string, rows: map<int, Row>, left: int)
    requires Indexes(entries, column, rows) && entries == behind + ahead
    requires forall p | p in behind :: p.key <= left
    ensures (forall p | p in behind :: p.key < left) ==> forall u :: !PassedOver(ahead, column, rows, left, u)
    ensures Once(entries) && (forall u :: !PassedOver(ahead, column, rows, left, u)) ==> forall p | p in behind :: p.key < left
  {
    if u :| PassedOver(ahead, column, rows, left, u) {
      assert Pair(u, left) in entries && Pair(u, left) in behind;
    }
    if p :| p in behind && p.key == left {
      assert p in entries;
      if Once(entries) {
        NotTwice(behind, ahead, p);
        assert PassedOver(ahead, column, rows, left, p.son);
      }
    }
  }

  /** retainAll */
  method Retain(uids: seq<int>, others: seq<int>) returns (kept: seq<int>)
    ensures forall u :: u in kept <==> u in uids && u in others
  {
    kept := [];
    var i := 0;
    while i < |uids|
      invariant i <= |uids| && forall u :: u in kept <==> u in uids[..i] && u in others
    {
      assert uids[..i + 1] == uids[..i] + [uids[i]];
      if uids[i] in others {
        kept := kept + [uids[i]];
      }
      i := i + 1;
    }
    assert uids[..|uids|] == uids;
  }

  /** Joining through a set: each uid once. */
  method Merge(uids: seq<int>, others: seq<int>) returns (merged: seq<int>)
    ensures forall u :: u in merged <==> u in uids || u in others
    ensures forall i, j | 0 <= i < j < |merged| :: merged[i] != merged[j]
  {
    merged := [];
    var all, i := uids + others, 0;
    while i < |all|
      invariant i <= |all| && forall u :: u in merged <==> u in all[..i]
      invariant forall i, j | 0 <= i < j < |merged| :: merged[i] != merged[j]
    {
      assert all[..i + 1] == all[..i] + [all[i]];
      if all[i] !in merged {
        merged := merged + [all[i]];
      }
      i := i + 1;
    }
    assert all[..|all|] == all;
  }

  class Table {
    /** The rows' values by uid, and the columns that have an index. */
    const rows: map<int, Row>
    const trees: map<string, BPlusTree>
    const firstIndexed: string
    /** What the asking transaction can read. */
    const visible: set<int>

    ghost predicate Valid()
      reads this, trees.Values
    {
      && firstIndexed in trees
      && (forall c | c in trees :: trees[c].Valid() && Indexes(trees[c].Entries(), c, rows))
      && forall u | u in rows :: RowOk(trees.Keys, rows[u])
    }

    /** The search of one column from a bound on passes over the row. */
    ghost predicate Misses(column: string, left: int, u: int)
      requires Valid() && column in trees
      reads this, trees.Values
    {
      PassedOver(trees[column].Ahead(left), column, rows, left, u)
    }

    ghost function EntriesOf(column: string): seq<Pair>
      requires Valid() && column in trees
      reads this, trees.Values
    {
      trees[column].Entries()
    }

    /** A search of the column from the bound begins at its first leaf, or the leaf before
        ends below. */
    ghost predicate WholeAt(column: string, left: int)
      requires Valid() && column in trees
      reads this, trees.Values
    {
      trees[column].Whole(left)
    }

    /** The key is indexed at most once. */
    ghost predicate Rare(column: string, key: int)
      requires Valid() && column in trees
      reads this, trees.Values
    {
      KeyCount(EntriesOf(column), key) <= 1
    }

    /** The left bound of the search that answers a condition is indexed at most once. */
    ghost predicate RareBound(e: Expression)
      requires Valid() && Supported(trees.Keys, e)
      reads this, trees.Values
    {
      if e.field in trees then Rare(e.field, Bounds(e).0) else Rare(firstIndexed, 0)
    }

    ghost predicate RareBounds(w: Where)
      requires Valid() && SupportedWhere(trees.Keys, w)
      reads this, trees.Values
    {
      match w
      case All => Rare(firstIndexed, 0)
      case One(e) => RareBound(e)
      case Two(e1, e2, _) => RareBound(e1) && RareBound(e2)
    }

    /** Going through the first indexed column from 0 to the greatest int does not come
        by the row. */
    ghost predicate Beyond(u: int)
      reads this
    {
      u in rows && !Within(rows[u], firstIndexed, 0, 2147483647)
    }

    /** The search that answers a condition passes over the row; a condition without an
        index is answered by going through the first indexed column. */
    ghost predicate Passes(e: Expression, u: int)
      requires Valid() && Supported(trees.Keys, e)
      reads this, trees.Values
    {
      if e.field in trees then Misses(e.field, Bounds(e).0, u) else Beyond(u) || Misses(firstIndexed, 0, u)
    }

    /** It does so because the row's key lies outside what is gone through. */
    ghost predicate OutOfRange(e: Expression, u: int)
      reads this
    {
      e.field !in trees && Beyond(u)
    }

    ghost predicate PassesFirst(w: Where, u: int)
      requires Valid() && SupportedWhere(trees.Keys, w)
      reads this, trees.Values
    {
      match w
      case All => Beyond(u) || Misses(firstIndexed, 0, u)
      case One(e) => Passes(e, u)
      case Two(e1, _, _) => Passes(e1, u)
    }

    ghost predicate PassesSecond(w: Where, u: int)
      requires Valid() && SupportedWhere(trees.Keys, w)
      reads this, trees.Values
    {
      w.Two? && Passes(w.exp2, u)
    }

    ghost predicate FirstOutOfRange(w: Where, u: int)
      reads this
    {
      match w
      case All => Beyond(u)
      case One(e) => OutOfRange(e, u)
      case Two(e1, _, _) => OutOfRange(e1, u)
    }

    ghost predicate SecondOutOfRange(w: Where, u: int)
      reads this
    {
      w.Two? && OutOfRange(w.exp2, u)
    }

    ghost predicate IsPlanned(w: Where, u: int)
      requires Valid() && Asks(w) && u in rows
      reads this, trees.Values
    {
      Planned(trees.Keys, rows[u], w, PassesFirst(w, u), PassesSecond(w, u))
    }

    ghost predicate Asks(w: Where) {
      (forall u | u in rows :: TypedWhere(rows[u], w)) && SupportedWhere(trees.Keys, w)
    }

    constructor (rows: map<int, Row>, trees: map<string, BPlusTree>, firstIndexed: string, visible: set<int>)
      ensures this.rows == rows && this.trees == trees && this.firstIndexed == firstIndexed && this.visible == visible
    {
      this.rows, this.trees, this.firstIndexed, this.visible := rows, trees, firstIndexed, visible;
    }

    /** A search of one column: the rows in range that it does not pass over. It passes
        over none exactly when its scan has nothing with the left bound behind it. */
    method SearchColumn(column: string, left: int, right: int) returns (uids: seq<int>)
      requires Valid() && column in trees && TREE.NEG_INF < left < MAX_KEY
      ensures forall u :: u in uids <==> u in rows && Within(rows[u], column, left, right) && !Misses(column, left, u)
      ensures WholeAt(column, left) ==> forall u :: !Misses(column, left, u)
      ensures Once(EntriesOf(column)) && (forall u :: !Misses(column, left, u)) ==> WholeAt(column, left)
      ensures Rare(column, left) ==> WholeAt(column, left)
    {
      hide BPlusTree.Base, BPlusTree.Entries, BPlusTree.Ahead, BPlusTree.Behind, BPlusTree.Whole, Indexes, PassedOver, Once;
      var tree := trees[column];
      uids := tree.SearchRange(left, right);
      SearchFinds(tree.Entries(), tree.Behind(left), tree.Ahead(left), column, rows, left, right, uids);
      assert forall u :: Misses(column, left, u) == PassedOver(tree.Ahead(left), column, rows, left, u);
      PassesOver(tree.Entries(), tree.Behind(left), tree.Ahead(left), column, rows, left);
    }

    /** All rows with a key from 0 to the greatest int in the first indexed column. */
    method GetAllUid() returns (uids: seq<int>)
      requires Valid()
      ensures forall u :: u in uids <==> u in rows && !Beyond(u) && !Misses(firstIndexed, 0, u)
      ensures Rare(firstIndexed, 0) ==> forall u :: !Misses(firstIndexed, 0, u)
    {
      uids := SearchColumn(firstIndexed, 0, INT_MAX);
    }

    /** performFullTableScanWithCondition */
    method Scan(w: Where) returns (uids: seq<int>)
      requires Valid() && forall u | u in rows :: TypedWhere(rows[u], w)
      ensures forall u :: u in uids <==>
                u in rows && u in visible && Satisfies(rows[u], w) && !Beyond(u) && !Misses(firstIndexed, 0, u)
      ensures Rare(firstIndexed, 0) ==> forall u :: !Misses(firstIndexed, 0, u)
    {
      hide Valid, Misses, Beyond, Rare, Satisfies, TypedWhere;
      var all := GetAllUid();
      uids := [];
      var i := 0;
      while i < |all|
        invariant i <= |all|
        invariant forall u | u in rows :: TypedWhere(rows[u], w)
        invariant forall u :: u in uids <==> u in all[..i] && u in visible && u in rows && Satisfies(rows[u], w)
      {
        assert all[..i + 1] == all[..i] + [all[i]];
        var uid := all[i];
        assert uid in all && uid in rows && TypedWhere(rows[uid], w);
        if uid in visible && Satisfies(rows[uid], w) {
          uids := uids + [uid];
        }
        i := i + 1;
      }
      assert all[..|all|] == all;
    }

    /** One condition: searched for in its index, or checked on every row. */
    method Answer(e: Expression) returns (uids: seq<int>)
      requires Valid() && Asks(One(e))
      ensures forall u | u in rows :: Typed(rows[u], e) && RowOk(trees.Keys, rows[u])
      ensures forall u | u in visible :: u in uids <==> u in rows && PlanHolds(trees.Keys, rows[u], e, Passes(e, u))
      ensures RareBound(e) ==> forall u :: Passes(e, u) <==> OutOfRange(e, u)
    {
      hide Rare, Beyond, Str2Uid, CompareStrings, Contains, Precedes;
      if e.field in trees {
        var res := Bounds(e);
        uids := SearchColumn(e.field, res.0, res.1);
      } else {
        uids := Scan(One(e));
      }
    }

    method AnswerOne(w: Where) returns (uids: seq<int>)
      requires Valid() && Asks(w) && !w.Two?
      ensures forall u | u in visible :: u in uids <==> u in rows && IsPlanned(w, u)
      ensures RareBounds(w) ==>
                forall u :: (PassesFirst(w, u) <==> FirstOutOfRange(w, u)) && (PassesSecond(w, u) <==> SecondOutOfRange(w, u))
    {
      hide PlanHolds, Typed, RowOk, Misses, Beyond, Rare, Passes, RareBound, OutOfRange;
      if w.All? {
        uids := GetAllUid();
      } else {
        uids := Answer(w.exp);
      }
    }

    /** Two conditions without an index: one scan for both. */
    method ScanBoth(w: Where) returns (uids: seq<int>)
      requires Valid() && Asks(w) && w.Two? && w.exp1.field !in trees && w.exp2.field !in trees
      ensures forall u | u in visible :: u in uids <==> u in rows && IsPlanned(w, u)
      ensures RareBounds(w) ==>
                forall u :: (PassesFirst(w, u) <==> FirstOutOfRange(w, u)) && (PassesSecond(w, u) <==> SecondOutOfRange(w, u))
    {
      uids := Scan(w);
      hide PlanHolds, Holds, Typed, RowOk, Misses, Beyond, Rare, Planned, Satisfies;
      forall u | u in rows ensures IsPlanned(w, u) == (Satisfies(rows[u], w) && !Beyond(u) && !Misses(firstIndexed, 0, u)) {
        Unindexed(trees.Keys, rows[u], w, Beyond(u) || Misses(firstIndexed, 0, u));
      }
    }

    /** Two conditions, at least one through an index: both answers, intersected or
        joined. */
    method AnswerBoth(w: Where) returns (uids: seq<int>)
      requires Valid() && Asks(w) && w.Two?
      ensures forall u | u in visible :: u in uids <==> u in rows && IsPlanned(w, u)
      ensures RareBounds(w) ==>
                forall u :: (PassesFirst(w, u) <==> FirstOutOfRange(w, u)) && (PassesSecond(w, u) <==> SecondOutOfRange(w, u))
    {
      hide PlanHolds, Supported, Typed, Valid, RowOk, Passes, RareBound, OutOfRange;
      assert Asks(One(w.exp1)) && Asks(One(w.exp2));
      var first := Answer(w.exp1);
      var second := Answer(w.exp2);
      if w.logicOp.And? {
        uids := Retain(first, second);
      } else {
        uids := Merge(first, second);
      }
    }

    /** The rows that the plan gets wrong are those it wrongly adds or omits. */
    lemma PlanIsScan(w: Where, u: int)
      requires Valid() && Asks(w) && u in rows
      ensures TypedWhere(rows[u], w)
      ensures IsPlanned(w, u) && !Satisfies(rows[u], w) <==>
              WronglyAdded(trees.Keys, rows[u], w, PassesFirst(w, u), PassesSecond(w, u))
      ensures !IsPlanned(w, u) && Satisfies(rows[u], w) <==>
              WronglyOmitted(trees.Keys, rows[u], w, PassesFirst(w, u), PassesSecond(w, u))
    {
      hide Planned, WronglyAdded, WronglyOmitted, Satisfies, PassesFirst, PassesSecond, TypedWhere, RowOk, SupportedWhere;
      PlannedIsSatisfied(trees.Keys, rows[u], w, PassesFirst(w, u), PassesSecond(w, u));
    }

    /** The rows a where clause selects, before those that cannot be read are left
        out. Of the readable ones they are those that a full scan selects, but for
        exactly the rows that are wrongly added or omitted. */
    method ParseWhere(w: Where) returns (uids: seq<int>)
      requires Valid() && Asks(w)
      ensures forall u | u in uids && u in visible :: u in rows
      ensures forall u | u in visible && u in rows ::
                u in uids && !Satisfies(rows[u], w) <==>
                WronglyAdded(trees.Keys, rows[u], w, PassesFirst(w, u), PassesSecond(w, u))
      ensures forall u | u in visible && u in rows ::
                u !in uids && Satisfies(rows[u], w) <==>
                WronglyOmitted(trees.Keys, rows[u], w, PassesFirst(w, u), PassesSecond(w, u))
      ensures RareBounds(w) ==>
                forall u :: (PassesFirst(w, u) <==> FirstOutOfRange(w, u)) && (PassesSecond(w, u) <==> SecondOutOfRange(w, u))
    {
      hide WronglyAdded, WronglyOmitted, IsPlanned, Satisfies, PassesFirst, PassesSecond, FirstOutOfRange,
        SecondOutOfRange, RareBounds, TypedWhere,
        SupportedWhere, Valid;
      if !w.Two? {
        uids := AnswerOne(w);
      } else if w.exp1.field !in trees && w.exp2.field !in trees {
        uids := ScanBoth(w);
      } else {
        uids := AnswerBoth(w);
      }
      forall u | u in rows
        ensures IsPlanned(w, u) && !Satisfies(rows[u], w) <==>
                WronglyAdded(trees.Keys, rows[u], w, PassesFirst(w, u), PassesSecond(w, u))
        ensures !IsPlanned(w, u) && Satisfies(rows[u], w) <==>
                WronglyOmitted(trees.Keys, rows[u], w, PassesFirst(w, u), PassesSecond(w, u))
      {
        PlanIsScan(w, u);
      }
    }
  }
}
