/** The tree as whole levels, for the times when no two inserts overlap: each
    level is one sibling chain, and the slots of a level name each node of the
    level below exactly once. From this follows how low the tree stays. */
module BLinkLevels {
  import opened BLinkNode
  import opened BLinkTree

  ghost function SonBag(ps: seq<Pair>): multiset<int> {
    if ps == [] then multiset{} else multiset{ps[0].son} + SonBag(ps[1..])
  }

  lemma {:induction false} SonBagConcat(a: seq<Pair>, b: seq<Pair>)
    ensures SonBag(a + b) == SonBag(a) + SonBag(b)
  {
    if a == [] {
      assert a + b == b;
    } else {
      assert (a + b)[1..] == a[1..] + b;
      SonBagConcat(a[1..], b);
    }
  }

  lemma {:induction false} SonBagSize(ps: seq<Pair>)
    ensures |SonBag(ps)| == |ps|
  {
    if ps != [] {
      SonBagSize(ps[1..]);
    }
  }

  lemma SonBagMid(a: seq<Pair>, ps: seq<Pair>, b: seq<Pair>)
    ensures SonBag(a + ps + b) == SonBag(a) + SonBag(ps) + SonBag(b)
  {
    SonBagConcat(a + ps, b);
    SonBagConcat(a, ps);
  }

  lemma SonBagSwap(a: seq<Pair>, p0: Pair, p: Pair, q: Pair, b: seq<Pair>)
    requires p.son == p0.son
    ensures SonBag(a + [p, q] + b) == SonBag(a + [p0] + b) + multiset{q.son}
  {
    SonBagMid(a, [p0], b);
    SonBagMid(a, [p, q], b);
    assert [p, q][1..] == [q];
    assert SonBag([p, q]) == multiset{p.son} + SonBag([q]);
  }

  /** An internal insertion adds its son to the slots and loses none. */
  lemma InsertAddsSon(n: Node, uid: int, key: int)
    requires Accepts(n, key) && !n.leaf && InsertPair(n, uid, key).Some?
    ensures SonBag(InsertPair(n, uid, key).value.pairs) == SonBag(n.pairs) + multiset{uid}
  {
    var k := FirstAtLeast(n.pairs, key);
    SonBagSwap(n.pairs[..k], n.pairs[k], Pair(n.pairs[k].son, key), Pair(uid, n.pairs[k].key), n.pairs[k + 1..]);
    assert n.pairs == n.pairs[..k] + [n.pairs[k]] + n.pairs[k + 1..];
  }

  ghost predicate SizeOk(n: Node, isRoot: bool) {
    && |n.pairs| < 2 * BALANCE_NUMBER
    && (if isRoot then !n.leaf ==> |n.pairs| >= 2 else |n.pairs| >= BALANCE_NUMBER)
  }

  ghost predicate SizesOk(t: Tree) {
    forall u | u in t.store :: SizeOk(t.store[u], u == t.root)
  }

  /** A node split off at a level, not yet named by any slot above. */
  datatype Pending = Nothing | Awaits(at: int, uid: int)

  ghost function Extra(pending: Pending, level: int): multiset<int> {
    if pending.Awaits? && pending.at == level then multiset{pending.uid} else multiset{}
  }

  /** Level `l` is a sibling chain of nodes of that level. */
  ghost predicate LevelOk(t: Tree, g: Shape, levels: seq<seq<int>>, l: nat)
    requires l < |levels|
  {
    Links(t.store, levels[l]) && forall i | 0 <= i < |levels[l]| :: levels[l][i] in g.level && g.level[levels[l][i]] == l
  }

  /** The nodes that the level above names, as often as it names them; at the
      top stands the root. */
  ghost function Named(t: Tree, levels: seq<seq<int>>, l: nat): multiset<int> {
    if l + 1 < |levels| && Stored(t.store, levels[l + 1]) then SonBag(Flatten(t.store, levels[l + 1]))
    else multiset{t.root}
  }

  /** Each node of level `l` is named once, but for a pending one. */
  ghost predicate NamedOnce(t: Tree, levels: seq<seq<int>>, pending: Pending, l: nat)
    requires l < |levels|
  {
    multiset(levels[l]) == Named(t, levels, l) + Extra(pending, l)
  }

  ghost predicate LevelsOk(t: Tree, g: Shape, levels: seq<seq<int>>, pending: Pending) {
    && |levels| > 0 && levels[0] == g.chain
    && (forall l | 0 <= l < |levels| :: LevelOk(t, g, levels, l))
    && (forall l | 0 <= l < |levels| :: NamedOnce(t, levels, pending, l))
    && (forall u | u in t.store :: u in g.level && 0 <= g.level[u] < |levels| && u in levels[g.level[u]])
  }

  /** Where a node stands in its level, and so where a hop to the right leads. */
  lemma PositionOf(t: Tree, g: Shape, levels: seq<seq<int>>, pending: Pending, u: int) returns (l: nat, i: nat)
    requires LevelsOk(t, g, levels, pending) && u in t.store
    ensures u in g.level && l == g.level[u] && l < |levels| && i < |levels[l]| && levels[l][i] == u
    ensures t.store[u].sibling == if i + 1 < |levels[l]| then levels[l][i + 1] else NO_UID
  {
    l := g.level[u];
    i :| 0 <= i < |levels[l]| && levels[l][i] == u;
    assert LevelOk(t, g, levels, l);
  }

  // -------------------------------------------------------------------- steps

  /** A node takes a pair: a leaf any pair, an internal node the pending son. */
  lemma LevelsTakePair(t: Tree, g: Shape, levels: seq<seq<int>>, pending: Pending, u: int, uid: int, key: int, n': Node)
    requires LevelsOk(t, g, levels, pending) && u in t.store && u in g.level
    requires Accepts(t.store[u], key) && InsertPair(t.store[u], uid, key) == Some(n')
    requires t.store[u].leaf <==> g.level[u] == 0
    requires pending == if t.store[u].leaf then Nothing else Awaits(g.level[u] - 1, uid)
    ensures LevelsOk(Update(t, u, n'), g, levels, Nothing)
  {
    var t' := Update(t, u, n');
    forall l | 0 <= l < |levels| ensures LevelOk(t', g, levels, l) {
      assert LevelOk(t, g, levels, l);
    }
    forall l | 0 <= l < |levels| ensures NamedOnce(t', levels, Nothing, l) {
      NamedAfterPair(t, g, levels, pending, u, uid, key, n', l);
    }
  }

  /** The level above gains the son's name, if it is the level that changed. */
  lemma PairNames(t: Tree, g: Shape, levels: seq<seq<int>>, u: int, uid: int, key: int, n': Node, l: nat)
    requires u in t.store && u in g.level && 0 <= g.level[u] < |levels| && u in levels[g.level[u]]
    requires l + 1 < |levels| && LevelOk(t, g, levels, l + 1)
    requires Accepts(t.store[u], key) && InsertPair(t.store[u], uid, key) == Some(n')
    requires t.store[u].leaf ==> g.level[u] != l + 1
    ensures Named(Update(t, u, n'), levels, l) ==
            Named(t, levels, l) + if g.level[u] == l + 1 then multiset{uid} else multiset{}
  {
    if g.level[u] == l + 1 {
      InsertAddsSon(t.store[u], uid, key);
      BagAfterUpdate(t.store, levels[l + 1], u, n', multiset{uid});
    } else {
      assert u !in levels[l + 1];
      FlattenFrame(t.store, Update(t, u, n').store, levels[l + 1]);
    }
  }

  lemma NamedAfterPair(t: Tree, g: Shape, levels: seq<seq<int>>, pending: Pending, u: int, uid: int, key: int, n': Node, l: nat)
    requires l < |levels| && NamedOnce(t, levels, pending, l)
    requires l + 1 < |levels| ==> LevelOk(t, g, levels, l + 1)
    requires u in t.store && u in g.level && 0 <= g.level[u] < |levels| && u in levels[g.level[u]]
    requires Accepts(t.store[u], key) && InsertPair(t.store[u], uid, key) == Some(n')
    requires t.store[u].leaf <==> g.level[u] == 0
    requires pending == if t.store[u].leaf then Nothing else Awaits(g.level[u] - 1, uid)
    ensures NamedOnce(Update(t, u, n'), levels, Nothing, l)
  {
    if l + 1 < |levels| {
      PairNames(t, g, levels, u, uid, key, n', l);
    }
  }

  lemma BagAfterUpdate(store: map<int, Node>, chain: seq<int>, u: int, n': Node, gain: multiset<int>)
    requires Stored(store, chain) && Distinct(chain) && u in chain && u in store
    requires SonBag(n'.pairs) == SonBag(store[u].pairs) + gain
    ensures Stored(store[u := n'], chain)
    ensures SonBag(Flatten(store[u := n'], chain)) == SonBag(Flatten(store, chain)) + gain
  {
    var a, b := ChainAround(chain, u);
    StoredParts(store, a, [u], b);
    DistinctAround(a, u, b);
    FlattenAround(store, a, u, b);
    FlattenFrame(store, store[u := n'], a);
    FlattenFrame(store, store[u := n'], b);
    FlattenAround(store[u := n'], a, u, b);
    SonBagMid(Flatten(store, a), store[u].pairs, Flatten(store, b));
    SonBagMid(Flatten(store, a), n'.pairs, Flatten(store, b));
  }

  ghost function SplitLevels(levels: seq<seq<int>>, l: nat, a: seq<int>, u: int, right: int, b: seq<int>): seq<seq<int>>
    requires l < |levels|
  {
    levels[l := a + [u, right] + b]
  }

  /** A split inserts the new node after the old one in its level, where it waits
      for a slot above. */
  lemma LevelsSplit(t: Tree, g: Shape, levels: seq<seq<int>>, u: int, right: int, a: seq<int>, b: seq<int>, g': Shape)
    requires LevelsOk(t, g, levels, Nothing) && u in t.store && NeedSplit(t.store[u])
    requires right !in t.store && right != NO_UID && u in g.level && 0 <= g.level[u] < |levels|
    requires levels[g.level[u]] == a + [u] + b
    requires g'.level == g.level[right := g.level[u]]
    requires g'.chain == if g.level[u] == 0 then a + [u, right] + b else g.chain
    ensures LevelsOk(SplitTree(t, u, right), g', SplitLevels(levels, g.level[u], a, u, right, b), Awaits(g.level[u], right))
  {
    var t' := SplitTree(t, u, right);
    var k := g.level[u];
    var levels' := SplitLevels(levels, k, a, u, right, b);
    assert LevelOk(t, g, levels, k);
    SplitRow(t, t', a, u, right, b);
    RowGainsOne(a, u, right, b);
    forall l | 0 <= l < |levels'| ensures LevelOk(t', g', levels', l) {
      SplitLevelOk(t, g, levels, u, right, a, b, g', l);
    }
    forall l | 0 <= l < |levels'| ensures NamedOnce(t', levels', Awaits(k, right), l) {
      assert NamedOnce(t, levels, Nothing, l);
      assert l + 1 < |levels| ==> LevelOk(t, g, levels, l + 1);
      SplitKeepsNames(t, g, levels, t', levels', k, u, l);
      NamedAfterSplit(t, levels, t', levels', k, right, l);
    }
    forall v | v in t'.store ensures v in levels'[if v == right then k else g.level[v]] {
      if v == right {
        assert levels'[k][|a| + 1] == right;
      } else if g.level[v] == k {
        assert v in a + [u] + b;
      }
    }
  }

  lemma SplitKeepsNames(t: Tree, g: Shape, levels: seq<seq<int>>, t': Tree, levels': seq<seq<int>>, k: nat, u: int, l: nat)
    requires l < |levels| == |levels'| && k < |levels| && t'.root == t.root
    requires l + 1 < |levels| ==> LevelOk(t, g, levels, l + 1)
    requires u in g.level && g.level[u] == k
    requires forall v | v in t.store && v != u :: v in t'.store && t'.store[v] == t.store[v]
    requires forall j | 0 <= j < |levels| && j != k :: levels'[j] == levels[j]
    requires Stored(t.store, levels[k]) && Stored(t'.store, levels'[k])
    requires Flatten(t'.store, levels'[k]) == Flatten(t.store, levels[k])
    ensures Named(t', levels', l) == Named(t, levels, l)
  {
    if l + 1 < |levels| && l + 1 != k {
      assert u !in levels[l + 1];
      FlattenFrame(t.store, t'.store, levels[l + 1]);
    }
  }

  lemma NamedAfterSplit(t: Tree, levels: seq<seq<int>>, t': Tree, levels': seq<seq<int>>, k: nat, right: int, l: nat)
    requires l < |levels| == |levels'| && k < |levels| && NamedOnce(t, levels, Nothing, l)
    requires Named(t', levels', l) == Named(t, levels, l)
    requires if l == k then multiset(levels'[l]) == multiset(levels[l]) + multiset{right} else levels'[l] == levels[l]
    ensures NamedOnce(t', levels', Awaits(k, right), l)
  {
  }

  lemma RowGainsOne(a: seq<int>, u: int, right: int, b: seq<int>)
    ensures multiset(a + [u, right] + b) == multiset(a + [u] + b) + multiset{right}
  {
  }

  lemma SplitLevelOk(t: Tree, g: Shape, levels: seq<seq<int>>, u: int, right: int, a: seq<int>, b: seq<int>, g': Shape, l: nat)
    requires l < |levels| && LevelOk(t, g, levels, l)
    requires u in t.store && NeedSplit(t.store[u]) && right !in t.store && right != NO_UID
    requires u in g.level && 0 <= g.level[u] < |levels| && levels[g.level[u]] == a + [u] + b
    requires g'.level == g.level[right := g.level[u]]
    requires l == g.level[u] ==> Links(SplitTree(t, u, right).store, a + [u, right] + b)
    ensures LevelOk(SplitTree(t, u, right), g', SplitLevels(levels, g.level[u], a, u, right, b), l)
  {
    var k := g.level[u];
    var level' := SplitLevels(levels, k, a, u, right, b)[l];
    forall i | 0 <= i < |level'| ensures level'[i] in g'.level && g'.level[level'[i]] == l {
      if l == k {
        assert level'[i] == if i <= |a| then levels[l][i] else if i == |a| + 1 then right else levels[l][i - 1];
      }
    }
  }

  /** A new root gives the pending node of the old top level its slot. */
  lemma LevelsGrow(t: Tree, g: Shape, levels: seq<seq<int>>, right: int, key: int, root: int)
    requires |levels| > 0 && LevelsOk(t, g, levels, Awaits(|levels| - 1, right))
    requires t.root in g.level && g.level[t.root] == |levels| - 1
    requires root !in t.store && root != NO_UID
    ensures LevelsOk(GrowTree(t, t.root, right, key, root), GrowShape(g, t.root, root), levels + [[root]], Nothing)
  {
    var t', g' := GrowTree(t, t.root, right, key, root), GrowShape(g, t.root, root);
    var levels' := levels + [[root]];
    forall l | 0 <= l < |levels'| ensures LevelOk(t', g', levels', l) {
      if l < |levels| {
        assert LevelOk(t, g, levels, l);
      }
    }
    forall l | 0 <= l < |levels'| ensures NamedOnce(t', levels', Nothing, l) {
      if l < |levels| {
        hide Links, Flatten, Named;
        assert NamedOnce(t, levels, Awaits(|levels| - 1, right), l);
        assert l + 1 < |levels| ==> LevelOk(t, g, levels, l + 1);
        GrowNames(t, g, levels, right, key, root, l);
      } else {
        assert levels'[l] == [root];
      }
    }
  }

  lemma GrowNames(t: Tree, g: Shape, levels: seq<seq<int>>, right: int, key: int, root: int, l: nat)
    requires l < |levels| && NamedOnce(t, levels, Awaits(|levels| - 1, right), l) && root !in t.store
    requires l + 1 < |levels| ==> LevelOk(t, g, levels, l + 1)
    ensures NamedOnce(GrowTree(t, t.root, right, key, root), levels + [[root]], Nothing, l)
  {
    var t' := GrowTree(t, t.root, right, key, root);
    if l + 1 < |levels| {
      FlattenFrame(t.store, t'.store, levels[l + 1]);
      assert Named(t', levels + [[root]], l) == Named(t, levels, l);
    } else {
      FlattenOne(t'.store, root);
      RootNames(t.root, right, key);
    }
  }

  lemma RootNames(left: int, right: int, key: int)
    ensures SonBag(NewRoot(left, right, key).pairs) == multiset{left} + multiset{right}
  {
    var ps := NewRoot(left, right, key).pairs;
    assert SonBag(ps) == multiset{ps[0].son} + SonBag(ps[1..]);
    assert ps[1..] == [ps[1]];
    assert SonBag([ps[1]]) == multiset{ps[1].son};
  }

  // ------------------------------------------------------------------- height

  ghost function Power(b: nat, e: nat): nat {
    if e == 0 then 1 else b * Power(b, e - 1)
  }

  /** A row of nodes with at least `m` pairs each holds at least m times its length. */
  lemma {:induction false} RowHolds(store: map<int, Node>, chain: seq<int>, m: nat)
    requires Stored(store, chain)
    requires forall i | 0 <= i < |chain| :: |store[chain[i]].pairs| >= m
    ensures |Flatten(store, chain)| >= m * |chain|
  {
    if chain != [] {
      RowHolds(store, chain[1..], m);
    }
  }

  lemma LevelWidth(t: Tree, g: Shape, levels: seq<seq<int>>, l: nat)
    requires LevelsOk(t, g, levels, Nothing) && l + 1 < |levels|
    ensures LevelOk(t, g, levels, l + 1) && |levels[l]| == |Flatten(t.store, levels[l + 1])|
  {
    assert LevelOk(t, g, levels, l + 1) && NamedOnce(t, levels, Nothing, l);
    SonBagSize(Flatten(t.store, levels[l + 1]));
    assert |multiset(levels[l])| == |levels[l]|;
  }

  lemma {:induction false} LevelAtLeast(t: Tree, g: Shape, levels: seq<seq<int>>, l: nat)
    requires LevelsOk(t, g, levels, Nothing) && SizesOk(t) && t.root in t.store
    requires g.chain != [] && l < |levels| - 1 && (t.store[t.root].leaf <==> g.level[t.root] == 0)
    ensures |levels[l]| >= 2 * Power(BALANCE_NUMBER, |levels| - 2 - l)
    decreases |levels| - l
  {
    LevelWidth(t, g, levels, l);
    if l + 2 == |levels| {
      TopIsRoot(t, g, levels);
      FlattenOne(t.store, t.root);
    } else {
      LevelAtLeast(t, g, levels, l + 1);
      NonRootSizes(t, g, levels, l + 1);
      RowHolds(t.store, levels[l + 1], BALANCE_NUMBER);
    }
  }

  lemma TopIsRoot(t: Tree, g: Shape, levels: seq<seq<int>>)
    requires LevelsOk(t, g, levels, Nothing) && t.root in t.store
    ensures levels[|levels| - 1] == [t.root] && g.level[t.root] == |levels| - 1
  {
    var top := levels[|levels| - 1];
    assert NamedOnce(t, levels, Nothing, |levels| - 1) && LevelOk(t, g, levels, |levels| - 1);
    assert |multiset(top)| == |top| == 1;
    assert top[0] in multiset(top);
    assert top == [top[0]];
  }

  lemma NonRootSizes(t: Tree, g: Shape, levels: seq<seq<int>>, l: nat)
    requires LevelsOk(t, g, levels, Nothing) && SizesOk(t) && t.root in t.store && l + 1 < |levels|
    ensures LevelOk(t, g, levels, l)
    ensures forall i | 0 <= i < |levels[l]| :: |t.store[levels[l][i]].pairs| >= BALANCE_NUMBER
  {
    assert LevelOk(t, g, levels, l);
    TopIsRoot(t, g, levels);
    forall i | 0 <= i < |levels[l]| ensures |t.store[levels[l][i]].pairs| >= BALANCE_NUMBER {
      assert SizeOk(t.store[levels[l][i]], levels[l][i] == t.root);
    }
  }

  /** A tree at rest with h levels above its leaves, h >= 1, holds at least
      2 * 32^h entries. */
  lemma HeightBound(t: Tree, g: Shape, levels: seq<seq<int>>)
    requires Inv(t, g) && LevelsOk(t, g, levels, Nothing) && SizesOk(t)
    requires |levels| >= 2
    ensures |Contents(t, g)| >= 2 * Power(BALANCE_NUMBER, |levels| - 1)
  {
    assert NodeOk(t, g, Contents(t, g), t.root);
    LevelAtLeast(t, g, levels, 0);
    NonRootSizes(t, g, levels, 0);
    RowHolds(t.store, g.chain, BALANCE_NUMBER);
  }

  // ------------------------------------------------------------------ parents

  ghost predicate IsSlot(t: Tree, p: int, i: int, u: int) {
    p in t.store && !t.store[p].leaf && 0 <= i < |t.store[p].pairs| && t.store[p].pairs[i].son == u
  }

  lemma SonBagHas(ps: seq<Pair>, i: nat)
    requires i < |ps|
    ensures SonBag(ps)[ps[i].son] >= 1
  {
    assert ps == ps[..i] + ps[i..];
    SonBagConcat(ps[..i], ps[i..]);
    assert ps[i..][0] == ps[i];
  }

  lemma SonBagTwice(ps: seq<Pair>, i: nat, j: nat)
    requires i < j < |ps| && ps[i].son == ps[j].son
    ensures SonBag(ps)[ps[i].son] >= 2
  {
    assert ps == ps[..j] + ps[j..];
    SonBagConcat(ps[..j], ps[j..]);
    SonBagHas(ps[..j], i);
    SonBagHas(ps[j..], 0);
  }

  lemma {:induction false} SonBagFind(ps: seq<Pair>, u: int) returns (i: nat)
    requires SonBag(ps)[u] >= 1
    ensures i < |ps| && ps[i].son == u
  {
    if ps[0].son == u {
      i := 0;
    } else {
      i := SonBagFind(ps[1..], u);
      i := i + 1;
    }
  }

  lemma RowNames(store: map<int, Node>, chain: seq<int>, p: int, i: nat)
    requires Stored(store, chain) && p in chain && p in store && i < |store[p].pairs|
    ensures SonBag(Flatten(store, chain))[store[p].pairs[i].son] >= 1
  {
    var a, b := ChainAround(chain, p);
    StoredParts(store, a, [p], b);
    FlattenAround(store, a, p, b);
    SonBagMid(Flatten(store, a), store[p].pairs, Flatten(store, b));
    SonBagHas(store[p].pairs, i);
  }

  lemma RowNamesTwice(store: map<int, Node>, chain: seq<int>, p: int, i: nat, q: int, j: nat)
    requires Stored(store, chain) && p in chain && q in chain && p in store && q in store
    requires i < |store[p].pairs| && j < |store[q].pairs| && (p, i) != (q, j)
    requires store[p].pairs[i].son == store[q].pairs[j].son
    ensures SonBag(Flatten(store, chain))[store[p].pairs[i].son] >= 2
  {
    var a, b := ChainAround(chain, p);
    StoredParts(store, a, [p], b);
    FlattenAround(store, a, p, b);
    SonBagMid(Flatten(store, a), store[p].pairs, Flatten(store, b));
    hide SonBag, Flatten;
    if p == q {
      SonBagTwice(store[p].pairs, if i < j then i else j, if i < j then j else i);
    } else {
      SonBagHas(store[p].pairs, i);
      if q in a {
        RowNames(store, a, q, j);
      } else {
        RowNames(store, b, q, j);
      }
    }
  }

  lemma {:induction false} FlattenFind(store: map<int, Node>, chain: seq<int>, k: nat) returns (p: int, i: nat)
    requires Stored(store, chain) && k < |Flatten(store, chain)|
    ensures p in chain && p in store && i < |store[p].pairs| && store[p].pairs[i] == Flatten(store, chain)[k]
  {
    var n := |store[chain[0]].pairs|;
    if k < n {
      p, i := chain[0], k;
    } else {
      p, i := FlattenFind(store, chain[1..], k - n);
    }
  }

  lemma DistinctBag(row: seq<int>, u: int)
    requires Distinct(row) && u in row
    ensures multiset(row)[u] == 1
  {
    var a, b := ChainAround(row, u);
    DistinctAround(a, u, b);
  }

  /** In a tree at rest every node but the root is the son of exactly one slot. */
  lemma OneParentSlot(t: Tree, g: Shape, levels: seq<seq<int>>, u: int)
    requires Inv(t, g) && LevelsOk(t, g, levels, Nothing) && u in t.store && u != t.root
    ensures exists p, i :: IsSlot(t, p, i, u)
    ensures forall p, i, q, j | IsSlot(t, p, i, u) && IsSlot(t, q, j, u) :: p == q && i == j
  {
    var l := g.level[u];
    TopIsRoot(t, g, levels);
    assert LevelOk(t, g, levels, l) && NamedOnce(t, levels, Nothing, l) && LevelOk(t, g, levels, l + 1);
    var row := levels[l + 1];
    DistinctBag(levels[l], u);
    assert SonBag(Flatten(t.store, row))[u] == 1;
    var k := SonBagFind(Flatten(t.store, row), u);
    var p, i := FlattenFind(t.store, row, k);
    assert NodeOk(t, g, Contents(t, g), p);
    assert IsSlot(t, p, i, u);
    forall p, i, q, j | IsSlot(t, p, i, u) && IsSlot(t, q, j, u) ensures p == q && i == j {
      SlotLevel(t, g, p, i, u);
      SlotLevel(t, g, q, j, u);
      if (p, i) != (q, j) {
        RowNamesTwice(t.store, row, p, i, q, j);
      }
    }
  }

  lemma SlotLevel(t: Tree, g: Shape, p: int, i: int, u: int)
    requires Inv(t, g) && IsSlot(t, p, i, u) && u in g.level
    ensures p in g.level && g.level[p] == g.level[u] + 1
  {
    assert NodeOk(t, g, Contents(t, g), p);
    assert IsSon(g, g.level[p], t.store[p].pairs[i].son);
  }

  lemma NilLevelsOk(root: int)
    requires root != NO_UID
    ensures var t := Tree(map[root := NilRoot()], root);
            LevelsOk(t, NilShape(root), [[root]], Nothing) && SizesOk(t)
  {
    var t, levels := Tree(map[root := NilRoot()], root), [[root]];
    assert LevelOk(t, NilShape(root), levels, 0) && NamedOnce(t, levels, Nothing, 0);
  }

  // ------------------------------------------------- insertAndSplit on whole levels

  /** A split has put `newNode` beside `u`, and the slot above is still missing. */
  ghost predicate Halfway(t: Tree, g: Shape, levels: seq<seq<int>>, u: int, newNode: int, newKey: int)
    requires Inv(t, g)
  {
    && u in t.store && newNode in t.store && g.level[newNode] == g.level[u]
    && newKey < MAX_KEY && Below(Contents(t, g), g.low[newNode], newKey)
    && SizesOk(t) && LevelsOk(t, g, levels, Awaits(g.level[u], newNode))
    && (g.level[u] == |levels| - 1 ==> |t.store[t.root].pairs| >= BALANCE_NUMBER)
  }

  lemma SplitHalfway(t: Tree, g: Shape, levels: seq<seq<int>>, u: int, right: int, a: seq<int>, b: seq<int>)
    requires Inv(t, g) && LevelsOk(t, g, levels, Nothing) && u in t.store && NeedSplit(t.store[u])
    requires forall v | v in t.store && v != u :: SizeOk(t.store[v], v == t.root)
    requires right !in t.store && right != NO_UID
    requires 0 <= g.level[u] < |levels| && levels[g.level[u]] == a + [u] + b
    ensures !t.store[u].leaf ==> t.store[u].pairs[BALANCE_NUMBER].son in g.low
    ensures var t', g' := SplitTree(t, u, right), SplitShape(g, u, t.store[u], right, a, b);
            && Inv(t', g') && Extends(g, g') && Contents(t', g') == Contents(t, g)
            && Halfway(t', g', SplitLevels(levels, g.level[u], a, u, right, b), u, right, SplitNode(t.store[u], right).newKey)
  {
    assert NodeOk(t, g, Contents(t, g), u);
    SplitKeepsInv(t, g, u, right, a, b);
    LevelsSplit(t, g, levels, u, right, a, b, SplitShape(g, u, t.store[u], right, a, b));
    TopIsRoot(t, g, levels);
    SplitSizes(t, u, right);
    if g.level[u] == |levels| - 1 {
      assert u in levels[g.level[u]];
    }
  }

  lemma SplitSizes(t: Tree, u: int, right: int)
    requires u in t.store && NeedSplit(t.store[u]) && right !in t.store
    requires forall v | v in t.store && v != u :: SizeOk(t.store[v], v == t.root)
    ensures SizesOk(SplitTree(t, u, right))
  {
  }

  /** The pair goes in: the tree is at rest again, but for a node grown full. */
  lemma TakePair(t: Tree, g: Shape, levels: seq<seq<int>>, u: int, son: int, sonKey: int, n': Node)
    requires Inv(t, g) && SizesOk(t) && Placeable(t, g, u, son, sonKey) && Accepts(t.store[u], sonKey)
    requires LevelsOk(t, g, levels, if t.store[u].leaf then Nothing else Awaits(g.level[u] - 1, son))
    requires InsertPair(t.store[u], son, sonKey) == Some(n')
    ensures var t' := Update(t, u, n');
            && Inv(t', g) && LevelsOk(t', g, levels, Nothing)
            && (forall v | v in t'.store && v != u :: SizeOk(t'.store[v], v == t'.root))
            && (!NeedSplit(n') ==> SizesOk(t'))
            && (if t.store[u].leaf then InsertedInto(Contents(t, g), Contents(t', g), Pair(son, sonKey))
                else Contents(t', g) == Contents(t, g))
  {
    assert NodeOk(t, g, Contents(t, g), u);
    assert SizeOk(t.store[u], u == t.root);
    LevelsTakePair(t, g, levels, if t.store[u].leaf then Nothing else Awaits(g.level[u] - 1, son), u, son, sonKey, n');
    if t.store[u].leaf {
      var pos := InsertLeaf(t, g, u, son, sonKey, n');
    } else {
      InsertInner(t, g, u, son, sonKey, n');
    }
  }

  ghost predicate InsertedInto(c: seq<Pair>, c': seq<Pair>, p: Pair) {
    exists pos: nat :: pos <= |c| && c' == c[..pos] + [p] + c[pos..]
  }
}
