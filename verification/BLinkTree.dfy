/** The index as a set of nodes, the low fences that make every search find its
    keys, and the proof that each single-node change keeps them. Nothing here
    assumes that one insert finishes before the next begins. */
module BLinkTree {
  import opened BLinkNode

  /** What the data manager stores: nodes by uid, and the boot item's root uid. */
  datatype Tree = Tree(store: map<int, Node>, root: int)

  /** Bookkeeping that the program does not store: each node's low fence and
      level, and the leaves from left to right. */
  datatype Shape = Shape(low: map<int, int>, level: map<int, int>, chain: seq<int>)

  const NEG_INF := -0x8000_0000_0000_0001

  ghost predicate Stored(store: map<int, Node>, chain: seq<int>) {
    forall i | 0 <= i < |chain| :: chain[i] in store
  }

  /** The pairs of a row of nodes, from left to right. */
  ghost function Flatten(store: map<int, Node>, chain: seq<int>): seq<Pair>
    requires Stored(store, chain)
  {
    if chain == [] then [] else store[chain[0]].pairs + Flatten(store, chain[1..])
  }

  /** Every indexed pair, in leaf order. */
  ghost function Contents(t: Tree, g: Shape): seq<Pair>
    requires Stored(t.store, g.chain)
  {
    Flatten(t.store, g.chain)
  }

  /** Fence `a` may stand under key `b`: strictly, unless `b` is indexed twice. */
  ghost predicate Below(c: seq<Pair>, a: int, b: int) {
    a < b || (a == b && KeyCount(c, b) >= 2)
  }

  ghost function Last(n: Node): int
    requires |n.pairs| > 0
  {
    n.pairs[|n.pairs| - 1].key
  }

  ghost predicate Linked(t: Tree, g: Shape, u: int)
    requires u in t.store && t.store.Keys == g.low.Keys == g.level.Keys
  {
    var n := t.store[u];
    && Sorted(n.pairs)
    && g.level[u] >= 0 && (n.leaf <==> g.level[u] == 0)
    && (n.sibling != NO_UID ==> n.sibling in t.store && g.level[n.sibling] == g.level[u] && |n.pairs| > 0)
  }

  ghost predicate LeafOk(t: Tree, g: Shape, u: int)
    requires u in t.store && t.store.Keys == g.low.Keys == g.level.Keys && Linked(t, g, u)
  {
    var n := t.store[u];
    && (forall i | 0 <= i < |n.pairs| :: g.low[u] <= n.pairs[i].key < MAX_KEY)
    && (n.sibling != NO_UID ==> g.low[n.sibling] == Last(n))
  }

  /** The slots of an internal node at `level`: sons one level down, each fenced
      by the key before it, and no key but the last the greatest one. */
  ghost predicate SonsOk(g: Shape, c: seq<Pair>, level: int, fence: int, ps: seq<Pair>) {
    && |ps| > 0
    && (forall i | 0 <= i < |ps| - 1 :: ps[i].key < MAX_KEY)
    && (forall i | 0 <= i < |ps| :: IsSon(g, level, ps[i].son))
    && g.low[ps[0].son] <= fence
    && (forall i, j | 0 <= i && j == i + 1 && j < |ps| :: Below(c, g.low[ps[j].son], ps[i].key))
  }

  ghost predicate IsSon(g: Shape, level: int, u: int) {
    u in g.low && u in g.level && g.level[u] == level - 1
  }

  ghost predicate InnerOk(t: Tree, g: Shape, c: seq<Pair>, u: int)
    requires u in t.store && t.store.Keys == g.low.Keys == g.level.Keys && Linked(t, g, u)
  {
    var n := t.store[u];
    && SonsOk(g, c, g.level[u], g.low[u], n.pairs)
    && (if n.sibling == NO_UID then Last(n) == MAX_KEY else Below(c, g.low[n.sibling], Last(n)))
  }

  ghost predicate NodeOk(t: Tree, g: Shape, c: seq<Pair>, u: int)
    requires u in t.store && t.store.Keys == g.low.Keys == g.level.Keys
  {
    Linked(t, g, u) && (if t.store[u].leaf then LeafOk(t, g, u) else InnerOk(t, g, c, u))
  }

  /** Nodes that follow each other by their right siblings, without repetition. */
  ghost predicate Links(store: map<int, Node>, chain: seq<int>) {
    && Stored(store, chain)
    && (forall i, j | 0 <= i && j == i + 1 && j < |chain| :: store[chain[i]].sibling == chain[j])
    && (|chain| > 0 ==> store[chain[|chain| - 1]].sibling == NO_UID)
    && Distinct(chain)
  }

  ghost predicate Distinct(chain: seq<int>) {
    forall i, j | 0 <= i < j < |chain| :: chain[i] != chain[j]
  }

  ghost predicate ChainOk(t: Tree, g: Shape) {
    && |g.chain| > 0
    && Links(t.store, g.chain)
    && (forall u | u in t.store :: t.store[u].leaf <==> u in g.chain)
  }

  ghost predicate AllOk(t: Tree, g: Shape, c: seq<Pair>)
    requires t.store.Keys == g.low.Keys == g.level.Keys
  {
    forall u {:trigger NodeOk(t, g, c, u)} | u in t.store :: NodeOk(t, g, c, u)
  }

  /** The invariant of every state between two single-node steps. */
  ghost predicate Inv(t: Tree, g: Shape) {
    && t.store.Keys == g.low.Keys == g.level.Keys
    && NO_UID !in t.store
    && t.root in t.store && g.low[t.root] == NEG_INF
    && ChainOk(t, g)
    && AllOk(t, g, Contents(t, g))
  }

  // ---------------------------------------------------------------- flattening

  lemma {:induction false} FlattenConcat(store: map<int, Node>, a: seq<int>, b: seq<int>)
    requires Stored(store, a) && Stored(store, b)
    ensures Stored(store, a + b)
    ensures Flatten(store, a + b) == Flatten(store, a) + Flatten(store, b)
  {
    if a == [] {
      assert a + b == b;
    } else {
      assert (a + b)[1..] == a[1..] + b;
      FlattenConcat(store, a[1..], b);
    }
  }

  /** Two stores hold the same pairs in a row of nodes. */
  ghost predicate Agree(store: map<int, Node>, store': map<int, Node>, chain: seq<int>) {
    forall i | 0 <= i < |chain| ::
      chain[i] in store && chain[i] in store' && store'[chain[i]].pairs == store[chain[i]].pairs
  }

  lemma {:induction false} FlattenAgree(store: map<int, Node>, store': map<int, Node>, chain: seq<int>)
    requires Agree(store, store', chain)
    ensures Stored(store, chain) && Stored(store', chain) && Flatten(store, chain) == Flatten(store', chain)
  {
    if chain != [] {
      assert chain[0] in store;
      FlattenAgree(store, store', chain[1..]);
    }
  }

  lemma FlattenFrame(store: map<int, Node>, store': map<int, Node>, chain: seq<int>)
    requires Stored(store, chain)
    requires forall v | v in store && v in chain :: v in store' && store'[v].pairs == store[v].pairs
    ensures Stored(store', chain) && Flatten(store, chain) == Flatten(store', chain)
  {
    forall i | 0 <= i < |chain|
      ensures chain[i] in store && chain[i] in store' && store'[chain[i]].pairs == store[chain[i]].pairs
    {
      var v := chain[i];
      assert v in chain && v in store;
    }
    FlattenAgree(store, store', chain);
  }

  /** The contents around the leaf at position `i`. */
  lemma FlattenAt(store: map<int, Node>, chain: seq<int>, i: nat)
    requires Stored(store, chain) && i < |chain|
    ensures Stored(store, chain[..i]) && Stored(store, chain[i + 1..])
    ensures Flatten(store, chain) ==
            Flatten(store, chain[..i]) + store[chain[i]].pairs + Flatten(store, chain[i + 1..])
  {
    assert chain == chain[..i] + chain[i..];
    FlattenConcat(store, chain[..i], chain[i..]);
    assert chain[i..][1..] == chain[i + 1..];
  }

  lemma BelowGrows(c: seq<Pair>, c': seq<Pair>, a: int, b: int)
    requires Below(c, a, b) && KeyCount(c, b) <= KeyCount(c', b)
    ensures Below(c', a, b)
  {
  }

  // ------------------------------------------------------------ reaching a key

  /** Node `u` is a safe place to look for keys from `l` on: nothing to its left
      is above `l`, nor equal to it unless `l` is indexed twice. */
  ghost predicate Reach(g: Shape, c: seq<Pair>, u: int, l: int)
  {
    u in g.low && (g.low[u] < l || (g.low[u] == l && KeyCount(c, l) >= 2))
  }

  /** One descent step or sibling hop keeps the reach, and never runs off the
      right end as long as the key is below the greatest key. */
  lemma SearchNextReaches(t: Tree, g: Shape, u: int, l: int)
    requires Inv(t, g) && u in t.store && !t.store[u].leaf
    requires l < MAX_KEY
    ensures var r := SearchNext(t.store[u], l);
            if r.uid != NO_UID then
              r.uid in t.store && g.level[r.uid] == g.level[u] - 1
              && (Reach(g, Contents(t, g), u, l) ==> Reach(g, Contents(t, g), r.uid, l))
              && (g.low[u] <= l ==> g.low[r.uid] <= l)
            else
              r.siblingUid in t.store && r.siblingUid == t.store[u].sibling && g.level[r.siblingUid] == g.level[u]
              && (Reach(g, Contents(t, g), u, l) ==> Reach(g, Contents(t, g), r.siblingUid, l))
              && (g.low[u] <= l ==> g.low[r.siblingUid] <= l)
  {
    assert NodeOk(t, g, Contents(t, g), u);
    var n := t.store[u];
    var k := FirstAbove(n.pairs, l);
    if 0 < k < |n.pairs| {
      var i := k - 1;
      assert Below(Contents(t, g), g.low[n.pairs[k].son], n.pairs[i].key);
    }
    if k < |n.pairs| {
      assert IsSon(g, g.level[u], n.pairs[k].son);
    }
  }

  /** The walk really needs its bound: at the right edge of a level the greatest
      key, and only that key, is sent to uid 0, which is no node. */
  lemma GreatestKeyWalksOff(t: Tree, g: Shape, u: int, l: int)
    requires Inv(t, g) && u in t.store && !t.store[u].leaf && t.store[u].sibling == NO_UID
    requires l <= MAX_KEY
    ensures SearchNext(t.store[u], l) == SearchNextRes(NO_UID, NO_UID) <==> l == 0x7FFF_FFFF_FFFF_FFFF
  {
    assert NodeOk(t, g, Contents(t, g), u);
    var n := t.store[u];
    var k := FirstAbove(n.pairs, l);
    if k < |n.pairs| {
      assert IsSon(g, g.level[u], n.pairs[k].son);
      assert n.pairs[k].key <= Last(n);
    }
  }

  // ------------------------------------------------------------ order of leaves

  /** One leaf: sorted, and fenced from below. */
  ghost predicate RowItem(store: map<int, Node>, low: map<int, int>, u: int) {
    && u in store && u in low
    && Sorted(store[u].pairs)
    && forall k | 0 <= k < |store[u].pairs| :: low[u] <= store[u].pairs[k].key
  }

  /** Two neighbouring leaves: the right fence is the last key on the left. */
  ghost predicate Adjacent(store: map<int, Node>, low: map<int, int>, u: int, v: int) {
    u in store && v in low && |store[u].pairs| > 0 && low[v] == Last(store[u])
  }

  ghost predicate Row(store: map<int, Node>, low: map<int, int>, chain: seq<int>) {
    && Stored(store, chain)
    && (forall i | 0 <= i < |chain| :: RowItem(store, low, chain[i]))
    && (forall i, j | 0 <= i && j == i + 1 && j < |chain| :: Adjacent(store, low, chain[i], chain[j]))
  }

  /** A leaf without a right sibling stands last. */
  lemma LastLeaf(t: Tree, g: Shape, i: nat)
    requires ChainOk(t, g) && NO_UID !in t.store && i < |g.chain| && t.store[g.chain[i]].sibling == NO_UID
    ensures i + 1 == |g.chain|
  {
    if i + 1 < |g.chain| {
      HasSibling(t, g, i);
    }
  }

  lemma HasSibling(t: Tree, g: Shape, i: nat)
    requires ChainOk(t, g) && NO_UID !in t.store && i + 1 < |g.chain|
    ensures t.store[g.chain[i]].sibling == g.chain[i + 1] != NO_UID
  {
    var j := i + 1;
    assert t.store[g.chain[i]].sibling == g.chain[j];
  }

  lemma LeavesFormRow(t: Tree, g: Shape)
    requires Inv(t, g)
    ensures Row(t.store, g.low, g.chain)
  {
    forall i | 0 <= i < |g.chain| ensures RowItem(t.store, g.low, g.chain[i]) {
      assert NodeOk(t, g, Contents(t, g), g.chain[i]);
    }
    forall i, j | 0 <= i && j == i + 1 && j < |g.chain| ensures Adjacent(t.store, g.low, g.chain[i], g.chain[j]) {
      assert NodeOk(t, g, Contents(t, g), g.chain[i]);
    }
  }

  lemma RowPrefix(store: map<int, Node>, low: map<int, int>, chain: seq<int>, j: nat)
    requires Row(store, low, chain) && j <= |chain|
    ensures Row(store, low, chain[..j])
  {
  }

  /** Everything left of a leaf is at most its low fence. */
  lemma {:induction false} PrefixUnderFence(store: map<int, Node>, low: map<int, int>, chain: seq<int>)
    requires Row(store, low, chain) && |chain| > 0
    ensures Stored(store, chain[..|chain| - 1])
    ensures forall p | p in Flatten(store, chain[..|chain| - 1]) :: p.key <= low[chain[|chain| - 1]]
  {
    var n := |chain| - 1;
    if n > 0 {
      var pre := chain[..n];
      PrefixUnderFence(store, low, pre);
      FlattenAt(store, pre, n - 1);
      var before := Flatten(store, pre[..n - 1]);
      var ps := store[chain[n - 1]].pairs;
      assert Flatten(store, pre) == before + ps;
      assert RowItem(store, low, chain[n - 1]);
      assert Adjacent(store, low, chain[n - 1], chain[n]);
      forall p: Pair | p in before + ps ensures p.key <= low[chain[n]] {
        if p in before {
          assert p.key <= low[chain[n - 1]] <= ps[0].key;
        } else {
          var k :| 0 <= k < |ps| && ps[k] == p;
        }
      }
    }
  }

  /** The leaves hold one sorted list. */
  lemma {:induction false} RowSorted(store: map<int, Node>, low: map<int, int>, chain: seq<int>)
    requires Row(store, low, chain)
    ensures Sorted(Flatten(store, chain))
  {
    if chain != [] {
      var n := |chain| - 1;
      RowSorted(store, low, chain[..n]);
      PrefixUnderFence(store, low, chain);
      FlattenAt(store, chain, n);
      assert Flatten(store, chain) == Flatten(store, chain[..n]) + store[chain[n]].pairs;
      var before := Flatten(store, chain[..n]);
      forall i | 0 <= i < |before| ensures before[i].key <= low[chain[n]] {
        assert before[i] in before;
      }
      assert RowItem(store, low, chain[n]);
      SortedConcat(before, store[chain[n]].pairs, low[chain[n]]);
    }
  }

  lemma ContentsSorted(t: Tree, g: Shape)
    requires Inv(t, g)
    ensures Sorted(Contents(t, g))
  {
    LeavesFormRow(t, g);
    RowSorted(t.store, g.low, g.chain);
  }

  // ------------------------------------------------------------ one-node changes

  ghost predicate Grows(c: seq<Pair>, c': seq<Pair>) {
    forall v :: KeyCount(c, v) <= KeyCount(c', v)
  }

  lemma InsertGrows(c: seq<Pair>, pos: nat, p: Pair)
    requires pos <= |c|
    ensures Grows(c, c[..pos] + [p] + c[pos..])
  {
    forall v ensures KeyCount(c, v) <= KeyCount(c[..pos] + [p] + c[pos..], v) {
      assert c == c[..pos] + c[pos..];
      KeyCountConcat(c[..pos], c[pos..], v);
      KeyCountConcat(c[..pos] + [p], c[pos..], v);
      KeyCountConcat(c[..pos], [p], v);
    }
  }

  /** Nodes that a step does not touch stay well-formed. */
  lemma NodeOkFrame(t: Tree, g: Shape, c: seq<Pair>, t': Tree, g': Shape, c': seq<Pair>, u: int)
    requires t.store.Keys == g.low.Keys == g.level.Keys
    requires t'.store.Keys == g'.low.Keys == g'.level.Keys
    requires u in t.store && NodeOk(t, g, c, u)
    requires t.store.Keys <= t'.store.Keys && t'.store[u] == t.store[u]
    requires forall v | v in t.store :: g'.low[v] == g.low[v] && g'.level[v] == g.level[v]
    requires Grows(c, c')
    ensures NodeOk(t', g', c', u)
  {
    var n := t.store[u];
    if !n.leaf {
      var ps := n.pairs;
      forall i, j | 0 <= i && j == i + 1 && j < |ps| ensures Below(c', g'.low[ps[j].son], ps[i].key) {
        assert IsSon(g, g.level[u], ps[j].son);
        assert Below(c, g.low[ps[j].son], ps[i].key);
      }
      forall i | 0 <= i < |ps| ensures IsSon(g', g'.level[u], ps[i].son) {
        assert IsSon(g, g.level[u], ps[i].son);
      }
    }
  }

  lemma AllOkFrame(t: Tree, g: Shape, c: seq<Pair>, t': Tree, g': Shape, c': seq<Pair>, changed: set<int>)
    requires t.store.Keys == g.low.Keys == g.level.Keys
    requires t'.store.Keys == g'.low.Keys == g'.level.Keys
    requires t.store.Keys <= t'.store.Keys <= t.store.Keys + changed
    requires forall v | v in t.store :: g'.low[v] == g.low[v] && g'.level[v] == g.level[v]
    requires forall v | v in t.store && v !in changed :: t'.store[v] == t.store[v]
    requires Grows(c, c') && AllOk(t, g, c)
    requires forall v | v in changed && v in t'.store :: NodeOk(t', g', c', v)
    ensures AllOk(t', g', c')
  {
    forall v | v in t'.store ensures NodeOk(t', g', c', v) {
      if v !in changed {
        assert NodeOk(t, g, c, v);
        NodeOkFrame(t, g, c, t', g', c', v);
      }
    }
  }

  /** The pending insertion (uid, key) belongs at node `u` or to its right. */
  ghost predicate Placeable(t: Tree, g: Shape, u: int, uid: int, key: int)
    requires Inv(t, g)
  {
    && u in t.store && key < MAX_KEY
    && if t.store[u].leaf then g.low[u] <= key
       else uid in t.store && g.level[uid] == g.level[u] - 1 && Below(Contents(t, g), g.low[uid], key)
  }

  /** At a placeable node the insertion is defined, and when the node declines,
      its right sibling exists and is placeable in turn. */
  lemma PlaceableMovesRight(t: Tree, g: Shape, u: int, uid: int, key: int)
    requires Inv(t, g) && Placeable(t, g, u, uid, key)
    ensures Accepts(t.store[u], key)
    ensures InsertPair(t.store[u], uid, key).None? ==>
              && Placeable(t, g, t.store[u].sibling, uid, key)
              && g.level[t.store[u].sibling] == g.level[u]
  {
    assert NodeOk(t, g, Contents(t, g), u);
    var n := t.store[u];
    if InsertPair(n, uid, key).None? {
      assert NodeOk(t, g, Contents(t, g), n.sibling);
    }
  }

  function Update(t: Tree, u: int, n: Node): Tree {
    t.(store := t.store[u := n])
  }

  /** The slots stay well-formed with one more son whose fence fits. */
  lemma SonsTakeOne(g: Shape, c: seq<Pair>, level: int, fence: int, ps: seq<Pair>, k: nat, uid: int, key: int)
    requires SonsOk(g, c, level, fence, ps) && k < |ps|
    requires IsSon(g, level, uid) && Below(c, g.low[uid], key) && key < MAX_KEY
    ensures SonsOk(g, c, level, fence, ps[..k] + [Pair(ps[k].son, key), Pair(uid, ps[k].key)] + ps[k + 1..])
  {
    var ps' := ps[..k] + [Pair(ps[k].son, key), Pair(uid, ps[k].key)] + ps[k + 1..];
    forall i, j | 0 <= i && j == i + 1 && j < |ps'| ensures Below(c, g.low[ps'[j].son], ps'[i].key) {
      if j <= k {
        assert ps'[i].key == ps[i].key && ps'[j].son == ps[j].son;
      } else if j > k + 1 {
        assert ps'[i].key == ps[i - 1].key && ps'[j].son == ps[j - 1].son;
      }
    }
  }

  /** An internal node stays well-formed with one more son whose fence fits. */
  lemma InnerTakesSon(t: Tree, g: Shape, c: seq<Pair>, u: int, uid: int, key: int, n': Node)
    requires t.store.Keys == g.low.Keys == g.level.Keys
    requires u in t.store && NodeOk(t, g, c, u) && !t.store[u].leaf
    requires uid in t.store && g.level[uid] == g.level[u] - 1 && Below(c, g.low[uid], key) && key < MAX_KEY
    requires Accepts(t.store[u], key) && InsertPair(t.store[u], uid, key) == Some(n')
    ensures NodeOk(Update(t, u, n'), g, c, u)
  {
    var n := t.store[u];
    InsertKeepsSorted(n, uid, key);
    InsertKeepsLastKey(n, uid, key);
    SonsTakeOne(g, c, g.level[u], g.low[u], n.pairs, FirstAtLeast(n.pairs, key), uid, key);
  }

  /** A leaf stays well-formed with one more pair above its fence. */
  lemma LeafTakesPair(t: Tree, g: Shape, c: seq<Pair>, c': seq<Pair>, u: int, uid: int, key: int, n': Node)
    requires t.store.Keys == g.low.Keys == g.level.Keys
    requires u in t.store && NodeOk(t, g, c, u) && t.store[u].leaf
    requires g.low[u] <= key < MAX_KEY
    requires InsertPair(t.store[u], uid, key) == Some(n')
    ensures NodeOk(Update(t, u, n'), g, c', u)
  {
    var n := t.store[u];
    InsertKeepsSorted(n, uid, key);
    if n.sibling != NO_UID {
      InsertKeepsLastKey(n, uid, key);
    }
  }

  /** Replacing one node by a well-formed one of the same kind keeps the
      invariant, provided the contents only grow. */
  lemma UpdateKeepsInv(t: Tree, g: Shape, u: int, n': Node)
    requires Inv(t, g) && u in t.store
    requires n'.leaf == t.store[u].leaf && n'.sibling == t.store[u].sibling
    requires Stored(Update(t, u, n').store, g.chain)
    requires Grows(Contents(t, g), Contents(Update(t, u, n'), g))
    requires NodeOk(Update(t, u, n'), g, Contents(Update(t, u, n'), g), u)
    ensures Inv(Update(t, u, n'), g)
  {
    var t' := Update(t, u, n');
    var c, c' := Contents(t, g), Contents(t', g);
    AllOkFrame(t, g, c, t', g, c', {u});
    assert ChainOk(t', g);
  }

  /** An internal node takes a new son: the contents do not change. */
  lemma InsertInner(t: Tree, g: Shape, u: int, uid: int, key: int, n': Node)
    requires Inv(t, g) && Placeable(t, g, u, uid, key) && !t.store[u].leaf
    requires Accepts(t.store[u], key) && InsertPair(t.store[u], uid, key) == Some(n')
    ensures Inv(Update(t, u, n'), g) && Contents(Update(t, u, n'), g) == Contents(t, g)
  {
    FlattenFrame(t.store, Update(t, u, n').store, g.chain);
    InnerTakesSon(t, g, Contents(t, g), u, uid, key, n');
    UpdateKeepsInv(t, g, u, n');
  }

  /** The chain around one leaf. */
  lemma ChainAround(chain: seq<int>, u: int) returns (a: seq<int>, b: seq<int>)
    requires u in chain
    ensures chain == a + [u] + b
  {
    var i :| 0 <= i < |chain| && chain[i] == u;
    a, b := chain[..i], chain[i + 1..];
  }

  lemma FlattenMid(store: map<int, Node>, a: seq<int>, mid: seq<int>, b: seq<int>)
    requires Stored(store, a) && Stored(store, mid) && Stored(store, b)
    ensures Stored(store, a + mid + b)
    ensures Flatten(store, a + mid + b) == Flatten(store, a) + Flatten(store, mid) + Flatten(store, b)
  {
    FlattenConcat(store, a, mid);
    FlattenConcat(store, a + mid, b);
  }

  lemma FlattenOne(store: map<int, Node>, u: int)
    requires Stored(store, [u])
    ensures [u][0] == u && u in store && Flatten(store, [u]) == store[u].pairs
  {
    assert [u][0] == u;
  }

  lemma FlattenTwo(store: map<int, Node>, u: int, v: int)
    requires Stored(store, [u]) && Stored(store, [v])
    ensures u in store && v in store && Stored(store, [u, v])
    ensures Flatten(store, [u, v]) == store[u].pairs + store[v].pairs
  {
    FlattenConcat(store, [u], [v]);
    FlattenOne(store, u);
    FlattenOne(store, v);
    assert [u] + [v] == [u, v];
  }

  /** The contents around one leaf. */
  lemma FlattenAround(store: map<int, Node>, a: seq<int>, u: int, b: seq<int>)
    requires Stored(store, a) && Stored(store, [u]) && Stored(store, b)
    ensures Stored(store, a + [u] + b) && u in store
    ensures Flatten(store, a + [u] + b) == Flatten(store, a) + store[u].pairs + Flatten(store, b)
  {
    FlattenOne(store, u);
    FlattenMid(store, a, [u], b);
  }

  lemma StoredParts(store: map<int, Node>, a: seq<int>, mid: seq<int>, b: seq<int>)
    requires Stored(store, a + mid + b)
    ensures Stored(store, a) && Stored(store, mid) && Stored(store, b)
  {
    var chain := a + mid + b;
    forall i | 0 <= i < |a| ensures a[i] in store { assert chain[i] == a[i]; }
    forall i | 0 <= i < |mid| ensures mid[i] in store { assert chain[|a| + i] == mid[i]; }
    forall i | 0 <= i < |b| ensures b[i] in store { assert chain[|a| + |mid| + i] == b[i]; }
  }

  lemma DistinctAround(a: seq<int>, u: int, b: seq<int>)
    requires Distinct(a + [u] + b)
    ensures u !in a && u !in b
  {
    var chain := a + [u] + b;
    assert chain[|a|] == u;
    forall i | 0 <= i < |a| ensures a[i] != u { assert chain[i] == a[i]; }
    forall i | 0 <= i < |b| ensures b[i] != u { assert chain[|a| + 1 + i] == b[i]; }
  }

  lemma Splice(a: seq<Pair>, ps: seq<Pair>, b: seq<Pair>, k: nat, p: Pair)
    requires k <= |ps|
    ensures a + (ps[..k] + [p] + ps[k..]) + b == (a + ps + b)[..|a| + k] + [p] + (a + ps + b)[|a| + k..]
  {
    var c := a + ps + b;
    assert c[..|a| + k] == a + ps[..k];
    assert c[|a| + k..] == ps[k..] + b;
  }

  lemma ContentsAfterInsert(store: map<int, Node>, store': map<int, Node>, a: seq<int>, u: int, b: seq<int>, k: nat, p: Pair)
    requires Stored(store, a + [u] + b) && Distinct(a + [u] + b) && u in store && k <= |store[u].pairs|
    requires u in store' && store'[u].leaf && store'[u].pairs == store[u].pairs[..k] + [p] + store[u].pairs[k..]
    requires forall v | v in store && v != u :: v in store' && store'[v] == store[v]
    ensures Stored(store', a + [u] + b) && Stored(store, a)
    ensures var c, pos := Flatten(store, a + [u] + b), |Flatten(store, a)| + k;
            pos <= |c| && Flatten(store', a + [u] + b) == c[..pos] + [p] + c[pos..]
  {
    StoredParts(store, a, [u], b);
    DistinctAround(a, u, b);
    FlattenAround(store, a, u, b);
    FlattenFrame(store, store', a);
    FlattenFrame(store, store', b);
    FlattenAround(store', a, u, b);
    Splice(Flatten(store, a), store[u].pairs, Flatten(store, b), k, p);
  }

  /** A leaf takes a new pair: the contents gain it. */
  lemma InsertLeaf(t: Tree, g: Shape, u: int, uid: int, key: int, n': Node) returns (pos: nat)
    requires Inv(t, g) && Placeable(t, g, u, uid, key) && t.store[u].leaf
    requires InsertPair(t.store[u], uid, key) == Some(n')
    ensures Inv(Update(t, u, n'), g)
    ensures pos <= |Contents(t, g)|
    ensures Contents(Update(t, u, n'), g) == Contents(t, g)[..pos] + [Pair(uid, key)] + Contents(t, g)[pos..]
  {
    var a, b := ChainAround(g.chain, u);
    var k := FirstAtLeast(t.store[u].pairs, key);
    ContentsAfterInsert(t.store, Update(t, u, n').store, a, u, b, k, Pair(uid, key));
    pos := |Flatten(t.store, a)| + k;
    var c, c' := Contents(t, g), Contents(Update(t, u, n'), g);
    InsertGrows(c, pos, Pair(uid, key));
    LeafTakesPair(t, g, c, c', u, uid, key, n');
    UpdateKeepsInv(t, g, u, n');
  }

  // ----------------------------------------------------------------- splitting

  function SplitTree(t: Tree, u: int, right: int): Tree
    requires u in t.store && NeedSplit(t.store[u])
  {
    var s := SplitNode(t.store[u], right);
    t.(store := t.store[u := s.left][right := s.right])
  }

  /** The new node's fence: for a leaf the last key kept on the left, for an
      internal node the fence of its first son. */
  ghost function SplitFence(g: Shape, n: Node): int
    requires NeedSplit(n)
    requires !n.leaf ==> n.pairs[BALANCE_NUMBER].son in g.low
  {
    if n.leaf then n.pairs[BALANCE_NUMBER - 1].key else g.low[n.pairs[BALANCE_NUMBER].son]
  }

  /** `a` and `b` are the leaves on either side; internal nodes ignore them. */
  ghost function SplitShape(g: Shape, u: int, n: Node, right: int, a: seq<int>, b: seq<int>): Shape
    requires u in g.level && NeedSplit(n)
    requires !n.leaf ==> n.pairs[BALANCE_NUMBER].son in g.low
  {
    Shape(g.low[right := SplitFence(g, n)], g.level[right := g.level[u]],
          if n.leaf then a + [u, right] + b else g.chain)
  }

  ghost predicate Extends(g: Shape, g': Shape) {
    && (forall u | u in g.low :: u in g'.low && g'.low[u] == g.low[u])
    && (forall u | u in g.level :: u in g'.level && g'.level[u] == g.level[u])
  }

  /** Both halves of an internal node's slots are well-formed. */
  lemma SonsSplit(g: Shape, g': Shape, c: seq<Pair>, level: int, fence: int, ps: seq<Pair>, k: nat)
    requires SonsOk(g, c, level, fence, ps) && 0 < k < |ps| && Extends(g, g')
    ensures SonsOk(g', c, level, fence, ps[..k])
    ensures IsSon(g, level, ps[k].son) && SonsOk(g', c, level, g.low[ps[k].son], ps[k..])
    ensures Below(c, g.low[ps[k].son], ps[k - 1].key)
  {
    var left, right := ps[..k], ps[k..];
    forall i | 0 <= i < |left| ensures IsSon(g', level, left[i].son) {
      assert IsSon(g, level, ps[i].son);
    }
    forall i | 0 <= i < |right| ensures IsSon(g', level, right[i].son) {
      assert IsSon(g, level, ps[k + i].son);
    }
    forall i, j | 0 <= i && j == i + 1 && j < |left| ensures Below(c, g'.low[left[j].son], left[i].key) {
      assert IsSon(g, level, ps[j].son);
      assert Below(c, g.low[ps[j].son], ps[i].key);
    }
    forall i, j | 0 <= i && j == i + 1 && j < |right| ensures Below(c, g'.low[right[j].son], right[i].key) {
      assert IsSon(g, level, ps[k + j].son);
      assert Below(c, g.low[ps[k + j].son], ps[k + i].key);
    }
    assert IsSon(g, level, ps[0].son);
    var i := k - 1;
    assert Below(c, g.low[ps[k].son], ps[i].key);
  }

  /** After a split both nodes are well-formed and the key sent to the parent
      stands over the new node's fence. */
  lemma SplitNodes(t: Tree, g: Shape, c: seq<Pair>, u: int, right: int, a: seq<int>, b: seq<int>)
    requires t.store.Keys == g.low.Keys == g.level.Keys
    requires u in t.store && NeedSplit(t.store[u]) && NodeOk(t, g, c, u)
    requires right !in t.store && right != NO_UID
    requires t.store[u].leaf ==> forall v :: KeyCount(t.store[u].pairs, v) <= KeyCount(c, v)
    ensures !t.store[u].leaf ==> t.store[u].pairs[BALANCE_NUMBER].son in g.low
    ensures var t', g' := SplitTree(t, u, right), SplitShape(g, u, t.store[u], right, a, b);
            && NodeOk(t', g', c, u) && NodeOk(t', g', c, right)
            && Below(c, g'.low[right], SplitNode(t.store[u], right).newKey)
            && SplitNode(t.store[u], right).newKey < MAX_KEY
  {
    var n := t.store[u];
    var k := BALANCE_NUMBER;
    if n.leaf {
      assert n.pairs[k - 1].key <= n.pairs[k].key;
      if n.pairs[k - 1].key == n.pairs[k].key {
        KeyCountTwice(n.pairs, k - 1, k);
      }
    } else {
      assert IsSon(g, g.level[u], n.pairs[k].son);
      SonsSplit(g, SplitShape(g, u, n, right, a, b), c, g.level[u], g.low[u], n.pairs, k);
      assert n.pairs[k - 1].key <= n.pairs[k].key;
    }
  }

  /** Splitting a leaf leaves the contents as they are. */
  lemma SplitContents(store: map<int, Node>, store': map<int, Node>, a: seq<int>, u: int, right: int, b: seq<int>)
    requires Stored(store, a + [u] + b) && u in store
    requires Stored(store', a) && Stored(store', [u]) && Stored(store', [right]) && Stored(store', b)
    requires u in store' && right in store' && store'[u].pairs + store'[right].pairs == store[u].pairs
    requires forall v | v in a || v in b :: v in store' && v in store && store'[v] == store[v]
    ensures Stored(store', a + [u, right] + b)
    ensures Flatten(store', a + [u, right] + b) == Flatten(store, a + [u] + b)
  {
    StoredParts(store, a, [u], b);
    FlattenAround(store, a, u, b);
    FlattenFrame(store, store', a);
    FlattenFrame(store, store', b);
    FlattenTwo(store', u, right);
    FlattenMid(store', a, [u, right], b);
  }

  /** A leaf's keys are among the contents. */
  lemma LeafCounts(store: map<int, Node>, a: seq<int>, u: int, b: seq<int>)
    requires Stored(store, a + [u] + b) && u in store
    ensures forall v :: KeyCount(store[u].pairs, v) <= KeyCount(Flatten(store, a + [u] + b), v)
  {
    StoredParts(store, a, [u], b);
    FlattenAround(store, a, u, b);
    forall v ensures KeyCount(store[u].pairs, v) <= KeyCount(Flatten(store, a + [u] + b), v) {
      KeyCountConcat(Flatten(store, a) + store[u].pairs, Flatten(store, b), v);
      KeyCountConcat(Flatten(store, a), store[u].pairs, v);
    }
  }

  /** The chain after a split: the new leaf stands right after the old one. */
  lemma SplitLinks(store: map<int, Node>, store': map<int, Node>, a: seq<int>, u: int, right: int, b: seq<int>)
    requires Links(store, a + [u] + b) && right !in store
    requires Stored(store', a + [u, right] + b)
    requires u in store && u in store' && right in store'
    requires store'[u].sibling == right && store'[right].sibling == store[u].sibling
    requires forall v | v in a || v in b :: v in store' && v in store && store'[v] == store[v]
    ensures Links(store', a + [u, right] + b)
  {
    var chain, chain' := a + [u] + b, a + [u, right] + b;
    var k := |a|;
    assert forall i | 0 <= i < k :: chain'[i] == chain[i] && chain[i] in a;
    assert chain[k] == u && chain'[k] == u && chain'[k + 1] == right;
    assert forall i | k + 1 < i < |chain'| :: chain'[i] == chain[i - 1] && chain[i - 1] in b;
    forall i, j | 0 <= i && j == i + 1 && j < |chain'| ensures store'[chain'[i]].sibling == chain'[j] {
      if i < k {
        assert store[chain[i]].sibling == chain[j];
      } else if i > k {
        assert store[chain[i - 1]].sibling == chain[j - 1];
      }
    }
    assert store[chain[|chain| - 1]].sibling == NO_UID;
  }

  lemma SplitRow(t: Tree, t': Tree, a: seq<int>, u: int, right: int, b: seq<int>)
    requires Links(t.store, a + [u] + b) && u in t.store && NeedSplit(t.store[u])
    requires right !in t.store && right != NO_UID && t' == SplitTree(t, u, right)
    ensures Links(t'.store, a + [u, right] + b)
    ensures Flatten(t'.store, a + [u, right] + b) == Flatten(t.store, a + [u] + b)
  {
    StoredParts(t.store, a, [u], b);
    DistinctAround(a, u, b);
    SplitContents(t.store, t'.store, a, u, right, b);
    SplitLinks(t.store, t'.store, a, u, right, b);
  }

  lemma SplitChain(t: Tree, g: Shape, u: int, right: int, a: seq<int>, b: seq<int>)
    requires ChainOk(t, g) && u in t.store && NeedSplit(t.store[u]) && t.store[u].leaf && u in g.level
    requires right !in t.store && right != NO_UID && g.chain == a + [u] + b
    ensures var t', g' := SplitTree(t, u, right), SplitShape(g, u, t.store[u], right, a, b);
            ChainOk(t', g') && Contents(t', g') == Contents(t, g)
  {
    SplitLeaves(t, a, u, right, b);
    hide Links, Flatten, SplitTree, SplitNode;
    SplitRow(t, SplitTree(t, u, right), a, u, right, b);
  }

  lemma SplitLeaves(t: Tree, a: seq<int>, u: int, right: int, b: seq<int>)
    requires u in t.store && NeedSplit(t.store[u]) && t.store[u].leaf && right !in t.store
    requires forall v | v in t.store :: t.store[v].leaf <==> v in a + [u] + b
    ensures var t' := SplitTree(t, u, right); forall v | v in t'.store :: t'.store[v].leaf <==> v in a + [u, right] + b
  {
    SplitMembers(a, u, right, b);
  }

  lemma SplitMembers(a: seq<int>, u: int, right: int, b: seq<int>)
    ensures forall v :: v in a + [u, right] + b <==> v in a + [u] + b || v == right
  {
    assert (a + [u, right])[|a| + 1] == right;
    forall v ensures v in a + [u, right] + b <==> v in a + [u] + b || v == right {
      assert v in a + [u, right] + b <==> v in a || v in [u, right] || v in b;
      assert v in a + [u] + b <==> v in a || v in [u] || v in b;
    }
  }

  /** The parts of the invariant that look at no node's pairs. */
  lemma SplitKeys(t: Tree, g: Shape, u: int, right: int, a: seq<int>, b: seq<int>)
    requires t.store.Keys == g.low.Keys == g.level.Keys && NO_UID !in t.store
    requires t.root in t.store && g.low[t.root] == NEG_INF
    requires u in t.store && NeedSplit(t.store[u]) && right !in t.store && right != NO_UID
    requires !t.store[u].leaf ==> t.store[u].pairs[BALANCE_NUMBER].son in g.low
    ensures var t', g' := SplitTree(t, u, right), SplitShape(g, u, t.store[u], right, a, b);
            && t'.store.Keys == g'.low.Keys == g'.level.Keys && NO_UID !in t'.store
            && t'.root in t'.store && g'.low[t'.root] == NEG_INF && Extends(g, g')
  {
  }

  lemma SplitAllOk(t: Tree, g: Shape, c: seq<Pair>, u: int, right: int, a: seq<int>, b: seq<int>)
    requires t.store.Keys == g.low.Keys == g.level.Keys
    requires u in t.store && NeedSplit(t.store[u]) && AllOk(t, g, c)
    requires right !in t.store && right != NO_UID
    requires t.store[u].leaf ==> forall v :: KeyCount(t.store[u].pairs, v) <= KeyCount(c, v)
    ensures !t.store[u].leaf ==> t.store[u].pairs[BALANCE_NUMBER].son in g.low
    ensures var t', g' := SplitTree(t, u, right), SplitShape(g, u, t.store[u], right, a, b);
            && AllOk(t', g', c)
            && Below(c, g'.low[right], SplitNode(t.store[u], right).newKey)
            && SplitNode(t.store[u], right).newKey < MAX_KEY
  {
    assert NodeOk(t, g, c, u);
    SplitNodes(t, g, c, u, right, a, b);
    assert Grows(c, c);
    AllOkFrame(t, g, c, SplitTree(t, u, right), SplitShape(g, u, t.store[u], right, a, b), c, {u, right});
  }

  /** Splitting keeps the invariant and the contents, and hands the parent a son
      that it can place. */
  lemma SplitKeepsInv(t: Tree, g: Shape, u: int, right: int, a: seq<int>, b: seq<int>)
    requires Inv(t, g) && u in t.store && NeedSplit(t.store[u])
    requires right !in t.store && right != NO_UID
    requires t.store[u].leaf ==> g.chain == a + [u] + b
    ensures !t.store[u].leaf ==> t.store[u].pairs[BALANCE_NUMBER].son in g.low
    ensures var t', g' := SplitTree(t, u, right), SplitShape(g, u, t.store[u], right, a, b);
            && Inv(t', g') && Contents(t', g') == Contents(t, g) && Extends(g, g')
            && Below(Contents(t', g'), g'.low[right], SplitNode(t.store[u], right).newKey)
            && SplitNode(t.store[u], right).newKey < MAX_KEY
  {
    if t.store[u].leaf {
      LeafCounts(t.store, a, u, b);
      SplitChain(t, g, u, right, a, b);
    } else {
      SplitInnerChain(t, g, u, right);
    }
    hide AllOk, ChainOk, SplitTree, SplitNode, Grows, Flatten, KeyCount, Below;
    SplitAllOk(t, g, Contents(t, g), u, right, a, b);
    SplitKeys(t, g, u, right, a, b);
    var t', g' := SplitTree(t, u, right), SplitShape(g, u, t.store[u], right, a, b);
    InvOf(t', g', Contents(t, g));
  }

  lemma InvOf(t: Tree, g: Shape, c: seq<Pair>)
    requires t.store.Keys == g.low.Keys == g.level.Keys && NO_UID !in t.store
    requires t.root in t.store && g.low[t.root] == NEG_INF
    requires ChainOk(t, g) && Contents(t, g) == c && AllOk(t, g, c)
    ensures Inv(t, g)
  {
  }

  lemma SplitInnerChain(t: Tree, g: Shape, u: int, right: int)
    requires ChainOk(t, g) && u in t.store && NeedSplit(t.store[u]) && !t.store[u].leaf && right !in t.store
    ensures var t' := SplitTree(t, u, right); ChainOk(t', g) && Contents(t', g) == Contents(t, g)
  {
    FlattenFrame(t.store, SplitTree(t, u, right).store, g.chain);
  }

  // --------------------------------------------------------------- root growth

  function GrowTree(t: Tree, left: int, right: int, key: int, root: int): Tree {
    Tree(t.store[root := NewRoot(left, right, key)], root)
  }

  ghost function GrowShape(g: Shape, left: int, root: int): Shape
    requires left in g.level
  {
    Shape(g.low[root := NEG_INF], g.level[root := g.level[left] + 1], g.chain)
  }

  /** A new root over a former root and the node split from it, whatever the
      root is by now: two inserts may both have split the same former root. */
  lemma GrowKeepsInv(t: Tree, g: Shape, left: int, right: int, key: int, root: int)
    requires Inv(t, g) && left in t.store && right in t.store
    requires g.low[left] == NEG_INF && g.level[right] == g.level[left] && key < MAX_KEY
    requires Below(Contents(t, g), g.low[right], key)
    requires root !in t.store && root != NO_UID
    ensures var t', g' := GrowTree(t, left, right, key, root), GrowShape(g, left, root);
            Inv(t', g') && Contents(t', g') == Contents(t, g) && Extends(g, g')
  {
    var t', g' := GrowTree(t, left, right, key, root), GrowShape(g, left, root);
    var c := Contents(t, g);
    FlattenFrame(t.store, t'.store, g.chain);
    assert Grows(c, c);
    assert NodeOk(t, g, c, left);
    GrownRootOk(t', g', c, left, right, key, root);
    AllOkFrame(t, g, c, t', g', c, {root});
    assert ChainOk(t', g');
  }

  lemma GrownRootOk(t: Tree, g: Shape, c: seq<Pair>, left: int, right: int, key: int, root: int)
    requires t.store.Keys == g.low.Keys == g.level.Keys
    requires left in t.store && right in t.store && root in t.store
    requires t.store[root] == NewRoot(left, right, key) && key < MAX_KEY
    requires g.low[left] == g.low[root] && Below(c, g.low[right], key)
    requires g.level[left] >= 0 && g.level[right] == g.level[left] && g.level[root] == g.level[left] + 1
    ensures NodeOk(t, g, c, root)
  {
    var ps := t.store[root].pairs;
    assert IsSon(g, g.level[root], ps[0].son) && IsSon(g, g.level[root], ps[1].son);
  }

  // -------------------------------------------------------------- the empty tree

  ghost function NilShape(root: int): Shape {
    Shape(map[root := NEG_INF], map[root := 0], [root])
  }

  lemma NilTreeOk(root: int)
    requires root != NO_UID
    ensures var t, g := Tree(map[root := NilRoot()], root), NilShape(root);
            Inv(t, g) && Contents(t, g) == []
  {
    var t, g := Tree(map[root := NilRoot()], root), NilShape(root);
    FlattenOne(t.store, root);
    assert NodeOk(t, g, [], root);
  }
}
