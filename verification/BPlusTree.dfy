/** The index object: its loops and recursion, run one call at a time. The data
    manager appears as a map of nodes with a fresh uid for every new item. */
module BPlusTreeIndex {
  import opened BLinkNode
  import opened BLinkTree
  import opened BLinkLevels

  /** The pairs whose keys lie in a range, in their order. */
  ghost function Select(ps: seq<Pair>, left: int, right: int): seq<Pair> {
    if ps == [] then [] else (if InRange(ps[0], left, right) then [ps[0]] else []) + Select(ps[1..], left, right)
  }

  lemma {:induction false} SelectConcat(a: seq<Pair>, b: seq<Pair>, left: int, right: int)
    ensures Select(a + b, left, right) == Select(a, left, right) + Select(b, left, right)
  {
    if a == [] {
      assert a + b == b;
    } else {
      SelectFirst(a, left, right);
      SelectFirst(a + b, left, right);
      hide Select;
      assert (a + b)[1..] == a[1..] + b;
      SelectConcat(a[1..], b, left, right);
    }
  }

  lemma SelectFirst(ps: seq<Pair>, left: int, right: int)
    requires ps != []
    ensures Select(ps, left, right) == (if InRange(ps[0], left, right) then [ps[0]] else []) + Select(ps[1..], left, right)
  {
  }

  lemma {:induction false} SelectAll(ps: seq<Pair>, left: int, right: int)
    requires forall i | 0 <= i < |ps| :: InRange(ps[i], left, right)
    ensures Select(ps, left, right) == ps
  {
    if ps != [] {
      SelectAll(ps[1..], left, right);
    }
  }

  lemma {:induction false} SelectNone(ps: seq<Pair>, left: int, right: int)
    requires forall i | 0 <= i < |ps| :: !InRange(ps[i], left, right)
    ensures Select(ps, left, right) == []
  {
    if ps != [] {
      SelectNone(ps[1..], left, right);
    }
  }

  /** Select keeps only pairs of the list that are in range. */
  lemma {:induction false} SelectFrom(ps: seq<Pair>, left: int, right: int)
    ensures forall p | p in Select(ps, left, right) :: p in ps && InRange(p, left, right)
  {
    if ps != [] {
      SelectFrom(ps[1..], left, right);
    }
  }

  lemma {:induction false} SelectHas(ps: seq<Pair>, left: int, right: int, p: Pair)
    ensures p in Select(ps, left, right) <==> p in ps && InRange(p, left, right)
  {
    if ps != [] {
      SelectHas(ps[1..], left, right, p);
      assert ps == [ps[0]] + ps[1..];
    }
  }

  lemma SelectBelow(ps: seq<Pair>, left: int, right: int)
    requires forall p | p in ps :: p.key < left
    ensures Select(ps, left, right) == []
  {
    forall j | 0 <= j < |ps| ensures !InRange(ps[j], left, right) {
      assert ps[j] in ps;
    }
    SelectNone(ps, left, right);
  }

  /** Reading one leaf is selecting from it. */
  lemma LeafSelects(n: Node, left: int, right: int)
    requires Sorted(n.pairs)
    ensures LeafSearchRange(n, left, right).pairs == Select(n.pairs, left, right)
  {
    var a, b := LeafSearchRangeParts(n, left, right);
    var ps := LeafSearchRange(n, left, right).pairs;
    SelectConcat(a + ps, b, left, right);
    SelectConcat(a, ps, left, right);
    SelectNone(a, left, right);
    SelectAll(ps, left, right);
    SelectNone(b, left, right);
  }

  /** Selecting from one more node of a row. */
  lemma SelectNext(store: map<int, Node>, chain: seq<int>, i: nat, left: int, right: int)
    requires i < |chain| && Stored(store, chain[..i]) && chain[i] in store
    ensures Stored(store, chain[..i + 1])
    ensures Select(Flatten(store, chain[..i + 1]), left, right) ==
            Select(Flatten(store, chain[..i]), left, right) + Select(store[chain[i]].pairs, left, right)
  {
    assert chain[..i + 1] == chain[..i] + [chain[i]];
    FlattenOne(store, chain[i]);
    FlattenConcat(store, chain[..i], [chain[i]]);
    SelectConcat(Flatten(store, chain[..i]), store[chain[i]].pairs, left, right);
  }

  /** Nodes that have nothing in range at the end of a row. */
  lemma SelectFront(store: map<int, Node>, chain: seq<int>, i: nat, left: int, right: int)
    requires Stored(store, chain) && i <= |chain|
    requires Stored(store, chain[i..]) && Select(Flatten(store, chain[i..]), left, right) == []
    ensures Stored(store, chain[..i])
    ensures Select(Flatten(store, chain), left, right) == Select(Flatten(store, chain[..i]), left, right)
  {
    assert chain == chain[..i] + chain[i..];
    FlattenConcat(store, chain[..i], chain[i..]);
    SelectConcat(Flatten(store, chain[..i]), Flatten(store, chain[i..]), left, right);
  }

  lemma SamePrefix(a: seq<Pair>, b: seq<Pair>, c: seq<Pair>)
    requires a + b == a + c
    ensures b == c
  {
    assert (a + b)[|a|..] == b && (a + c)[|a|..] == c;
  }

  function Sons(ps: seq<Pair>): (uids: seq<int>)
    ensures |uids| == |ps|
  {
    seq(|ps|, i requires 0 <= i < |ps| => ps[i].son)
  }

  lemma AddSons(a: seq<Pair>, b: seq<Pair>)
    ensures Sons(a + b) == Sons(a) + Sons(b)
  {
  }

  // ------------------------------------------------------------ the way to a leaf

  /** Where a search goes from one node. */
  function NextUid(n: Node, key: int): int {
    var r := SearchNext(n, key);
    if r.uid != NO_UID then r.uid else r.siblingUid
  }

  /** The nodes a search visits, from one node to a leaf. */
  ghost predicate Path(store: map<int, Node>, path: seq<int>, key: int) {
    && path != [] && path[0] in store
    && if store[path[0]].leaf then |path| == 1
       else |path| > 1 && path[1] == NextUid(store[path[0]], key) && Path(store, path[1..], key)
  }

  /** The stored nodes lead a search from node `u` to the leaf. */
  ghost predicate Leads(store: map<int, Node>, u: int, key: int, leaf: int) {
    exists path :: Path(store, path, key) && path[0] == u && path[|path| - 1] == leaf
  }

  lemma LeadsOn(store: map<int, Node>, u: int, key: int, leaf: int)
    requires u in store && !store[u].leaf && Leads(store, NextUid(store[u], key), key, leaf)
    ensures Leads(store, u, key, leaf)
  {
    var path :| Path(store, path, key) && path[0] == NextUid(store[u], key) && path[|path| - 1] == leaf;
    var longer := [u] + path;
    assert longer[1..] == path && longer[|longer| - 1] == leaf;
    assert Path(store, longer, key) && longer[0] == u;
  }

  lemma LeadsHere(store: map<int, Node>, u: int, key: int)
    requires u in store && store[u].leaf
    ensures Leads(store, u, key, u)
  {
    assert Path(store, [u], key) && [u][0] == u;
  }

  lemma {:induction false} PathsAgree(store: map<int, Node>, p: seq<int>, q: seq<int>, key: int)
    requires Path(store, p, key) && Path(store, q, key) && p[0] == q[0]
    ensures p == q
  {
    if !store[p[0]].leaf {
      PathsAgree(store, p[1..], q[1..], key);
      assert p == [p[0]] + p[1..] && q == [q[0]] + q[1..];
    }
  }

  ghost predicate EndsBelow(store: map<int, Node>, u: int, key: int) {
    u in store && |store[u].pairs| > 0 && Last(store[u]) < key
  }

  lemma LastOf(store: map<int, Node>, chain: seq<int>)
    requires Stored(store, chain) && |chain| > 0 && |store[chain[|chain| - 1]].pairs| > 0
    ensures exists p :: p in Flatten(store, chain) && p.key == Last(store[chain[|chain| - 1]])
  {
    var n := |chain| - 1;
    FlattenAt(store, chain, n);
    var ps := store[chain[n]].pairs;
    assert ps[|ps| - 1] in Flatten(store, chain);
  }

  /** What stands before a leaf of the row is at most the key that its fence is. */
  lemma RowBehind(store: map<int, Node>, low: map<int, int>, chain: seq<int>, i: nat, key: int)
    requires Row(store, low, chain) && i < |chain| && chain[i] in low && low[chain[i]] <= key
    ensures Stored(store, chain[..i]) && Stored(store, chain[i..])
    ensures Flatten(store, chain[..i]) + Flatten(store, chain[i..]) == Flatten(store, chain)
    ensures forall p | p in Flatten(store, chain[..i]) :: p.key <= key
    ensures (forall p | p in Flatten(store, chain[..i]) :: p.key < key) <==> i == 0 || EndsBelow(store, chain[i - 1], key)
  {
    hide Flatten;
    RowPrefix(store, low, chain, i + 1);
    assert chain[..i + 1][..i] == chain[..i];
    PrefixUnderFence(store, low, chain[..i + 1]);
    assert chain[..i] + chain[i..] == chain;
    FlattenConcat(store, chain[..i], chain[i..]);
    if i == 0 {
      FlattenNone(store);
    } else {
      assert Adjacent(store, low, chain[i - 1], chain[i]);
      LastOf(store, chain[..i]);
    }
  }

  lemma FlattenNone(store: map<int, Node>)
    ensures Flatten(store, []) == []
  {
  }

  lemma LeadsToOne(store: map<int, Node>, u: int, key: int, leaf: int, other: int)
    requires Leads(store, u, key, leaf) && Leads(store, u, key, other)
    ensures leaf == other
  {
    var p :| Path(store, p, key) && p[0] == u && p[|p| - 1] == leaf;
    var q :| Path(store, q, key) && q[0] == u && q[|q| - 1] == other;
    PathsAgree(store, p, q, key);
  }

  datatype InsertRes = InsertRes(newNode: int, newKey: int)

  class BPlusTree {
    var store: map<int, Node>
    var rootUid: int
    var nextUid: int
    ghost var g: Shape
    ghost var levels: seq<seq<int>>

    ghost function T(): Tree
      reads this
    {
      Tree(store, rootUid)
    }

    ghost predicate Base()
      reads this
    {
      Inv(T(), g) && nextUid > 0 && forall u | u in store :: u < nextUid
    }

    ghost predicate Valid()
      reads this
    {
      Base() && LevelsOk(T(), g, levels, Nothing) && SizesOk(T())
    }

    ghost function Entries(): seq<Pair>
      requires Base()
      reads this
    {
      Contents(T(), g)
    }

    constructor ()
      ensures Valid() && Entries() == []
    {
      store, rootUid, nextUid := map[1 := NilRoot()], 1, 2;
      g, levels := NilShape(1), [[1]];
      new;
      NilTreeOk(1);
      NilLevelsOk(1);
    }

    method SearchNextUid(nodeUid: int, key: int) returns (next: int)
      requires Valid() && nodeUid in store && !store[nodeUid].leaf && NEG_INF < key < MAX_KEY
      ensures next in store && g.level[next] == g.level[nodeUid] - 1
      ensures g.low[nodeUid] <= key ==> g.low[next] <= key
      ensures Reach(g, Entries(), nodeUid, key) ==> Reach(g, Entries(), next, key)
      ensures forall leaf | Leads(store, next, key, leaf) :: Leads(store, nodeUid, key, leaf)
    {
      hide Leads;
      var cur := nodeUid;
      ghost var l, i := PositionOf(T(), g, levels, Nothing, nodeUid);
      while true
        invariant cur in store && !store[cur].leaf && g.level[cur] == g.level[nodeUid] == l
        invariant i < |levels[l]| && levels[l][i] == cur
        invariant g.low[nodeUid] <= key ==> g.low[cur] <= key
        invariant Reach(g, Entries(), nodeUid, key) ==> Reach(g, Entries(), cur, key)
        invariant forall leaf | Leads(store, cur, key, leaf) :: Leads(store, nodeUid, key, leaf)
        decreases |levels[l]| - i
      {
        SearchNextReaches(T(), g, cur, key);
        var res := SearchNext(store[cur], key);
        forall leaf | Leads(store, NextUid(store[cur], key), key, leaf) ensures Leads(store, nodeUid, key, leaf) {
          LeadsOn(store, cur, key, leaf);
        }
        if res.uid != NO_UID {
          return res.uid;
        }
        StepRight(cur, l, i);
        cur := res.siblingUid;
        i := i + 1;
      }
    }

    /** A hop to the right moves one place along the level. */
    lemma StepRight(cur: int, l: nat, i: nat)
      requires Inv(T(), g) && cur in store && store[cur].sibling != NO_UID && l < |levels| && i < |levels[l]|
      requires LevelOk(T(), g, levels, l) && levels[l][i] == cur
      ensures i + 1 < |levels[l]| && levels[l][i + 1] == store[cur].sibling
      ensures store[cur].sibling in store && store[store[cur].sibling].leaf == store[cur].leaf
      ensures g.level[store[cur].sibling] == g.level[cur]
    {
      assert NodeOk(T(), g, Contents(T(), g), cur);
      assert NodeOk(T(), g, Contents(T(), g), store[cur].sibling);
    }

    method SearchLeaf(nodeUid: int, key: int) returns (leafUid: int)
      requires Valid() && nodeUid in store && NEG_INF < key < MAX_KEY && Reach(g, Entries(), nodeUid, key)
      ensures leafUid in store && store[leafUid].leaf && Reach(g, Entries(), leafUid, key)
      ensures Leads(store, nodeUid, key, leafUid)
      decreases g.level[nodeUid]
    {
      hide Leads;
      assert NodeOk(T(), g, Contents(T(), g), nodeUid);
      if store[nodeUid].leaf {
        LeadsHere(store, nodeUid, key);
        return nodeUid;
      }
      var next := SearchNextUid(nodeUid, key);
      leafUid := SearchLeaf(next, key);
    }
  
    lemma RootReaches(key: int)
      requires Valid() && NEG_INF < key
      ensures rootUid in store && g.low[rootUid] <= key && Reach(g, Entries(), rootUid, key)
    {
    }

    /** A search for `key` begins its scan at the leaf in position `i`. */
    ghost predicate StartsAt(i: nat, key: int)
      requires Valid()
      reads this
    {
      i < |g.chain| && Leads(store, rootUid, key, g.chain[i])
    }

    /** The position of the leaf where the scan for `key` begins. */
    ghost function Start(key: int): (i: nat)
      requires Valid()
      ensures i < |g.chain|
      reads this
    {
      if exists i: nat :: StartsAt(i, key) then
        var i: nat :| StartsAt(i, key);
        i
      else
        0
    }

    ghost function Ahead(key: int): seq<Pair>
      requires Valid()
      reads this
    {
      Flatten(store, g.chain[Start(key)..])
    }

    ghost function Behind(key: int): seq<Pair>
      requires Valid()
      reads this
    {
      Flatten(store, g.chain[..Start(key)])
    }

    /** The scan for `key` begins at the first leaf, or the leaf before its first one
        ends below the key. */
    ghost predicate Whole(key: int)
      requires Valid()
      reads this
    {
      Start(key) == 0 || EndsBelow(store, g.chain[Start(key) - 1], key)
    }

    /** There is only one such position. */
    lemma StartIs(i: nat, key: int)
      requires Valid() && StartsAt(i, key)
      ensures Start(key) == i && StartsAt(Start(key), key)
    {
      var j := Start(key);
      assert StartsAt(j, key);
      LeadsToOne(store, rootUid, key, g.chain[i], g.chain[j]);
      assert Distinct(g.chain);
    }

    /** The entries behind the scan's first leaf are at most the key, and one of them
        has it exactly when the leaf before ends with it. */
    lemma BehindIs(key: int)
      requires Valid() && NEG_INF < key && StartsAt(Start(key), key) && g.low[g.chain[Start(key)]] <= key
      ensures Behind(key) + Ahead(key) == Entries()
      ensures forall p | p in Behind(key) :: p.key <= key
      ensures (forall p | p in Behind(key) :: p.key < key) <==> Whole(key)
    {
      LeavesFormRow(T(), g);
      RowBehind(store, g.low, g.chain, Start(key), key);
    }

    /** The leaves before position `i` have been selected from, but for those behind
        the scan. */
    ghost predicate Scanned(i: nat, left: int, right: int, found: seq<Pair>)
      requires Valid()
      reads this
    {
      && i <= |g.chain| && Stored(store, g.chain[..i])
      && Select(Flatten(store, g.chain[..i]), left, right) == Select(Behind(left), left, right) + found
    }

    /** The scan is about to read the leaf at position `i`. */
    ghost predicate AtLeaf(i: nat, leafUid: int)
      reads this
    {
      i < |g.chain| && g.chain[i] == leafUid && leafUid in store
    }

    lemma ScanStart(leafUid: int, left: int, right: int) returns (i: nat)
      requires Valid() && leafUid in store && store[leafUid].leaf && Reach(g, Entries(), leafUid, left)
      requires NEG_INF < left && Leads(store, rootUid, left, leafUid)
      ensures AtLeaf(i, leafUid) && Scanned(i, left, right, []) && StartsAt(Start(left), left)
      ensures Behind(left) + Ahead(left) == Entries()
      ensures forall p | p in Behind(left) :: p.key <= left
      ensures (forall p | p in Behind(left) :: p.key < left) <==> Whole(left)
      ensures KeyCount(Entries(), left) <= 1 ==> Whole(left)
    {
      i :| i < |g.chain| && g.chain[i] == leafUid;
      hide Leads, LevelsOk, SizesOk;
      assert StartsAt(i, left);
      StartIs(i, left);
      BehindIs(left);
      var missed := Select(Behind(left), left, right);
      assert missed + [] == missed;
      if i > 0 {
        LeavesFormRow(T(), g);
        assert Adjacent(store, g.low, g.chain[i - 1], g.chain[i]);
      }
    }

    /** What stands right of a leaf that ended a scan is out of range. */
    lemma NothingFurther(i: nat, left: int, right: int)
      requires Inv(T(), g) && i < |g.chain| && g.chain[i] in store
      requires LeafSearchRange(store[g.chain[i]], left, right).siblingUid == NO_UID
      ensures Stored(store, g.chain[i + 1..]) && Select(Flatten(store, g.chain[i + 1..]), left, right) == []
    {
      var n := store[g.chain[i]];
      var m := FirstAbove(n.pairs, right, FirstAtLeast(n.pairs, left));
      if m == |n.pairs| {
        LastLeaf(T(), g, i);
      } else {
        ContentsSorted(T(), g);
        FlattenAt(store, g.chain, i);
        var a, rest := Flatten(store, g.chain[..i]), Flatten(store, g.chain[i + 1..]);
        var all := a + n.pairs + rest;
        forall j | 0 <= j < |rest| ensures !InRange(rest[j], left, right) {
          assert all[|a| + m].key <= all[|a| + |n.pairs| + j].key;
        }
        SelectNone(rest, left, right);
      }
    }

    /** A search finds, in order, the entries in range from its first leaf on. These
        are all entries in range if and only if the leaf before that one ends below the
        left bound, as it does when the left bound is not indexed twice. */
    method SearchRange(left: int, right: int) returns (uids: seq<int>)
      requires Valid() && NEG_INF < left < MAX_KEY
      ensures StartsAt(Start(left), left)
      ensures uids == Sons(Select(Ahead(left), left, right)) && Behind(left) + Ahead(left) == Entries()
      ensures forall p | p in Behind(left) :: p.key <= left
      ensures (forall p | p in Behind(left) :: p.key < left) <==> Whole(left)
      ensures left <= right ==> (uids == Sons(Select(Entries(), left, right)) <==> Whole(left))
      ensures KeyCount(Entries(), left) <= 1 ==> Whole(left)
    {
      hide Base, LevelsOk, SizesOk, Entries, Start, StartsAt, Ahead, Behind, Whole, Scanned, AtLeaf, LeafSearchRange,
        SearchNext, Select, Leads, Reach, Sons, KeyCount;
      RootReaches(left);
      var leafUid := SearchLeaf(rootUid, left);
      ghost var i := ScanStart(leafUid, left, right);
      ghost var found: seq<Pair> := [];
      uids := [];
      while true
        invariant AtLeaf(i, leafUid) && Scanned(i, left, right, found)
        invariant uids == Sons(found)
        decreases |g.chain| - i
      {
        InStore(i, leafUid);
        var res := LeafSearchRange(store[leafUid], left, right);
        ScanStep(i, leafUid, left, right, found);
        AddSons(found, res.pairs);
        uids := uids + Sons(res.pairs);
        found := found + res.pairs;
        if res.siblingUid == NO_UID {
          ScanDone(i, leafUid, left, right, found);
          WholeOrNot(left, right, uids);
          return;
        }
        ScanRight(i, leafUid, left, right);
        leafUid := res.siblingUid;
        i := i + 1;
      }
    }

    lemma InStore(i: nat, leafUid: int)
      requires AtLeaf(i, leafUid)
      ensures leafUid in store && i < |g.chain|
    {
    }

    lemma LeafIsSorted(u: int)
      requires Valid() && u in store
      ensures Sorted(store[u].pairs)
    {
      assert NodeOk(T(), g, Contents(T(), g), u);
    }

    lemma ScanStep(i: nat, leafUid: int, left: int, right: int, found: seq<Pair>)
      requires Valid() && AtLeaf(i, leafUid) && Scanned(i, left, right, found) && leafUid in store
      ensures Scanned(i + 1, left, right, found + LeafSearchRange(store[leafUid], left, right).pairs)
    {
      LeafIsSorted(leafUid);
      hide Base, LevelsOk, SizesOk, LeafSearchRange, Behind, Ahead, Start, Sorted, Select, Flatten;
      LeafSelects(store[leafUid], left, right);
      SelectNext(store, g.chain, i, left, right);
    }

    lemma ScanRight(i: nat, leafUid: int, left: int, right: int)
      requires Valid() && AtLeaf(i, leafUid) && leafUid in store
      requires LeafSearchRange(store[leafUid], left, right).siblingUid != NO_UID
      ensures AtLeaf(i + 1, LeafSearchRange(store[leafUid], left, right).siblingUid) && i + 1 < |g.chain|
    {
      assert LevelOk(T(), g, levels, 0);
      StepRight(leafUid, 0, i);
    }

    lemma ScanDone(i: nat, leafUid: int, left: int, right: int, found: seq<Pair>)
      requires Valid() && AtLeaf(i, leafUid) && leafUid in store && Scanned(i + 1, left, right, found)
      requires LeafSearchRange(store[leafUid], left, right).siblingUid == NO_UID
      requires Behind(left) + Ahead(left) == Entries()
      ensures found == Select(Ahead(left), left, right)
    {
      NothingFurther(i, left, right);
      hide Base, LevelsOk, SizesOk, LeafSearchRange, Behind, Ahead, Start, Select;
      SelectFront(store, g.chain, i + 1, left, right);
      SelectConcat(Behind(left), Ahead(left), left, right);
      SamePrefix(Select(Behind(left), left, right), found, Select(Ahead(left), left, right));
    }

    /** The scan has found everything exactly when nothing behind it has the left bound
        as its key. */
    lemma WholeOrNot(left: int, right: int, uids: seq<int>)
      requires Valid() && uids == Sons(Select(Ahead(left), left, right)) && Behind(left) + Ahead(left) == Entries()
      requires forall p | p in Behind(left) :: p.key <= left
      requires (forall p | p in Behind(left) :: p.key < left) <==> Whole(left)
      ensures left <= right ==> (uids == Sons(Select(Entries(), left, right)) <==> Whole(left))
    {
      SelectConcat(Behind(left), Ahead(left), left, right);
      var missed := Select(Behind(left), left, right);
      if Whole(left) {
        SelectBelow(Behind(left), left, right);
        assert missed + Select(Ahead(left), left, right) == Select(Ahead(left), left, right);
      } else if left <= right {
        var p :| p in Behind(left) && p.key == left;
        SelectHas(Behind(left), left, right, p);
        assert |missed| > 0;
      }
    }

    // ----------------------------------------------------------------- inserting

    /** insertAndSplit: walk right until a node takes the pair, then split it if
        it is full. */
    method InsertAndSplit(nodeUid: int, son: int, sonKey: int) returns (r: InsertRes)
      requires Base() && SizesOk(T()) && Placeable(T(), g, nodeUid, son, sonKey)
      requires LevelsOk(T(), g, levels, if store[nodeUid].leaf then Nothing else Awaits(g.level[nodeUid] - 1, son))
      modifies this
      ensures Base() && Extends(old(g), g) && rootUid == old(rootUid) && |levels| == |old(levels)|
      ensures if old(store[nodeUid].leaf) then InsertedInto(old(Entries()), Entries(), Pair(son, sonKey))
              else Entries() == old(Entries())
      ensures if r.newNode == NO_UID then Valid() else Halfway(T(), g, levels, nodeUid, r.newNode, r.newKey)
    {
      var cur := nodeUid;
      ghost var pending := if store[nodeUid].leaf then Nothing else Awaits(g.level[nodeUid] - 1, son);
      ghost var l, i := PositionOf(T(), g, levels, pending, nodeUid);
      assert LevelOk(T(), g, levels, l);
      PlaceableMovesRight(T(), g, cur, son, sonKey);
      while InsertPair(store[cur], son, sonKey).None?
        modifies {}
        invariant Placeable(T(), g, cur, son, sonKey) && Accepts(store[cur], sonKey)
        invariant store[cur].leaf == store[nodeUid].leaf && g.level[cur] == l
        invariant i < |levels[l]| && levels[l][i] == cur
        decreases |levels[l]| - i
      {
        PlaceableMovesRight(T(), g, cur, son, sonKey);
        StepRight(cur, l, i);
        cur := store[cur].sibling;
        i := i + 1;
        PlaceableMovesRight(T(), g, cur, son, sonKey);
      }
      r := PlaceAt(cur, son, sonKey);
    }

    /** The node that takes the pair, and its split. */
    method PlaceAt(cur: int, son: int, sonKey: int) returns (r: InsertRes)
      requires Base() && SizesOk(T()) && Placeable(T(), g, cur, son, sonKey)
      requires LevelsOk(T(), g, levels, if store[cur].leaf then Nothing else Awaits(g.level[cur] - 1, son))
      requires Accepts(store[cur], sonKey) && InsertPair(store[cur], son, sonKey).Some?
      modifies this
      ensures Base() && Extends(old(g), g) && rootUid == old(rootUid) && |levels| == |old(levels)|
      ensures if old(store[cur].leaf) then InsertedInto(old(Entries()), Entries(), Pair(son, sonKey))
              else Entries() == old(Entries())
      ensures if r.newNode == NO_UID then Valid() else Halfway(T(), g, levels, cur, r.newNode, r.newKey)
    {
      hide Inv, LevelsOk, Contents, NodeOk, Links;
      var n' := InsertPair(store[cur], son, sonKey).value;
      TakePair(T(), g, levels, cur, son, sonKey, n');
      store := store[cur := n'];
      assert T() == Update(old(T()), cur, n');
      if NeedSplit(n') {
        r := SplitAt(cur);
      } else {
        r := InsertRes(NO_UID, 0);
      }
    }

    /** split: the upper half moves to a new item of the data manager. */
    method SplitAt(cur: int) returns (r: InsertRes)
      requires Base() && cur in store && NeedSplit(store[cur]) && LevelsOk(T(), g, levels, Nothing)
      requires forall u | u in store && u != cur :: SizeOk(store[u], u == rootUid)
      modifies this
      ensures Base() && Extends(old(g), g) && rootUid == old(rootUid) && |levels| == |old(levels)|
      ensures Entries() == old(Entries()) && r.newNode != NO_UID && Halfway(T(), g, levels, cur, r.newNode, r.newKey)
    {
      hide Inv, LevelsOk, Extends, Contents;
      var right := nextUid;
      var s := SplitNode(store[cur], right);
      ghost var l, i := PositionOf(T(), g, levels, Nothing, cur);
      ghost var a, b := ChainAround(levels[l], cur);
      SplitHalfway(T(), g, levels, cur, right, a, b);
      ghost var t', g' := SplitTree(T(), cur, right), SplitShape(g, cur, store[cur], right, a, b);
      ghost var levels' := SplitLevels(levels, l, a, cur, right, b);
      store, nextUid, g, levels := store[cur := s.left][right := s.right], right + 1, g', levels';
      assert T() == t';
      r := InsertRes(right, s.newKey);
    }
  
    /** The recursive descent, and on the way back the slot for a split-off son. */
    method InsertBelow(nodeUid: int, uid: int, key: int) returns (r: InsertRes)
      requires Valid() && nodeUid in store && g.low[nodeUid] <= key && NEG_INF < key < MAX_KEY
      modifies this
      ensures Base() && Extends(old(g), g) && rootUid == old(rootUid) && |levels| == |old(levels)|
      ensures InsertedInto(old(Entries()), Entries(), Pair(uid, key))
      ensures if r.newNode == NO_UID then Valid() else Halfway(T(), g, levels, nodeUid, r.newNode, r.newKey)
      decreases g.level[nodeUid]
    {
      assert NodeOk(T(), g, Entries(), nodeUid);
      if store[nodeUid].leaf {
        r := InsertAndSplit(nodeUid, uid, key);
      } else {
        var next := SearchNextUid(nodeUid, key);
        var ir := InsertBelow(next, uid, key);
        if ir.newNode != NO_UID {
          HalfwayPlaceable(nodeUid, next, ir.newNode, ir.newKey);
          r := InsertAndSplit(nodeUid, ir.newNode, ir.newKey);
        } else {
          r := InsertRes(NO_UID, 0);
        }
      }
    }

    lemma HalfwayPlaceable(nodeUid: int, next: int, newNode: int, newKey: int)
      requires Base() && nodeUid in store && Halfway(T(), g, levels, next, newNode, newKey)
      requires g.level[next] == g.level[nodeUid] - 1
      ensures Placeable(T(), g, nodeUid, newNode, newKey) && !store[nodeUid].leaf && SizesOk(T())
      ensures LevelsOk(T(), g, levels, Awaits(g.level[nodeUid] - 1, newNode))
    {
      assert NodeOk(T(), g, Entries(), nodeUid);
      assert NodeOk(T(), g, Entries(), next);
    }

    /** A new root over the old one and the node split from it. */
    method UpdateRootUid(left: int, right: int, rightKey: int)
      requires Base() && left == rootUid && Halfway(T(), g, levels, left, right, rightKey)
      modifies this
      ensures Valid() && Entries() == old(Entries())
    {
      GrowValid(right, rightKey);
      ghost var t', g' := GrowTree(T(), left, right, rightKey, nextUid), GrowShape(g, left, nextUid);
      store, rootUid, nextUid, g, levels :=
        store[nextUid := NewRoot(left, right, rightKey)], nextUid, nextUid + 1, g', levels + [[nextUid]];
      assert T() == t';
    }

    lemma GrowValid(right: int, rightKey: int)
      requires Base() && Halfway(T(), g, levels, rootUid, right, rightKey)
      ensures var t', g' := GrowTree(T(), rootUid, right, rightKey, nextUid), GrowShape(g, rootUid, nextUid);
              && Inv(t', g') && Contents(t', g') == Entries()
              && LevelsOk(t', g', levels + [[nextUid]], Nothing) && SizesOk(t')
    {
      HalfwayTop(right, rightKey);
      GrowKeepsInv(T(), g, rootUid, right, rightKey, nextUid);
      LevelsGrow(T(), g, levels, right, rightKey, nextUid);
    }

    /** The root stands on the top level. */
    lemma HalfwayTop(right: int, rightKey: int)
      requires Base() && Halfway(T(), g, levels, rootUid, right, rightKey)
      ensures g.level[rootUid] == |levels| - 1
    {
      var top := |levels| - 1;
      assert NamedOnce(T(), levels, Awaits(g.level[rootUid], right), top);
      assert rootUid in multiset(levels[top]);
      assert LevelOk(T(), g, levels, top);
    }

    /** Insertion adds the one pair and keeps the order. */
    method Insert(key: int, uid: int)
      requires Valid() && NEG_INF < key < MAX_KEY
      modifies this
      ensures Valid() && InsertedInto(old(Entries()), Entries(), Pair(uid, key))
    {
      RootReaches(key);
      var root := rootUid;
      var res := InsertBelow(root, uid, key);
      if res.newNode != NO_UID {
        UpdateRootUid(root, res.newNode, res.newKey);
      }
    }

    method Search(key: int) returns (uids: seq<int>)
      requires Valid() && NEG_INF < key < MAX_KEY
      ensures uids == Sons(Select(Ahead(key), key, key)) && Behind(key) + Ahead(key) == Entries()
      ensures uids == Sons(Select(Entries(), key, key)) <==> Whole(key)
      ensures KeyCount(Entries(), key) <= 1 ==> Whole(key)
    {
      uids := SearchRange(key, key);
    }

    /** Insertion under the unique constraint: refused exactly when the key stands
        ahead of the scan's beginning, which is whenever it is indexed once. */
    method InsertUnique(key: int, uid: int) returns (ok: bool)
      requires Valid() && NEG_INF < key < MAX_KEY
      modifies this
      ensures Valid() && (ok <==> KeyCount(old(Ahead(key)), key) == 0)
      ensures KeyCount(old(Entries()), key) <= 1 ==> (ok <==> KeyCount(old(Entries()), key) == 0)
      ensures if ok then InsertedInto(old(Entries()), Entries(), Pair(uid, key)) else Entries() == old(Entries())
    {
      var existing := Search(key);
      SelectKeyCount(Ahead(key), key);
      SelectKeyCount(Entries(), key);
      if existing != [] {
        return false;
      }
      Insert(key, uid);
      ok := true;
    }
  }

  lemma {:induction false} SelectKeyCount(c: seq<Pair>, key: int)
    ensures |Select(c, key, key)| == KeyCount(c, key)
  {
    if c != [] {
      SelectKeyCount(c[1..], key);
    }
  }
}
