/** Any number of inserts and searches at once. A turn of one thread is one
    access to one node, made under that node's lock; between two turns of a
    thread the others may do anything, including splitting the node it is about
    to visit, or growing the root it started from. */
module BLinkThreads {
  import opened BLinkNode
  import opened BLinkTree

  /** Where an insert stands. `stack` holds the nodes of its enclosing calls. */
  datatype InsertPhase =
    | InsertCalled
    | InsertDescend(root: int, stack: seq<int>, cur: int)
    | InsertSearchNext(root: int, stack: seq<int>, frame: int, cur: int)
    | InsertPlace(root: int, stack: seq<int>, cur: int, son: int, sonKey: int)
    | InsertGrow(root: int, newNode: int, newKey: int)
    | InsertReturned

  datatype SearchPhase =
    | SearchCalled
    | SearchDescend(cur: int)
    | SearchSearchNext(cur: int)
    | SearchScan(cur: int, found: seq<Pair>)
    | SearchReturned(found: seq<Pair>)

  /** `before` records the pairs whose leaf insertion preceded the search. */
  datatype Thread =
    | Inserting(uid: int, key: int, ins: InsertPhase)
    | Searching(left: int, right: int, before: multiset<Pair>, sea: SearchPhase)
    | Failed

  /** `log` records the pairs in the order in which they reached a leaf. */
  datatype System = System(t: Tree, threads: map<nat, Thread>, log: seq<Pair>)

  datatype Event =
    | BeginInsert(tid: nat, uid: int, key: int)
    | BeginSearch(tid: nat, left: int, right: int)
    | Turn(tid: nat, freshUid: int)

  /** Keys are longs below the greatest one, and the data manager hands out uids
      that no stored item has. */
  predicate Allowed(s: System, e: Event) {
    match e
    case BeginInsert(tid, uid, key) => tid !in s.threads && NEG_INF < key < MAX_KEY
    case BeginSearch(tid, left, right) => tid !in s.threads && NEG_INF < left < MAX_KEY
    case Turn(tid, freshUid) => freshUid != NO_UID && freshUid !in s.t.store
  }

  function Become(s: System, tid: nat, th: Thread): System {
    s.(threads := s.threads[tid := th])
  }

  function Next(s: System, e: Event): System {
    match e
    case BeginInsert(tid, uid, key) => Become(s, tid, Inserting(uid, key, InsertCalled))
    case BeginSearch(tid, left, right) => Become(s, tid, Searching(left, right, multiset(s.log), SearchCalled))
    case Turn(tid, freshUid) =>
      if tid !in s.threads then s
      else match s.threads[tid]
        case Inserting(uid, key, ins) => InsertTurn(s, tid, uid, key, ins, freshUid)
        case Searching(left, right, before, sea) => Become(s, tid, SearchTurn(s.t, left, right, before, sea))
        case Failed => s
  }

  function InsertTurn(s: System, tid: nat, uid: int, key: int, ins: InsertPhase, freshUid: int): System {
    match ins
    case InsertCalled => Become(s, tid, Inserting(uid, key, InsertDescend(s.t.root, [], s.t.root)))
    case InsertDescend(root, stack, cur) =>
      if cur !in s.t.store then Become(s, tid, Failed)
      else if s.t.store[cur].leaf then Become(s, tid, Inserting(uid, key, InsertPlace(root, stack, cur, uid, key)))
      else Become(s, tid, Inserting(uid, key, InsertSearchNext(root, stack, cur, cur)))
    case InsertSearchNext(root, stack, frame, cur) =>
      if cur !in s.t.store then Become(s, tid, Failed)
      else
        var r := SearchNext(s.t.store[cur], key);
        if r.uid != NO_UID then Become(s, tid, Inserting(uid, key, InsertDescend(root, stack + [frame], r.uid)))
        else Become(s, tid, Inserting(uid, key, InsertSearchNext(root, stack, frame, r.siblingUid)))
    case InsertPlace(root, stack, cur, son, sonKey) =>
      if cur !in s.t.store || !Accepts(s.t.store[cur], sonKey) then Become(s, tid, Failed)
      else PlaceTurn(s, tid, uid, key, ins, freshUid)
    case InsertGrow(root, newNode, newKey) =>
      Become(s.(t := GrowTree(s.t, root, newNode, newKey, freshUid)), tid, Inserting(uid, key, InsertReturned))
    case InsertReturned => s
  }

  /** insertAndSplit on one node, and what the enclosing call does next. */
  function PlaceTurn(s: System, tid: nat, uid: int, key: int, ins: InsertPhase, freshUid: int): System
    requires ins.InsertPlace? && ins.cur in s.t.store && Accepts(s.t.store[ins.cur], ins.sonKey)
  {
    var n := s.t.store[ins.cur];
    match InsertPair(n, ins.son, ins.sonKey)
    case None => Become(s, tid, Inserting(uid, key, MoveTo(ins, n.sibling)))
    case Some(n') =>
      var t' := Update(s.t, ins.cur, n');
      var log := if n.leaf then s.log + [Pair(ins.son, ins.sonKey)] else s.log;
      if NeedSplit(n') then
        var ins' := HandUp(ins, freshUid, SplitNode(n', freshUid).newKey);
        System(SplitTree(t', ins.cur, freshUid), s.threads[tid := Inserting(uid, key, ins')], log)
      else
        System(t', s.threads[tid := Inserting(uid, key, InsertReturned)], log)
  }

  function MoveTo(ins: InsertPhase, cur: int): InsertPhase
    requires ins.InsertPlace?
  {
    InsertPlace(ins.root, ins.stack, cur, ins.son, ins.sonKey)
  }

  /** The new node goes to the enclosing call, or under a new root. */
  function HandUp(ins: InsertPhase, newNode: int, newKey: int): InsertPhase
    requires ins.InsertPlace?
  {
    if ins.stack == [] then InsertGrow(ins.root, newNode, newKey)
    else
      var k := |ins.stack| - 1;
      InsertPlace(ins.root, ins.stack[..k], ins.stack[k], newNode, newKey)
  }

  function SearchTurn(t: Tree, left: int, right: int, before: multiset<Pair>, sea: SearchPhase): Thread {
    match sea
    case SearchCalled => Searching(left, right, before, SearchDescend(t.root))
    case SearchDescend(cur) =>
      if cur !in t.store then Failed
      else if t.store[cur].leaf then Searching(left, right, before, SearchScan(cur, []))
      else Searching(left, right, before, SearchSearchNext(cur))
    case SearchSearchNext(cur) =>
      if cur !in t.store then Failed
      else
        var r := SearchNext(t.store[cur], left);
        if r.uid != NO_UID then Searching(left, right, before, SearchDescend(r.uid))
        else Searching(left, right, before, SearchSearchNext(r.siblingUid))
    case SearchScan(cur, found) =>
      if cur !in t.store then Failed
      else
        var r := LeafSearchRange(t.store[cur], left, right);
        if r.siblingUid == NO_UID then Searching(left, right, before, SearchReturned(found + r.pairs))
        else Searching(left, right, before, SearchScan(r.siblingUid, found + r.pairs))
    case SearchReturned(_) => Searching(left, right, before, sea)
  }

  // ------------------------------------------------------------------ invariant

  ghost function LeftOf(t: Tree, g: Shape, i: nat): multiset<Pair>
    requires Stored(t.store, g.chain) && i <= |g.chain|
  {
    multiset(Flatten(t.store, g.chain[..i]))
  }

  ghost function RightFrom(t: Tree, g: Shape, i: nat): multiset<Pair>
    requires Stored(t.store, g.chain) && i <= |g.chain|
  {
    multiset(Flatten(t.store, g.chain[i..]))
  }

  lemma Cut(t: Tree, g: Shape, i: nat)
    requires Stored(t.store, g.chain) && i <= |g.chain|
    ensures multiset(Contents(t, g)) == LeftOf(t, g, i) + RightFrom(t, g, i)
  {
    FlattenConcat(t.store, g.chain[..i], g.chain[i..]);
    assert g.chain[..i] + g.chain[i..] == g.chain;
  }

  /** The pairs a search must not miss: in range, and above the left bound unless
      the left bound is indexed at most once. */
  ghost predicate Due(c: seq<Pair>, left: int, right: int, p: Pair) {
    InRange(p, left, right) && (left < p.key || KeyCount(c, left) <= 1)
  }

  /** A scan about to read the leaf at position `i`. */
  ghost predicate ScanAt(t: Tree, g: Shape, left: int, right: int, before: multiset<Pair>, cur: int, found: seq<Pair>, i: nat)
    requires Stored(t.store, g.chain) && cur in g.low
  {
    && i < |g.chain| && g.chain[i] == cur
    && Sorted(found)
    && (forall p | p in found :: InRange(p, left, right) && p.key <= g.low[cur])
    && multiset(found) <= LeftOf(t, g, i)
    && (forall p | Due(Contents(t, g), left, right, p) :: before[p] <= multiset(found)[p] + RightFrom(t, g, i)[p])
  }

  ghost predicate StackOk(g: Shape, root: int, stack: seq<int>, level: int)
  {
    && root in g.low && root in g.level && g.low[root] == NEG_INF
    && level == g.level[root] - |stack|
    && forall j | 0 <= j < |stack| :: stack[j] in g.level && g.level[stack[j]] == g.level[root] - j
  }

  ghost predicate InsertOk(t: Tree, g: Shape, uid: int, key: int, ins: InsertPhase)
    requires Inv(t, g)
  {
    NEG_INF < key < MAX_KEY &&
    match ins
    case InsertCalled => true
    case InsertDescend(root, stack, cur) =>
      cur in t.store && g.low[cur] <= key && StackOk(g, root, stack, g.level[cur])
    case InsertSearchNext(root, stack, frame, cur) =>
      && cur in t.store && frame in t.store && !t.store[cur].leaf && g.low[cur] <= key
      && g.level[frame] == g.level[cur] && StackOk(g, root, stack, g.level[cur])
    case InsertPlace(root, stack, cur, son, sonKey) =>
      && cur in t.store && StackOk(g, root, stack, g.level[cur])
      && Placeable(t, g, cur, son, sonKey)
      && (t.store[cur].leaf ==> son == uid && sonKey == key)
    case InsertGrow(root, newNode, newKey) =>
      && root in t.store && g.low[root] == NEG_INF
      && newNode in t.store && g.level[newNode] == g.level[root]
      && newKey < MAX_KEY && Below(Contents(t, g), g.low[newNode], newKey)
    case InsertReturned => true
  }

  ghost predicate SearchOk(t: Tree, g: Shape, left: int, right: int, before: multiset<Pair>, sea: SearchPhase)
    requires Inv(t, g)
  {
    && NEG_INF < left < MAX_KEY
    && before <= multiset(Contents(t, g))
    && match sea
       case SearchCalled => true
       case SearchDescend(cur) => Reach(g, Contents(t, g), cur, left)
       case SearchSearchNext(cur) => Reach(g, Contents(t, g), cur, left) && !t.store[cur].leaf
       case SearchScan(cur, found) =>
         cur in t.store && exists i: nat :: ScanAt(t, g, left, right, before, cur, found, i)
       case SearchReturned(found) =>
         && Sorted(found)
         && (forall p | p in found :: InRange(p, left, right))
         && multiset(found) <= multiset(Contents(t, g))
         && (forall p | Due(Contents(t, g), left, right, p) :: before[p] <= multiset(found)[p])
  }

  ghost predicate ThreadOk(t: Tree, g: Shape, th: Thread)
    requires Inv(t, g)
  {
    match th
    case Inserting(uid, key, ins) => InsertOk(t, g, uid, key, ins)
    case Searching(left, right, before, sea) => SearchOk(t, g, left, right, before, sea)
    case Failed => false
  }

  ghost predicate Ok(s: System, g: Shape) {
    && Inv(s.t, g)
    && multiset(s.log) == multiset(Contents(s.t, g))
    && forall tid | tid in s.threads :: ThreadOk(s.t, g, s.threads[tid])
  }

  // ------------------------------------------------- steps as seen from elsewhere

  /** A change of the tree as the other threads see it: fences and levels stay,
      keys are only added, and whatever was left (right) of a leaf stays there. */
  ghost predicate Moves(t: Tree, g: Shape, t': Tree, g': Shape) {
    && Inv(t, g) && Inv(t', g')
    && Extends(g, g')
    && Grows(Contents(t, g), Contents(t', g'))
    && (forall i | 0 <= i < |g.chain| :: Kept(t, g, i, t', g'))
  }

  ghost predicate Kept(t: Tree, g: Shape, i: nat, t': Tree, g': Shape)
    requires Stored(t.store, g.chain) && Stored(t'.store, g'.chain)
  {
    exists i' :: Follows(t, g, i, t', g', i')
  }

  ghost predicate Follows(t: Tree, g: Shape, i: nat, t': Tree, g': Shape, i': nat)
    requires Stored(t.store, g.chain) && Stored(t'.store, g'.chain)
  {
    && i < |g.chain| && i' < |g'.chain| && g'.chain[i'] == g.chain[i]
    && LeftOf(t, g, i) <= LeftOf(t', g', i')
    && RightFrom(t, g, i) <= RightFrom(t', g', i')
  }

  lemma MovesTransitive(t: Tree, g: Shape, t': Tree, g': Shape, t'': Tree, g'': Shape)
    requires Moves(t, g, t', g') && Moves(t', g', t'', g'')
    ensures Moves(t, g, t'', g'')
  {
    forall i | 0 <= i < |g.chain| ensures Kept(t, g, i, t'', g'') {
      assert Kept(t, g, i, t', g');
      var j :| Follows(t, g, i, t', g', j);
      assert Kept(t', g', j, t'', g'');
      var k :| Follows(t', g', j, t'', g'', k);
      assert Follows(t, g, i, t'', g'', k);
    }
  }

  /** A change that touches no leaf. */
  lemma InnerMoves(t: Tree, g: Shape, t': Tree, g': Shape)
    requires Inv(t, g) && Inv(t', g') && Extends(g, g') && g'.chain == g.chain
    requires forall i | 0 <= i < |g.chain| :: t'.store[g.chain[i]] == t.store[g.chain[i]]
    ensures Moves(t, g, t', g')
  {
    FlattenFrame(t.store, t'.store, g.chain);
    forall i | 0 <= i < |g.chain| ensures Kept(t, g, i, t', g') {
      FlattenFrame(t.store, t'.store, g.chain[..i]);
      FlattenFrame(t.store, t'.store, g.chain[i..]);
      assert Follows(t, g, i, t', g', i);
    }
  }

  /** One more pair in one leaf. */
  lemma LeafMoves(t: Tree, g: Shape, u: int, n': Node, p: Pair)
    requires Inv(t, g) && u in t.store && t.store[u].leaf && Inv(Update(t, u, n'), g)
    requires n'.leaf && multiset(n'.pairs) == multiset(t.store[u].pairs) + multiset{p}
    requires Grows(Contents(t, g), Contents(Update(t, u, n'), g))
    ensures Moves(t, g, Update(t, u, n'), g)
  {
    forall i | 0 <= i < |g.chain| ensures Kept(t, g, i, Update(t, u, n'), g) {
      LeafFollows(t, g, u, n', p, Update(t, u, n'), i);
    }
  }

  lemma LeafFollows(t: Tree, g: Shape, u: int, n': Node, p: Pair, t': Tree, i: nat)
    requires Stored(t.store, g.chain) && Distinct(g.chain) && u in t.store && u in g.chain && n'.leaf && i < |g.chain|
    requires t'.store == t.store[u := n'] && Stored(t'.store, g.chain)
    requires multiset(n'.pairs) == multiset(t.store[u].pairs) + multiset{p}
    ensures Kept(t, g, i, t', g)
  {
    FlattenGains(t.store, g.chain[..i], u, n', p);
    FlattenGains(t.store, g.chain[i..], u, n', p);
    assert Follows(t, g, i, t', g, i);
  }

  /** A leaf that gains a pair passes it on to every stretch of the chain. */
  lemma FlattenGains(store: map<int, Node>, chain: seq<int>, u: int, n': Node, p: Pair)
    requires Stored(store, chain) && Distinct(chain) && u in store && n'.leaf
    requires multiset(n'.pairs) == multiset(store[u].pairs) + multiset{p}
    ensures Stored(store[u := n'], chain)
    ensures multiset(Flatten(store, chain)) <= multiset(Flatten(store[u := n'], chain))
  {
    if u in chain {
      var a, b := ChainAround(chain, u);
      StoredParts(store, a, [u], b);
      DistinctAround(a, u, b);
      FlattenAround(store, a, u, b);
      FlattenFrame(store, store[u := n'], a);
      FlattenFrame(store, store[u := n'], b);
      FlattenAround(store[u := n'], a, u, b);
    } else {
      FlattenFrame(store, store[u := n'], chain);
    }
  }

  /** A leaf split in two. */
  lemma SplitMoves(t: Tree, g: Shape, u: int, right: int, a: seq<int>, b: seq<int>)
    requires Inv(t, g) && u in t.store && NeedSplit(t.store[u]) && t.store[u].leaf
    requires right !in t.store && right != NO_UID && g.chain == a + [u] + b
    requires Inv(SplitTree(t, u, right), SplitShape(g, u, t.store[u], right, a, b))
    requires Contents(SplitTree(t, u, right), SplitShape(g, u, t.store[u], right, a, b)) == Contents(t, g)
    ensures Moves(t, g, SplitTree(t, u, right), SplitShape(g, u, t.store[u], right, a, b))
  {
    var t', g' := SplitTree(t, u, right), SplitShape(g, u, t.store[u], right, a, b);
    StoredParts(t.store, a, [u], b);
    DistinctAround(a, u, b);
    assert SplitStores(t.store, t'.store, a, u, right, b);
    hide SplitStores, Inv;
    forall i | 0 <= i < |g.chain| ensures Kept(t, g, i, t', g') {
      SplitFollows(t, g, u, right, a, b, t', g', i);
    }
  }

  /** The leaves on either side of the split, and the two halves together, keep
      their pairs. */
  ghost predicate SplitStores(store: map<int, Node>, store': map<int, Node>, a: seq<int>, u: int, right: int, b: seq<int>) {
    && Stored(store, a) && Stored(store, [u]) && Stored(store, b)
    && Stored(store', a) && Stored(store', [u]) && Stored(store', [right]) && Stored(store', b)
    && u in store && u in store' && right in store'
    && store'[u].pairs + store'[right].pairs == store[u].pairs
    && (forall v | v in a || v in b :: v in store' && v in store && store'[v] == store[v])
  }

  lemma SplitFollows(t: Tree, g: Shape, u: int, right: int, a: seq<int>, b: seq<int>, t': Tree, g': Shape, i: nat)
    requires SplitStores(t.store, t'.store, a, u, right, b)
    requires Stored(t.store, g.chain) && Stored(t'.store, g'.chain)
    requires g.chain == a + [u] + b && g'.chain == a + [u, right] + b && i < |g.chain|
    ensures Kept(t, g, i, t', g')
  {
    hide *;
    if i <= |a| {
      SplitToTheRight(t.store, t'.store, a, u, right, b, i);
      SamePlace(t, g, i, t', g', i);
    } else {
      SplitToTheLeft(t.store, t'.store, a, u, right, b, i - |a| - 1);
      SamePlace(t, g, i, t', g', i + 1);
    }
  }

  lemma SplitToTheRight(store: map<int, Node>, store': map<int, Node>, a: seq<int>, u: int, right: int, b: seq<int>, i: nat)
    requires SplitStores(store, store', a, u, right, b) && i <= |a|
    ensures var chain, chain' := a + [u] + b, a + [u, right] + b;
            && chain'[i] == chain[i]
            && Stored(store, chain[..i]) && Stored(store', chain'[..i])
            && Stored(store, chain[i..]) && Stored(store', chain'[i..])
            && Flatten(store, chain[..i]) == Flatten(store', chain'[..i])
            && Flatten(store, chain[i..]) == Flatten(store', chain'[i..])
  {
    var chain, chain' := a + [u] + b, a + [u, right] + b;
    var m := a[i..];
    assert chain[..i] == a[..i] && chain'[..i] == a[..i];
    assert chain[i..] == m + [u] + b && chain'[i..] == m + [u, right] + b;
    FlattenFrame(store, store', a[..i]);
    FlattenMid(store, m, [u], b);
    SplitContents(store, store', m, u, right, b);
  }

  lemma SlicesBehind(a: seq<int>, mid: seq<int>, b: seq<int>, k: nat)
    requires k < |b|
    ensures var chain, i := a + mid + b, |a| + |mid| + k;
            chain[i] == b[k] && chain[..i] == a + mid + b[..k] && chain[i..] == b[k..]
  {
  }

  lemma SplitToTheLeft(store: map<int, Node>, store': map<int, Node>, a: seq<int>, u: int, right: int, b: seq<int>, k: nat)
    requires SplitStores(store, store', a, u, right, b) && k < |b|
    ensures var i, chain, chain' := |a| + 1 + k, a + [u] + b, a + [u, right] + b;
            && chain'[i + 1] == chain[i]
            && Stored(store, chain[..i]) && Stored(store', chain'[..i + 1])
            && Stored(store, chain[i..]) && Stored(store', chain'[i + 1..])
            && Flatten(store, chain[..i]) == Flatten(store', chain'[..i + 1])
            && Flatten(store, chain[i..]) == Flatten(store', chain'[i + 1..])
  {
    var i, chain, chain' := |a| + 1 + k, a + [u] + b, a + [u, right] + b;
    var c := b[..k];
    hide Flatten;
    SlicesBehind(a, [u], b, k);
    SlicesBehind(a, [u, right], b, k);
    FlattenFrame(store, store', b[k..]);
    FlattenMid(store, a, [u], c);
    SplitContents(store, store', a, u, right, c);
  }

  lemma SamePlace(t: Tree, g: Shape, i: nat, t': Tree, g': Shape, i': nat)
    requires Stored(t.store, g.chain) && Stored(t'.store, g'.chain)
    requires i < |g.chain| && i' < |g'.chain| && g'.chain[i'] == g.chain[i]
    requires Flatten(t.store, g.chain[..i]) == Flatten(t'.store, g'.chain[..i'])
    requires Flatten(t.store, g.chain[i..]) == Flatten(t'.store, g'.chain[i'..])
    ensures Kept(t, g, i, t', g')
  {
    assert Follows(t, g, i, t', g', i');
  }

  // ------------------------------------------------------------------ other threads

  lemma SameKind(t: Tree, g: Shape, t': Tree, g': Shape, u: int)
    requires Inv(t, g) && Inv(t', g') && Extends(g, g') && u in t.store
    ensures u in t'.store && t'.store[u].leaf == t.store[u].leaf
  {
    assert NodeOk(t, g, Contents(t, g), u);
    assert NodeOk(t', g', Contents(t', g'), u);
  }

  lemma ContentsOnlyGrow(t: Tree, g: Shape, t': Tree, g': Shape)
    requires Moves(t, g, t', g')
    ensures multiset(Contents(t, g)) <= multiset(Contents(t', g'))
  {
    assert Kept(t, g, 0, t', g');
    var i' :| Follows(t, g, 0, t', g', i');
    Cut(t, g, 0);
    Cut(t', g', i');
  }

  /** Whatever one thread does, the others keep their footing. */
  lemma InsertStays(t: Tree, g: Shape, t': Tree, g': Shape, uid: int, key: int, ins: InsertPhase)
    requires Moves(t, g, t', g') && InsertOk(t, g, uid, key, ins)
    ensures InsertOk(t', g', uid, key, ins)
  {
    if ins.InsertDescend? || ins.InsertSearchNext? || ins.InsertPlace? {
      SameKind(t, g, t', g', ins.cur);
      StackStays(g, g', ins.root, ins.stack, g.level[ins.cur]);
    }
  }

  lemma StackStays(g: Shape, g': Shape, root: int, stack: seq<int>, level: int)
    requires StackOk(g, root, stack, level) && Extends(g, g')
    ensures StackOk(g', root, stack, level)
  {
    forall j | 0 <= j < |stack| ensures stack[j] in g'.level && g'.level[stack[j]] == g'.level[root] - j {
      var u: int := stack[j];
      assert u in g.level && g.level[u] == g.level[root] - j;
    }
  }

  lemma SearchStays(t: Tree, g: Shape, t': Tree, g': Shape, left: int, right: int, before: multiset<Pair>, sea: SearchPhase)
    requires Moves(t, g, t', g') && SearchOk(t, g, left, right, before, sea)
    ensures SearchOk(t', g', left, right, before, sea)
  {
    ContentsOnlyGrow(t, g, t', g');
    assert forall p | Due(Contents(t', g'), left, right, p) :: Due(Contents(t, g), left, right, p);
    match sea
    case SearchSearchNext(cur) =>
      SameKind(t, g, t', g', cur);
    case SearchScan(cur, found) =>
      var i: nat :| ScanAt(t, g, left, right, before, cur, found, i);
      assert Kept(t, g, i, t', g');
      var i' :| Follows(t, g, i, t', g', i');
      assert ScanAt(t', g', left, right, before, cur, found, i');
    case _ =>
  }

  lemma ThreadStays(t: Tree, g: Shape, t': Tree, g': Shape, th: Thread)
    requires Moves(t, g, t', g') && ThreadOk(t, g, th)
    ensures ThreadOk(t', g', th)
  {
    match th
    case Inserting(uid, key, ins) => InsertStays(t, g, t', g', uid, key, ins);
    case Searching(left, right, before, sea) => SearchStays(t, g, t', g', left, right, before, sea);
    case Failed =>
  }

  // ------------------------------------------------------------------ a search's own turns

  lemma RowPart(store: map<int, Node>, low: map<int, int>, chain: seq<int>, i: nat, j: nat)
    requires Row(store, low, chain) && i <= j <= |chain|
    ensures Row(store, low, chain[i..j])
  {
    var part := chain[i..j];
    forall x, y | 0 <= x && y == x + 1 && y < |part| ensures Adjacent(store, low, part[x], part[y]) {
      assert Adjacent(store, low, chain[i + x], chain[i + y]);
    }
    forall x | 0 <= x < |part| ensures RowItem(store, low, part[x]) {
      assert RowItem(store, low, chain[i + x]);
    }
  }

  /** What stands left of a leaf is at most its fence. */
  lemma LeftUnderFence(t: Tree, g: Shape, i: nat)
    requires Inv(t, g) && i < |g.chain|
    ensures forall p | p in LeftOf(t, g, i) :: p.key <= g.low[g.chain[i]]
  {
    LeavesFormRow(t, g);
    RowPart(t.store, g.low, g.chain, 0, i + 1);
    var part := g.chain[0..i + 1];
    PrefixUnderFence(t.store, g.low, part);
    assert part[..|part| - 1] == g.chain[..i];
  }

  /** A descent that reached a leaf can start scanning there. */
  lemma SearchLands(t: Tree, g: Shape, left: int, right: int, before: multiset<Pair>, cur: int)
    requires Inv(t, g) && cur in t.store && t.store[cur].leaf && Reach(g, Contents(t, g), cur, left)
    requires before <= multiset(Contents(t, g))
    ensures exists i: nat :: ScanAt(t, g, left, right, before, cur, [], i)
  {
    var i :| 0 <= i < |g.chain| && g.chain[i] == cur;
    Cut(t, g, i);
    LeftUnderFence(t, g, i);
    forall p | Due(Contents(t, g), left, right, p) ensures before[p] <= RightFrom(t, g, i)[p] {
      assert p !in LeftOf(t, g, i);
    }
    assert ScanAt(t, g, left, right, before, cur, [], i);
  }

  /** The leaf at position `i` and what lies to its right. */
  lemma RightSplit(t: Tree, g: Shape, i: nat)
    requires Inv(t, g) && i < |g.chain|
    ensures Flatten(t.store, g.chain[i..]) == t.store[g.chain[i]].pairs + Flatten(t.store, g.chain[i + 1..])
    ensures RightFrom(t, g, i) == multiset(t.store[g.chain[i]].pairs) + RightFrom(t, g, i + 1)
    ensures LeftOf(t, g, i + 1) == LeftOf(t, g, i) + multiset(t.store[g.chain[i]].pairs)
  {
    assert g.chain[i..][1..] == g.chain[i + 1..];
    assert g.chain[..i + 1] == g.chain[..i] + [g.chain[i]];
    FlattenConcat(t.store, g.chain[..i], [g.chain[i]]);
    FlattenOne(t.store, g.chain[i]);
  }

  lemma MiddleCounts(a: seq<Pair>, ps: seq<Pair>, b: seq<Pair>, left: int, right: int)
    requires Sorted(a + ps + b)
    requires forall i | 0 <= i < |a| :: a[i].key < left
    requires forall i | 0 <= i < |ps| :: InRange(ps[i], left, right)
    requires forall i | 0 <= i < |b| :: right < b[i].key
    ensures Sorted(ps) && multiset(ps) <= multiset(a + ps + b)
    ensures forall p | InRange(p, left, right) :: multiset(ps)[p] == multiset(a + ps + b)[p]
  {
    var all := a + ps + b;
    forall i, j | 0 <= i < j < |ps| ensures ps[i].key <= ps[j].key {
      assert all[|a| + i].key <= all[|a| + j].key;
    }
    forall p | InRange(p, left, right) ensures multiset(ps)[p] == multiset(a + ps + b)[p] {
      assert p !in a && p !in b;
    }
  }

  /** Reading one leaf counts each pair in range as often as the leaf holds it. */
  lemma ReadLeaf(n: Node, left: int, right: int)
    requires Sorted(n.pairs)
    ensures var ps := LeafSearchRange(n, left, right).pairs;
            && Sorted(ps) && multiset(ps) <= multiset(n.pairs)
            && (forall p | p in ps :: InRange(p, left, right) && p in n.pairs)
            && (forall p | InRange(p, left, right) :: multiset(ps)[p] == multiset(n.pairs)[p])
  {
    var a, b := LeafSearchRangeParts(n, left, right);
    var ps := LeafSearchRange(n, left, right).pairs;
    MiddleCounts(a, ps, b, left, right);
    forall p | p in ps ensures InRange(p, left, right) && p in n.pairs {
      var i :| 0 <= i < |ps| && ps[i] == p;
      assert n.pairs[|a| + i] == p;
    }
  }

  /** What one leaf adds to a scan. */
  lemma Harvest(n: Node, fence: int, left: int, right: int, found: seq<Pair>)
    requires Sorted(n.pairs) && forall i | 0 <= i < |n.pairs| :: fence <= n.pairs[i].key
    requires Sorted(found) && forall p | p in found :: InRange(p, left, right) && p.key <= fence
    ensures var all := found + LeafSearchRange(n, left, right).pairs;
            && Sorted(all)
            && (forall p | p in all :: InRange(p, left, right) && (|n.pairs| > 0 ==> p.key <= Last(n)))
            && multiset(all) <= multiset(found) + multiset(n.pairs)
            && (forall p | InRange(p, left, right) :: multiset(all)[p] == multiset(found)[p] + multiset(n.pairs)[p])
  {
    ReadLeaf(n, left, right);
    var ps := LeafSearchRange(n, left, right).pairs;
    forall j | 0 <= j < |found| ensures found[j].key <= fence {
      assert found[j] in found;
    }
    SortedConcat(found, ps, fence);
    forall p | p in found + ps ensures InRange(p, left, right) && (|n.pairs| > 0 ==> p.key <= Last(n)) {
      if p in found {
        assert |n.pairs| > 0 ==> fence <= Last(n);
      } else {
        assert p in ps && p in n.pairs;
      }
    }
  }

  /** The scan moves on to the right sibling. */
  lemma ScanMoves(t: Tree, g: Shape, left: int, right: int, before: multiset<Pair>, cur: int, found: seq<Pair>, i: nat)
    requires Inv(t, g) && cur in t.store && ScanAt(t, g, left, right, before, cur, found, i)
    requires LeafSearchRange(t.store[cur], left, right).siblingUid != NO_UID
    ensures var r := LeafSearchRange(t.store[cur], left, right);
            r.siblingUid in t.store && ScanAt(t, g, left, right, before, r.siblingUid, found + r.pairs, i + 1)
  {
    var n := t.store[cur];
    assert NodeOk(t, g, Contents(t, g), cur);
    Harvest(n, g.low[cur], left, right, found);
    assert i + 1 < |g.chain| && g.chain[i + 1] == n.sibling;
    RightSplit(t, g, i);
    var r := LeafSearchRange(n, left, right);
    DueCarries(Contents(t, g), left, right, before, multiset(found), multiset(n.pairs), RightFrom(t, g, i + 1), multiset(found + r.pairs));
  }

  lemma DueCarries(c: seq<Pair>, left: int, right: int, before: multiset<Pair>, found: multiset<Pair>, leaf: multiset<Pair>, rest: multiset<Pair>, found': multiset<Pair>)
    requires forall p | Due(c, left, right, p) :: before[p] <= found[p] + (leaf + rest)[p]
    requires forall p | InRange(p, left, right) :: found'[p] == found[p] + leaf[p]
    ensures forall p | Due(c, left, right, p) :: before[p] <= found'[p] + rest[p]
  {
    forall p | Due(c, left, right, p) ensures before[p] <= found'[p] + rest[p] {
      assert InRange(p, left, right);
    }
  }

  /** The scan ends: at the last leaf, or at a key beyond the range. */
  lemma ScanEnds(t: Tree, g: Shape, left: int, right: int, before: multiset<Pair>, cur: int, found: seq<Pair>, i: nat)
    requires Inv(t, g) && cur in t.store && ScanAt(t, g, left, right, before, cur, found, i)
    requires before <= multiset(Contents(t, g)) && NEG_INF < left < MAX_KEY
    requires LeafSearchRange(t.store[cur], left, right).siblingUid == NO_UID
    ensures SearchOk(t, g, left, right, before, SearchReturned(found + LeafSearchRange(t.store[cur], left, right).pairs))
  {
    var n := t.store[cur];
    assert NodeOk(t, g, Contents(t, g), cur);
    Harvest(n, g.low[cur], left, right, found);
    RightSplit(t, g, i);
    Cut(t, g, i);
    forall p | Due(Contents(t, g), left, right, p)
      ensures before[p] <= multiset(found + LeafSearchRange(n, left, right).pairs)[p]
    {
      NothingBeyond(t, g, i, left, right, p);
    }
  }

  /** Past a key beyond the range, a sorted list holds nothing in range. */
  lemma SortedBeyond(ps: seq<Pair>, rest: seq<Pair>, j: nat, right: int, p: Pair)
    requires Sorted(ps + rest) && j < |ps| && ps[j].key > right && p.key <= right
    ensures p !in rest
  {
    forall x | 0 <= x < |rest| ensures rest[x] != p {
      assert (ps + rest)[j].key <= (ps + rest)[|ps| + x].key;
    }
  }

  lemma NothingBeyond(t: Tree, g: Shape, i: nat, left: int, right: int, p: Pair)
    requires Inv(t, g) && i < |g.chain| && InRange(p, left, right)
    requires LeafSearchRange(t.store[g.chain[i]], left, right).siblingUid == NO_UID
    ensures p !in RightFrom(t, g, i + 1)
  {
    var n := t.store[g.chain[i]];
    var k := FirstAtLeast(n.pairs, left);
    var m := FirstAbove(n.pairs, right, k);
    if m == |n.pairs| {
      LastLeaf(t, g, i);
    } else {
      SuffixSorted(t, g, i);
      SortedBeyond(n.pairs, Flatten(t.store, g.chain[i + 1..]), m, right, p);
    }
  }

  lemma SuffixSorted(t: Tree, g: Shape, i: nat)
    requires Inv(t, g) && i < |g.chain|
    ensures Sorted(t.store[g.chain[i]].pairs + Flatten(t.store, g.chain[i + 1..]))
  {
    LeavesFormRow(t, g);
    RowPart(t.store, g.low, g.chain, i, |g.chain|);
    assert g.chain[i..|g.chain|] == g.chain[i..];
    RowSorted(t.store, g.low, g.chain[i..]);
    RightSplit(t, g, i);
  }

  lemma SearchTurnOk(t: Tree, g: Shape, left: int, right: int, before: multiset<Pair>, sea: SearchPhase)
    requires Inv(t, g) && SearchOk(t, g, left, right, before, sea)
    ensures ThreadOk(t, g, SearchTurn(t, left, right, before, sea))
  {
    match sea
    case SearchDescend(cur) =>
      if t.store[cur].leaf {
        SearchLands(t, g, left, right, before, cur);
      }
    case SearchSearchNext(cur) =>
      SearchNextReaches(t, g, cur, left);
      var next := SearchNext(t.store[cur], left);
      if next.uid == NO_UID {
        assert NodeOk(t, g, Contents(t, g), cur);
        assert NodeOk(t, g, Contents(t, g), next.siblingUid);
      }
    case SearchScan(cur, found) =>
      var i: nat :| ScanAt(t, g, left, right, before, cur, found, i);
      if LeafSearchRange(t.store[cur], left, right).siblingUid == NO_UID {
        ScanEnds(t, g, left, right, before, cur, found, i);
      } else {
        ScanMoves(t, g, left, right, before, cur, found, i);
      }
    case _ =>
  }

  // ------------------------------------------------------------------ an insert's own turns

  lemma OneMore(c: seq<Pair>, pos: nat, p: Pair)
    requires pos <= |c|
    ensures multiset(c[..pos] + [p] + c[pos..]) == multiset(c) + multiset{p}
  {
    assert c == c[..pos] + c[pos..];
  }

  /** insertAndSplit on one node, before any split. */
  lemma PlaceMoves(t: Tree, g: Shape, u: int, son: int, sonKey: int, n': Node)
    requires Inv(t, g) && Placeable(t, g, u, son, sonKey) && Accepts(t.store[u], sonKey)
    requires InsertPair(t.store[u], son, sonKey) == Some(n')
    ensures Moves(t, g, Update(t, u, n'), g)
    ensures multiset(Contents(Update(t, u, n'), g)) ==
            multiset(Contents(t, g)) + if t.store[u].leaf then multiset{Pair(son, sonKey)} else multiset{}
  {
    hide NodeOk, Flatten, KeyCount, Below, AllOk, Moves;
    if t.store[u].leaf {
      var pos := InsertLeaf(t, g, u, son, sonKey, n');
      InsertGrows(Contents(t, g), pos, Pair(son, sonKey));
      OneMore(Contents(t, g), pos, Pair(son, sonKey));
      OneMore(t.store[u].pairs, FirstAtLeast(t.store[u].pairs, sonKey), Pair(son, sonKey));
      LeafMoves(t, g, u, n', Pair(son, sonKey));
    } else {
      InsertInner(t, g, u, son, sonKey, n');
      assert forall i | 0 <= i < |g.chain| :: g.chain[i] != u;
      InnerMoves(t, g, Update(t, u, n'), g);
    }
  }

  /** The split that may follow. */
  lemma PlaceSplitMoves(t: Tree, g: Shape, u: int, right: int) returns (g': Shape)
    requires Inv(t, g) && u in t.store && NeedSplit(t.store[u]) && right !in t.store && right != NO_UID
    ensures Moves(t, g, SplitTree(t, u, right), g') && Contents(SplitTree(t, u, right), g') == Contents(t, g)
    ensures right in g'.level && g'.level[right] == g.level[u]
    ensures var newKey := SplitNode(t.store[u], right).newKey;
            newKey < MAX_KEY && Below(Contents(t, g), g'.low[right], newKey)
  {
    var a, b := [], [];
    if t.store[u].leaf {
      a, b := ChainAround(g.chain, u);
    }
    SplitKeepsInv(t, g, u, right, a, b);
    g' := SplitShape(g, u, t.store[u], right, a, b);
    if t.store[u].leaf {
      SplitMoves(t, g, u, right, a, b);
    } else {
      InnerMoves(t, g, SplitTree(t, u, right), g');
    }
  }

  lemma OthersStay(s: System, g: Shape, s': System, g': Shape, tid: nat)
    requires Ok(s, g) && Moves(s.t, g, s'.t, g') && tid in s.threads
    requires s'.threads.Keys == s.threads.Keys && ThreadOk(s'.t, g', s'.threads[tid])
    requires forall x | x in s.threads && x != tid :: s'.threads[x] == s.threads[x]
    requires multiset(s'.log) == multiset(Contents(s'.t, g'))
    ensures Ok(s', g')
  {
    forall x | x in s'.threads ensures ThreadOk(s'.t, g', s'.threads[x]) {
      if x != tid {
        ThreadStays(s.t, g, s'.t, g', s.threads[x]);
      }
    }
  }

  /** The whole of insertAndSplit on a node that takes the pair. */
  lemma PlaceChanges(t: Tree, g: Shape, uid: int, key: int, ins: InsertPhase, n': Node, freshUid: int) returns (t': Tree, g': Shape)
    requires Inv(t, g) && InsertOk(t, g, uid, key, ins) && ins.InsertPlace?
    requires Accepts(t.store[ins.cur], ins.sonKey) && InsertPair(t.store[ins.cur], ins.son, ins.sonKey) == Some(n')
    requires freshUid != NO_UID && freshUid !in t.store
    ensures t' == if NeedSplit(n') then SplitTree(Update(t, ins.cur, n'), ins.cur, freshUid) else Update(t, ins.cur, n')
    ensures Moves(t, g, t', g')
    ensures multiset(Contents(t', g')) ==
            multiset(Contents(t, g)) + if t.store[ins.cur].leaf then multiset{Pair(ins.son, ins.sonKey)} else multiset{}
    ensures NeedSplit(n') ==> InsertOk(t', g', uid, key, HandUp(ins, freshUid, SplitNode(n', freshUid).newKey))
  {
    t', g' := Update(t, ins.cur, n'), g;
    PlaceMoves(t, g, ins.cur, ins.son, ins.sonKey, n');
    if NeedSplit(n') {
      var t1 := t';
      g' := PlaceSplitMoves(t1, g, ins.cur, freshUid);
      t' := SplitTree(t1, ins.cur, freshUid);
      MovesTransitive(t, g, t1, g, t', g');
      SplitHandsUp(t, g, ins, t', g', freshUid, SplitNode(n', freshUid).newKey);
    }
  }

  lemma PlaceTurnOk(s: System, g: Shape, tid: nat, uid: int, key: int, ins: InsertPhase, freshUid: int) returns (g': Shape)
    requires Ok(s, g) && tid in s.threads && s.threads[tid] == Inserting(uid, key, ins)
    requires ins.InsertPlace? && ins.cur in s.t.store && Accepts(s.t.store[ins.cur], ins.sonKey)
    requires freshUid != NO_UID && freshUid !in s.t.store
    ensures Ok(PlaceTurn(s, tid, uid, key, ins, freshUid), g')
  {
    assert ThreadOk(s.t, g, s.threads[tid]);
    match InsertPair(s.t.store[ins.cur], ins.son, ins.sonKey)
    case None =>
      g' := g;
      HopOk(s, g, tid, uid, key, ins);
    case Some(n') =>
      var t';
      t', g' := PlaceChanges(s.t, g, uid, key, ins, n', freshUid);
      OthersStay(s, g, PlaceTurn(s, tid, uid, key, ins, freshUid), g', tid);
  }

  lemma HopOk(s: System, g: Shape, tid: nat, uid: int, key: int, ins: InsertPhase)
    requires Ok(s, g) && tid in s.threads && InsertOk(s.t, g, uid, key, ins)
    requires ins.InsertPlace? && Accepts(s.t.store[ins.cur], ins.sonKey)
    requires InsertPair(s.t.store[ins.cur], ins.son, ins.sonKey).None?
    ensures Ok(Become(s, tid, Inserting(uid, key, MoveTo(ins, s.t.store[ins.cur].sibling))), g)
  {
    PlaceableMovesRight(s.t, g, ins.cur, ins.son, ins.sonKey);
    SiblingKind(s.t, g, ins.cur);
  }

  lemma SiblingKind(t: Tree, g: Shape, u: int)
    requires Inv(t, g) && u in t.store && t.store[u].sibling != NO_UID
    ensures t.store[u].sibling in t.store && t.store[t.store[u].sibling].leaf == t.store[u].leaf
  {
    assert NodeOk(t, g, Contents(t, g), u);
    assert NodeOk(t, g, Contents(t, g), t.store[u].sibling);
  }

  /** After a split the enclosing call, or the root growth, has what it needs. */
  lemma SplitHandsUp(t: Tree, g: Shape, ins: InsertPhase, t': Tree, g': Shape, right: int, newKey: int)
    requires Moves(t, g, t', g') && ins.InsertPlace? && ins.cur in t.store
    requires StackOk(g, ins.root, ins.stack, g.level[ins.cur])
    requires right in t'.store && g'.level[right] == g.level[ins.cur]
    requires newKey < MAX_KEY && Below(Contents(t', g'), g'.low[right], newKey)
    ensures if ins.stack == [] then
              && ins.root in t'.store && g'.low[ins.root] == NEG_INF && g'.level[right] == g'.level[ins.root]
            else
              var k := |ins.stack| - 1;
              && ins.stack[k] in t'.store && !t'.store[ins.stack[k]].leaf
              && StackOk(g', ins.root, ins.stack[..k], g'.level[ins.stack[k]])
              && Placeable(t', g', ins.stack[k], right, newKey)
  {
    StackStays(g, g', ins.root, ins.stack, g.level[ins.cur]);
    if ins.stack != [] {
      var parent := ins.stack[|ins.stack| - 1];
      assert parent in g.level && g.level[parent] == g.level[ins.cur] + 1;
      assert NodeOk(t, g, Contents(t, g), ins.cur);
      assert NodeOk(t', g', Contents(t', g'), parent);
    }
  }

  lemma InsertTurnOk(s: System, g: Shape, tid: nat, uid: int, key: int, ins: InsertPhase, freshUid: int) returns (g': Shape)
    requires Ok(s, g) && tid in s.threads && s.threads[tid] == Inserting(uid, key, ins)
    requires freshUid != NO_UID && freshUid !in s.t.store
    ensures Ok(InsertTurn(s, tid, uid, key, ins, freshUid), g')
  {
    assert ThreadOk(s.t, g, s.threads[tid]);
    g' := g;
    match ins
    case InsertDescend(root, stack, cur) =>
      assert NodeOk(s.t, g, Contents(s.t, g), cur);
    case InsertSearchNext(root, stack, frame, cur) =>
      SearchNextReaches(s.t, g, cur, key);
      if SearchNext(s.t.store[cur], key).uid == NO_UID {
        SiblingKind(s.t, g, cur);
      }
    case InsertPlace(root, stack, cur, son, sonKey) =>
      PlaceableMovesRight(s.t, g, cur, son, sonKey);
      g' := PlaceTurnOk(s, g, tid, uid, key, ins, freshUid);
    case InsertGrow(root, newNode, newKey) =>
      GrowKeepsInv(s.t, g, root, newNode, newKey, freshUid);
      g' := GrowShape(g, root, freshUid);
      InnerMoves(s.t, g, GrowTree(s.t, root, newNode, newKey, freshUid), g');
      OthersStay(s, g, InsertTurn(s, tid, uid, key, ins, freshUid), g', tid);
    case _ =>
  }

  /** One event of any kind keeps the invariant. */
  lemma NextOk(s: System, g: Shape, e: Event) returns (g': Shape)
    requires Ok(s, g) && Allowed(s, e)
    ensures Ok(Next(s, e), g')
  {
    g' := g;
    if e.Turn? && e.tid in s.threads {
      assert ThreadOk(s.t, g, s.threads[e.tid]);
      match s.threads[e.tid]
      case Inserting(uid, key, ins) =>
        g' := InsertTurnOk(s, g, e.tid, uid, key, ins, e.freshUid);
      case Searching(left, right, before, sea) =>
        SearchTurnOk(s.t, g, left, right, before, sea);
      case Failed =>
    }
  }

  // ------------------------------------------------------------------ whole runs

  /** The tree as `create` leaves it. */
  ghost predicate Initial(s: System) {
    && s.t.root != NO_UID && s.t.store == map[s.t.root := NilRoot()]
    && s.threads == map[] && s.log == []
  }

  ghost predicate Run(s: System, es: seq<Event>, s': System)
    decreases |es|
  {
    if es == [] then s' == s else Allowed(s, es[0]) && Run(Next(s, es[0]), es[1..], s')
  }

  lemma InitialOk(s: System) returns (g: Shape)
    requires Initial(s)
    ensures Ok(s, g)
  {
    g := NilShape(s.t.root);
    NilTreeOk(s.t.root);
  }

  lemma {:induction false} RunOk(s: System, g: Shape, es: seq<Event>, s': System) returns (g': Shape)
    requires Ok(s, g) && Run(s, es, s')
    ensures Ok(s', g')
    decreases |es|
  {
    if es == [] {
      g' := g;
    } else {
      var g1 := NextOk(s, g, es[0]);
      g' := RunOk(Next(s, es[0]), g1, es[1..], s');
    }
  }

  /** How often key `v` has been inserted depends on the inserted pairs alone. */
  lemma {:induction false} KeyCountOfBag(a: seq<Pair>, b: seq<Pair>, v: int)
    requires multiset(a) == multiset(b)
    ensures KeyCount(a, v) == KeyCount(b, v)
  {
    if a == [] {
      assert |multiset(a)| == |a| && |multiset(b)| == |b|;
    } else {
      var rest := TakeOut(a, b, v);
      KeyCountOfBag(a[1..], rest, v);
    }
  }

  lemma TakeOut(a: seq<Pair>, b: seq<Pair>, v: int) returns (rest: seq<Pair>)
    requires multiset(a) == multiset(b) && a != []
    ensures multiset(a[1..]) == multiset(rest)
    ensures KeyCount(b, v) == KeyCount([a[0]], v) + KeyCount(rest, v)
  {
    assert a == [a[0]] + a[1..];
    assert a[0] in multiset(a);
    var i :| 0 <= i < |b| && b[i] == a[0];
    var x, y := b[..i], b[i + 1..];
    assert b == x + [b[i]] + y;
    KeyCountConcat(x + [b[i]], y, v);
    KeyCountConcat(x, [b[i]], v);
    KeyCountConcat(x, y, v);
    rest := x + y;
    WithoutOne(a[0], a[1..], x, y);
  }

  lemma WithoutOne(p: Pair, a: seq<Pair>, x: seq<Pair>, y: seq<Pair>)
    requires multiset([p] + a) == multiset(x + [p] + y)
    ensures multiset(a) == multiset(x + y)
  {
    assert multiset([p] + a) == multiset{p} + multiset(a);
    assert multiset(x + [p] + y) == multiset(x) + multiset{p} + multiset(y);
    assert multiset(a) == multiset([p] + a) - multiset{p};
  }

  /** In every interleaving no access ever misses its node, and the index holds
      exactly what the inserts put into it, in key order. */
  lemma RunsNeverFail(s: System, es: seq<Event>, s': System) returns (g: Shape)
    requires Initial(s) && Run(s, es, s')
    ensures forall tid | tid in s'.threads :: s'.threads[tid] != Failed
    ensures Inv(s'.t, g) && Sorted(Contents(s'.t, g)) && multiset(Contents(s'.t, g)) == multiset(s'.log)
  {
    var g0 := InitialOk(s);
    g := RunOk(s, g0, es, s');
    ContentsSorted(s'.t, g);
    forall tid | tid in s'.threads ensures s'.threads[tid] != Failed {
      assert ThreadOk(s'.t, g, s'.threads[tid]);
    }
  }

  /** In every interleaving a finished search returns, in key order, only pairs
      in range that were inserted, none more often than it was inserted, and
      every pair inserted before it began whose key is above the left bound. A
      pair on the left bound itself is also returned, provided its key was not
      inserted twice. */
  lemma RunsSearchCorrectly(s: System, es: seq<Event>, s': System, tid: nat)
    requires Initial(s) && Run(s, es, s')
    requires tid in s'.threads && s'.threads[tid].Searching? && s'.threads[tid].sea.SearchReturned?
    ensures var th := s'.threads[tid];
            var found := th.sea.found;
            && Sorted(found)
            && multiset(found) <= multiset(s'.log)
            && (forall p | p in found :: th.left <= p.key <= th.right)
            && (forall p: Pair | th.left < p.key <= th.right :: multiset(found)[p] >= th.before[p])
            && (KeyCount(s'.log, th.left) <= 1 ==>
                  forall p: Pair | th.left <= p.key <= th.right :: multiset(found)[p] >= th.before[p])
  {
    var g0 := InitialOk(s);
    var g := RunOk(s, g0, es, s');
    var th := s'.threads[tid];
    hide Run, Inv, KeyCount, Contents;
    assert ThreadOk(s'.t, g, th);
    KeyCountOfBag(s'.log, Contents(s'.t, g), th.left);
    assert forall p: Pair | th.left < p.key <= th.right :: Due(Contents(s'.t, g), th.left, th.right, p);
    assert KeyCount(s'.log, th.left) <= 1 ==>
        forall p: Pair | th.left <= p.key <= th.right :: Due(Contents(s'.t, g), th.left, th.right, p);
  }

  // ------------------------------------------------- inserts that have returned

  /** The insert has put its own pair into a leaf. */
  predicate Landed(t: Tree, ins: InsertPhase) {
    match ins
    case InsertPlace(_, _, cur, _, _) => cur in t.store && !t.store[cur].leaf
    case InsertGrow(_, _, _) => true
    case InsertReturned => true
    case _ => false
  }

  ghost predicate Logged(s: System) {
    forall tid | tid in s.threads && s.threads[tid].Inserting? && Landed(s.t, s.threads[tid].ins) ::
      Pair(s.threads[tid].uid, s.threads[tid].key) in s.log
  }

  /** No step turns a leaf into an internal node or back. */
  lemma PlaceKeepsKind(s: System, tid: nat, uid: int, key: int, ins: InsertPhase, freshUid: int, u: int)
    requires ins.InsertPlace? && ins.cur in s.t.store && Accepts(s.t.store[ins.cur], ins.sonKey)
    requires freshUid !in s.t.store && u in s.t.store
    ensures var s' := PlaceTurn(s, tid, uid, key, ins, freshUid);
            u in s'.t.store && s'.t.store[u].leaf == s.t.store[u].leaf
  {
    hide FirstAtLeast;
  }

  lemma KindStays(s: System, e: Event, u: int)
    requires Allowed(s, e) && u in s.t.store
    ensures u in Next(s, e).t.store && Next(s, e).t.store[u].leaf == s.t.store[u].leaf
  {
    match e
    case Turn(tid, freshUid) =>
      if tid in s.threads && s.threads[tid].Inserting? {
        InsertKeepsKind(s, tid, s.threads[tid].uid, s.threads[tid].key, s.threads[tid].ins, freshUid, u);
      }
    case _ =>
  }

  lemma InsertKeepsKind(s: System, tid: nat, uid: int, key: int, ins: InsertPhase, freshUid: int, u: int)
    requires freshUid !in s.t.store && u in s.t.store
    ensures var s' := InsertTurn(s, tid, uid, key, ins, freshUid);
            u in s'.t.store && s'.t.store[u].leaf == s.t.store[u].leaf
  {
    if ins.InsertPlace? && ins.cur in s.t.store && Accepts(s.t.store[ins.cur], ins.sonKey) {
      PlaceKeepsKind(s, tid, uid, key, ins, freshUid, u);
    }
  }

  lemma LogGrows(s: System, e: Event, p: Pair)
    requires p in s.log
    ensures p in Next(s, e).log
  {
  }

  lemma NextLogged(s: System, g: Shape, e: Event)
    requires Ok(s, g) && Allowed(s, e) && Logged(s)
    ensures Logged(Next(s, e))
  {
    var s' := Next(s, e);
    forall tid | tid in s'.threads && s'.threads[tid].Inserting? && Landed(s'.t, s'.threads[tid].ins)
      ensures Pair(s'.threads[tid].uid, s'.threads[tid].key) in s'.log
    {
      if tid in s.threads {
        assert ThreadOk(s.t, g, s.threads[tid]);
        if e.Turn? && e.tid == tid {
          OwnTurnLogged(s, g, e, tid);
        } else {
          OtherTurnLogged(s, g, e, tid);
        }
      }
    }
  }

  /** A thread that does not move keeps its place, and its pair stays logged. */
  lemma OtherTurnLogged(s: System, g: Shape, e: Event, tid: nat)
    requires Inv(s.t, g) && Allowed(s, e) && Logged(s) && tid in s.threads && ThreadOk(s.t, g, s.threads[tid])
    requires e.Turn? ==> e.tid != tid
    ensures tid in Next(s, e).threads && Next(s, e).threads[tid] == s.threads[tid]
    ensures s.threads[tid].Inserting? && Landed(Next(s, e).t, s.threads[tid].ins) ==>
              Pair(s.threads[tid].uid, s.threads[tid].key) in Next(s, e).log
  {
    var th := s.threads[tid];
    OthersDoNotMove(s, e, tid);
    hide Next, Inv;
    if th.Inserting? && Landed(Next(s, e).t, th.ins) {
      if th.ins.InsertPlace? {
        KindStays(s, e, th.ins.cur);
      }
      LogGrows(s, e, Pair(th.uid, th.key));
    }
  }

  lemma OthersDoNotMove(s: System, e: Event, tid: nat)
    requires Allowed(s, e) && tid in s.threads && (e.Turn? ==> e.tid != tid)
    ensures tid in Next(s, e).threads && Next(s, e).threads[tid] == s.threads[tid]
  {
  }

  /** A thread's own turn logs its pair when it fills the leaf, not before. */
  lemma OwnTurnLogged(s: System, g: Shape, e: Event, tid: nat)
    requires Inv(s.t, g) && Allowed(s, e) && Logged(s) && tid in s.threads && ThreadOk(s.t, g, s.threads[tid])
    requires e.Turn? && e.tid == tid
    ensures var s' := Next(s, e);
            tid in s'.threads && (s'.threads[tid].Inserting? && Landed(s'.t, s'.threads[tid].ins) ==>
              Pair(s'.threads[tid].uid, s'.threads[tid].key) in s'.log)
  {
    var th := s.threads[tid];
    if th.Inserting? {
      if Landed(s.t, th.ins) {
        LogGrows(s, e, Pair(th.uid, th.key));
        KeepsPair(s, e, tid);
      } else if th.ins.InsertPlace? {
        PlaceableMovesRight(s.t, g, th.ins.cur, th.ins.son, th.ins.sonKey);
        LeafPlaceLogs(s, g, tid, th.uid, th.key, th.ins, e.freshUid);
        hide Inv;
      }
    }
  }

  lemma KeepsPair(s: System, e: Event, tid: nat)
    requires e.Turn? && e.tid == tid && tid in s.threads && s.threads[tid].Inserting?
    ensures tid in Next(s, e).threads
    ensures var th := Next(s, e).threads[tid];
            th.Inserting? ==> th.uid == s.threads[tid].uid && th.key == s.threads[tid].key
  {
  }

  lemma LeafPlaceLogs(s: System, g: Shape, tid: nat, uid: int, key: int, ins: InsertPhase, freshUid: int)
    requires Inv(s.t, g) && InsertOk(s.t, g, uid, key, ins) && ins.InsertPlace? && s.t.store[ins.cur].leaf
    requires Accepts(s.t.store[ins.cur], ins.sonKey) && freshUid !in s.t.store
    ensures InsertPair(s.t.store[ins.cur], ins.son, ins.sonKey).Some? ==>
              Pair(uid, key) in PlaceTurn(s, tid, uid, key, ins, freshUid).log
    ensures InsertPair(s.t.store[ins.cur], ins.son, ins.sonKey).None? ==>
              !Landed(s.t, MoveTo(ins, s.t.store[ins.cur].sibling))
  {
    if InsertPair(s.t.store[ins.cur], ins.son, ins.sonKey).None? {
      SiblingKind(s.t, g, ins.cur);
    }
  }

  lemma {:induction false} RunLogged(s: System, g: Shape, es: seq<Event>, s': System)
    requires Ok(s, g) && Logged(s) && Run(s, es, s')
    ensures Logged(s')
    decreases |es|
  {
    if es != [] {
      var g1 := NextOk(s, g, es[0]);
      NextLogged(s, g, es[0]);
      RunLogged(Next(s, es[0]), g1, es[1..], s');
    }
  }

  /** In every interleaving an insert that has returned is in the index. */
  lemma ReturnedInsertsAreIndexed(s: System, es: seq<Event>, s': System, tid: nat) returns (g: Shape)
    requires Initial(s) && Run(s, es, s')
    requires tid in s'.threads && s'.threads[tid].Inserting? && s'.threads[tid].ins.InsertReturned?
    ensures Inv(s'.t, g) && Pair(s'.threads[tid].uid, s'.threads[tid].key) in Contents(s'.t, g)
  {
    var g0 := InitialOk(s);
    RunLogged(s, g0, es, s');
    g := RunOk(s, g0, es, s');
    var p := Pair(s'.threads[tid].uid, s'.threads[tid].key);
    assert p in multiset(s'.log);
    assert p in multiset(Contents(s'.t, g));
  }
}
