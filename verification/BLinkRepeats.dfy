/** A run in which a search misses half of what it was asked for: one key, indexed as
    often as it takes to split the leaf in two. */
module BLinkRepeats {
  import opened BLinkNode
  import opened BLinkTree
  import opened BLinkThreads

  const KEY := 5
  const FULL := 2 * BALANCE_NUMBER

  /** A leaf that took `n` pairs with the same key, one insertion at a time. */
  function Repeated(n: nat): (leaf: Node)
    ensures leaf.leaf && leaf.sibling == NO_UID && |leaf.pairs| == n
    ensures forall i | 0 <= i < n :: leaf.pairs[i].key == KEY
  {
    if n == 0 then NilRoot() else InsertPair(Repeated(n - 1), n, KEY).value
  }

  lemma {:induction false} RunThen(s: System, es: seq<Event>, s': System, e: Event)
    requires Run(s, es, s') && Allowed(s', e)
    ensures Run(s, es + [e], Next(s', e))
    decreases |es|
  {
    if es == [] {
      assert [e][1..] == [] && es + [e] == [e];
    } else {
      hide Next;
      assert (es + [e])[1..] == es[1..] + [e];
      RunThen(Next(s, es[0]), es[1..], s', e);
    }
  }

  ghost predicate AllRepeats(log: seq<Pair>, n: nat) {
    |log| == n && forall i | 0 <= i < n :: log[i].key == KEY
  }

  /** After `n` inserts, one at a time, with everything still in the root. */
  ghost predicate Filled(s: System, root: int, n: nat) {
    && s.t == Tree(map[root := Repeated(n)], root) && root != NO_UID
    && (forall tid | tid in s.threads :: tid < n)
    && AllRepeats(s.log, n)
  }

  /** One insert's turns, up to the one that fills the leaf. */
  lemma ToTheLeaf(s: System, es: seq<Event>, s1: System, root: int, n: nat, free: int) returns (es': seq<Event>, s': System)
    requires Run(s, es, s1) && Filled(s1, root, n) && free != NO_UID && free != root
    ensures Run(s, es', s') && s'.t == s1.t && s'.log == s1.log
    ensures s'.threads == s1.threads[n := Inserting(n + 1, KEY, InsertPlace(root, [], root, n + 1, KEY))]
  {
    hide Run, Repeated;
    RunThen(s, es, s1, BeginInsert(n, n + 1, KEY));
    var s2 := Next(s1, BeginInsert(n, n + 1, KEY));
    RunThen(s, es + [BeginInsert(n, n + 1, KEY)], s2, Turn(n, free));
    var s3 := Next(s2, Turn(n, free));
    es' := es + [BeginInsert(n, n + 1, KEY)] + [Turn(n, free)];
    RunThen(s, es', s3, Turn(n, free));
    es', s' := es' + [Turn(n, free)], Next(s3, Turn(n, free));
  }

  lemma FillTurn(s: System, n: nat, root: int, free: int)
    requires n < FULL - 1 && s.t == Tree(map[root := Repeated(n)], root) && root != NO_UID && AllRepeats(s.log, n)
    requires forall tid | tid in s.threads :: tid < n + 1
    requires n in s.threads && s.threads[n] == Inserting(n + 1, KEY, InsertPlace(root, [], root, n + 1, KEY))
    ensures Filled(Next(s, Turn(n, free)), root, n + 1)
  {
    assert InsertPair(Repeated(n), n + 1, KEY) == Some(Repeated(n + 1));
    hide Repeated, InsertPair;
    assert s.t.store[root := Repeated(n + 1)] == map[root := Repeated(n + 1)];
  }

  lemma {:induction false} Fill(s: System, n: nat) returns (es: seq<Event>, s': System)
    requires Initial(s) && n < FULL
    ensures Run(s, es, s') && Filled(s', s.t.root, n)
  {
    if n == 0 {
      es, s' := [], s;
    } else {
      hide Repeated, Next, Run;
      var root := s.t.root;
      var free := if root == 1 then 2 else 1;
      es, s' := Fill(s, n - 1);
      es, s' := ToTheLeaf(s, es, s', root, n - 1, free);
      RunThen(s, es, s', Turn(n - 1, free));
      FillTurn(s', n - 1, root, free);
      es, s' := es + [Turn(n - 1, free)], Next(s', Turn(n - 1, free));
    }
  }

  /** One root over two leaves of 32. */
  ghost predicate Split(s: System, left: int, right: int, top: int) {
    var split := SplitNode(Repeated(FULL), right);
    && s.t == Tree(map[left := split.left, right := split.right, top := NewRoot(left, right, KEY)], top)
    && AllRepeats(s.log, FULL) && forall tid | tid in s.threads :: tid < FULL
  }

  /** What 64 inserts of one key, one after the other, end with. */
  lemma FillAndSplit(s: System, right: int, top: int) returns (es: seq<Event>, s': System)
    requires Initial(s) && right != top && s.t.root !in {right, top} && NO_UID !in {right, top}
    ensures Run(s, es, s') && Split(s', s.t.root, right, top)
  {
    hide Run, Repeated, Next, SplitNode;
    var n, root := FULL - 1, s.t.root;
    es, s' := Fill(s, n);
    es, s' := ToTheLeaf(s, es, s', root, n, right);
    SplitTurn(s', n, root, right, Next(s', Turn(n, right)));
    RunThen(s, es, s', Turn(n, right));
    es, s' := es + [Turn(n, right)], Next(s', Turn(n, right));
    GrowTurn(s', n, root, right, top);
    RunThen(s, es, s', Turn(n, top));
    es, s' := es + [Turn(n, top)], Next(s', Turn(n, top));
  }

  lemma GrowTurn(s: System, n: nat, root: int, right: int, top: int)
    requires n == FULL - 1 && right != top && root !in {right, top} && AllRepeats(s.log, FULL)
    requires var split := SplitNode(Repeated(FULL), right);
             s.t == Tree(map[root := split.left, right := split.right], root)
    requires n in s.threads && s.threads[n] == Inserting(n + 1, KEY, InsertGrow(root, right, KEY))
    requires forall tid | tid in s.threads :: tid < FULL
    ensures Split(Next(s, Turn(n, top)), root, right, top)
  {
    hide Repeated, SplitNode, NewRoot;
    var split := SplitNode(Repeated(FULL), right);
    assert s.t.store[top := NewRoot(root, right, KEY)] ==
      map[root := split.left, right := split.right, top := NewRoot(root, right, KEY)];
  }

  lemma SplitTurn(s: System, n: nat, root: int, right: int, s': System)
    requires n == FULL - 1 && s.t == Tree(map[root := Repeated(n)], root) && right != root && AllRepeats(s.log, n)
    requires n in s.threads && s.threads[n] == Inserting(n + 1, KEY, InsertPlace(root, [], root, n + 1, KEY))
    requires s' == Next(s, Turn(n, right))
    ensures var split := SplitNode(Repeated(FULL), right);
            s'.t == Tree(map[root := split.left, right := split.right], root)
    ensures s'.threads == s.threads[n := Inserting(n + 1, KEY, InsertGrow(root, right, KEY))] && AllRepeats(s'.log, FULL)
  {
    assert InsertPair(Repeated(n), n + 1, KEY) == Some(Repeated(n + 1));
    hide Repeated, InsertPair;
  }

  /** The search for the key then goes straight to the right leaf. */
  lemma SearchGoesRight(s: System, left: int, right: int, top: int, bag: multiset<Pair>)
    requires Split(s, left, right, top) && right != top && left !in {right, top} && NO_UID !in {right, top}
    ensures SearchTurn(s.t, KEY, KEY, bag, SearchCalled) == Searching(KEY, KEY, bag, SearchDescend(top))
    ensures SearchTurn(s.t, KEY, KEY, bag, SearchDescend(top)) == Searching(KEY, KEY, bag, SearchSearchNext(top))
    ensures SearchTurn(s.t, KEY, KEY, bag, SearchSearchNext(top)) == Searching(KEY, KEY, bag, SearchDescend(right))
    ensures SearchTurn(s.t, KEY, KEY, bag, SearchDescend(right)) == Searching(KEY, KEY, bag, SearchScan(right, []))
    ensures SearchTurn(s.t, KEY, KEY, bag, SearchScan(right, [])) ==
            Searching(KEY, KEY, bag, SearchReturned(SplitNode(Repeated(FULL), right).right.pairs))
  {
    var n := s.t.store[right];
    hide Repeated;
    assert FirstAbove(NewRoot(left, right, KEY).pairs, KEY) == 1;
    assert FirstAtLeast(n.pairs, KEY) == 0;
    assert FirstAbove(n.pairs, KEY, 0) == BALANCE_NUMBER;
    assert n.pairs[0..BALANCE_NUMBER] == n.pairs;
    assert [] + n.pairs == n.pairs;
  }

  lemma SearchThen(s: System, es: seq<Event>, s1: System, free: int, bag: multiset<Pair>, sea: SearchPhase, sea': SearchPhase)
    returns (es': seq<Event>, s': System)
    requires Run(s, es, s1) && free != NO_UID && free !in s1.t.store
    requires FULL in s1.threads && s1.threads[FULL] == Searching(KEY, KEY, bag, sea)
    requires SearchTurn(s1.t, KEY, KEY, bag, sea) == Searching(KEY, KEY, bag, sea')
    ensures Run(s, es', s') && s' == s1.(threads := s1.threads[FULL := Searching(KEY, KEY, bag, sea')])
  {
    RunThen(s, es, s1, Turn(FULL, free));
    es', s' := es + [Turn(FULL, free)], Next(s1, Turn(FULL, free));
  }

  /** 64 inserts of one key, one after the other, and a search for it: the search
      returns 32 of the 64, although all were inserted before it began. */
  lemma RepeatedKeyIsMissed(s: System, right: int, top: int) returns (es: seq<Event>, s': System)
    requires Initial(s) && right != top && s.t.root !in {right, top} && NO_UID !in {right, top}
    ensures Run(s, es, s') && AllRepeats(s'.log, 64) && FULL in s'.threads
    ensures exists found :: |found| == 32
              && s'.threads[FULL] == Searching(KEY, KEY, multiset(s'.log), SearchReturned(found))
  {
    var root := s.t.root;
    es, s' := FillAndSplit(s, right, top);
    SearchGoesRight(s', root, right, top, multiset(s'.log));
    var found := SplitNode(Repeated(FULL), right).right.pairs;
    var free, bag := FreshUid(root, right, top), multiset(s'.log);
    RunThen(s, es, s', BeginSearch(FULL, KEY, KEY));
    es, s' := es + [BeginSearch(FULL, KEY, KEY)], Next(s', BeginSearch(FULL, KEY, KEY));
    hide Run, SearchTurn, Repeated, SplitNode;
    es, s' := SearchThen(s, es, s', free, bag, SearchCalled, SearchDescend(top));
    es, s' := SearchThen(s, es, s', free, bag, SearchDescend(top), SearchSearchNext(top));
    es, s' := SearchThen(s, es, s', free, bag, SearchSearchNext(top), SearchDescend(right));
    es, s' := SearchThen(s, es, s', free, bag, SearchDescend(right), SearchScan(right, []));
    es, s' := SearchThen(s, es, s', free, bag, SearchScan(right, []), SearchReturned(found));
  }

  function FreshUid(a: int, b: int, c: int): (uid: int)
    ensures uid != NO_UID && uid !in {a, b, c}
  {
    if 1 !in {a, b, c} then 1 else if 2 !in {a, b, c} then 2 else if 3 !in {a, b, c} then 3 else 4
  }
}
