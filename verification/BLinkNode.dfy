/** The node of the index as a value: a list of (son, key) pairs and a right
    sibling, with the four operations the tree runs on one node at a time. */
module BLinkNode {

  const MAX_KEY := 0x7FFF_FFFF_FFFF_FFFF
  const BALANCE_NUMBER := 32
  const NO_UID := 0

  datatype Pair = Pair(son: int, key: int)
  datatype Node = Node(leaf: bool, sibling: int, pairs: seq<Pair>)
  datatype SearchNextRes = SearchNextRes(uid: int, siblingUid: int)
  datatype RangeRes = RangeRes(pairs: seq<Pair>, siblingUid: int)
  datatype SplitRes = SplitRes(left: Node, right: Node, newKey: int)
  datatype Option<T> = None | Some(value: T)

  /** The first slot from `from` on whose key lies above `key`, or the number of pairs. */
  function FirstAbove(ps: seq<Pair>, key: int, from: nat := 0): (k: nat)
    requires from <= |ps|
    ensures from <= k <= |ps|
    ensures forall i | from <= i < k :: ps[i].key <= key
    ensures k < |ps| ==> key < ps[k].key
    decreases |ps| - from
  {
    if from == |ps| || key < ps[from].key then from else FirstAbove(ps, key, from + 1)
  }

  /** The first slot from `from` on whose key is at least `key`, or the number of pairs. */
  function FirstAtLeast(ps: seq<Pair>, key: int, from: nat := 0): (k: nat)
    requires from <= |ps|
    ensures from <= k <= |ps|
    ensures forall i | from <= i < k :: ps[i].key < key
    ensures k < |ps| ==> key <= ps[k].key
    decreases |ps| - from
  {
    if from == |ps| || key <= ps[from].key then from else FirstAtLeast(ps, key, from + 1)
  }

  ghost predicate Sorted(ps: seq<Pair>) {
    forall i, j | 0 <= i < j < |ps| :: ps[i].key <= ps[j].key
  }

  predicate InRange(p: Pair, left: int, right: int) {
    left <= p.key <= right
  }

  /** How often `v` occurs as a key. */
  ghost function KeyCount(ps: seq<Pair>, v: int): nat {
    if ps == [] then 0 else (if ps[0].key == v then 1 else 0) + KeyCount(ps[1..], v)
  }

  lemma {:induction false} KeyCountConcat(a: seq<Pair>, b: seq<Pair>, v: int)
    ensures KeyCount(a + b, v) == KeyCount(a, v) + KeyCount(b, v)
  {
    if a == [] {
      assert a + b == b;
    } else {
      assert (a + b)[1..] == a[1..] + b;
      KeyCountConcat(a[1..], b, v);
    }
  }

  lemma {:induction false} KeyCountHas(ps: seq<Pair>, i: nat)
    requires i < |ps|
    ensures KeyCount(ps, ps[i].key) >= 1
  {
    assert ps == ps[..i] + ([ps[i]] + ps[i + 1..]);
    KeyCountConcat(ps[..i], [ps[i]] + ps[i + 1..], ps[i].key);
  }

  lemma {:induction false} KeyCountTwice(ps: seq<Pair>, i: nat, j: nat)
    requires i < j < |ps| && ps[i].key == ps[j].key
    ensures KeyCount(ps, ps[i].key) >= 2
  {
    var v := ps[i].key;
    assert ps == ps[..j] + ps[j..];
    KeyCountConcat(ps[..j], ps[j..], v);
    KeyCountHas(ps[..j], i);
    KeyCountHas(ps[j..], 0);
  }

  /** searchNext on one node: the son to descend to, or the right sibling. */
  function SearchNext(n: Node, key: int): (r: SearchNextRes) {
    var k := FirstAbove(n.pairs, key);
    if k < |n.pairs| then SearchNextRes(n.pairs[k].son, NO_UID) else SearchNextRes(NO_UID, n.sibling)
  }

  /** leafSearchRange: the pairs from `left` to `right`, and where to go on.
      The sibling is followed only when the leaf ran out of pairs. */
  function LeafSearchRange(n: Node, left: int, right: int): (r: RangeRes) {
    var k := FirstAtLeast(n.pairs, left);
    var m := FirstAbove(n.pairs, right, k);
    RangeRes(n.pairs[k..m], if m == |n.pairs| then n.sibling else NO_UID)
  }

  /** An internal node with nothing to its right must hold a key that is not
      below the new one: otherwise the node code reads a slot it never wrote. */
  predicate Accepts(n: Node, key: int) {
    n.leaf || n.sibling != NO_UID || FirstAtLeast(n.pairs, key) < |n.pairs|
  }

  /** Node insertion. None means: not here, move to the right sibling.
      A leaf takes the pair as it is; an internal node splits the slot it finds,
      so that the old son keeps the new key and the new son takes the old key. */
  function InsertPair(n: Node, uid: int, key: int): (r: Option<Node>)
    requires Accepts(n, key)
  {
    var k := FirstAtLeast(n.pairs, key);
    if k == |n.pairs| && n.sibling != NO_UID then None
    else if n.leaf then Some(n.(pairs := n.pairs[..k] + [Pair(uid, key)] + n.pairs[k..]))
    else Some(n.(pairs := n.pairs[..k] + [Pair(n.pairs[k].son, key), Pair(uid, n.pairs[k].key)] + n.pairs[k + 1..]))
  }

  predicate NeedSplit(n: Node) {
    |n.pairs| == 2 * BALANCE_NUMBER
  }

  /** Split: the upper half moves to a new right sibling, whose first key is
      reported to the parent. */
  function SplitNode(n: Node, newUid: int): (r: SplitRes)
    requires NeedSplit(n)
    ensures r.left.pairs + r.right.pairs == n.pairs
    ensures |r.left.pairs| == |r.right.pairs| == 32
    ensures r.left.sibling == newUid && r.right.sibling == n.sibling
    ensures r.left.leaf == r.right.leaf == n.leaf
    ensures r.newKey == r.right.pairs[0].key
  {
    SplitRes(Node(n.leaf, newUid, n.pairs[..BALANCE_NUMBER]),
             Node(n.leaf, n.sibling, n.pairs[BALANCE_NUMBER..]),
             n.pairs[BALANCE_NUMBER].key)
  }

  function NewRoot(left: int, right: int, key: int): Node {
    Node(false, NO_UID, [Pair(left, key), Pair(right, MAX_KEY)])
  }

  function NilRoot(): Node {
    Node(true, NO_UID, [])
  }

  lemma SortedConcat(a: seq<Pair>, b: seq<Pair>, fence: int)
    requires Sorted(a) && Sorted(b)
    requires forall i | 0 <= i < |a| :: a[i].key <= fence
    requires forall i | 0 <= i < |b| :: fence <= b[i].key
    ensures Sorted(a + b)
  {
  }

  /** A sorted node stays sorted, whichever form of insertion it takes. */
  lemma InsertKeepsSorted(n: Node, uid: int, key: int)
    requires Accepts(n, key) && Sorted(n.pairs) && InsertPair(n, uid, key).Some?
    ensures Sorted(InsertPair(n, uid, key).value.pairs)
  {
    var k := FirstAtLeast(n.pairs, key);
    var a, b := n.pairs[..k], n.pairs[k..];
    if n.leaf {
      SortedConcat(a, [Pair(uid, key)], key);
      SortedConcat(a + [Pair(uid, key)], b, key);
    } else {
      var mid := [Pair(n.pairs[k].son, key), Pair(uid, n.pairs[k].key)];
      SortedConcat(a, mid, key);
      SortedConcat(a + mid, n.pairs[k + 1..], n.pairs[k].key);
    }
  }

  /** The last key of a node that has a right sibling never changes under
      insertion, nor does the last key of an internal node. */
  lemma InsertKeepsLastKey(n: Node, uid: int, key: int)
    requires Accepts(n, key) && InsertPair(n, uid, key).Some? && (n.sibling != NO_UID || !n.leaf)
    ensures var ps := InsertPair(n, uid, key).value.pairs;
            |n.pairs| > 0 && |ps| == |n.pairs| + 1 && ps[|ps| - 1].key == n.pairs[|n.pairs| - 1].key
  {
  }

  /** On a sorted leaf the range search cuts out exactly the pairs in range. */
  lemma LeafSearchRangeParts(n: Node, left: int, right: int) returns (a: seq<Pair>, b: seq<Pair>)
    requires Sorted(n.pairs)
    ensures var ps := LeafSearchRange(n, left, right).pairs;
            && n.pairs == a + ps + b
            && (forall i | 0 <= i < |ps| :: InRange(ps[i], left, right))
    ensures forall i | 0 <= i < |a| :: a[i].key < left
    ensures forall i | 0 <= i < |b| :: right < b[i].key
  {
    hide Sorted, InRange;
    var k := FirstAtLeast(n.pairs, left);
    var m := FirstAbove(n.pairs, right, k);
    a, b := n.pairs[..k], n.pairs[m..];
    AllInRange(n.pairs, k, m, left, right);
    CutInThree(n.pairs, k, m);
  }

  lemma CutInThree(ps: seq<Pair>, k: nat, m: nat)
    requires k <= m <= |ps|
    ensures ps == ps[..k] + ps[k..m] + ps[m..]
  {
  }

  lemma AllInRange(ps: seq<Pair>, k: nat, m: nat, left: int, right: int)
    requires Sorted(ps) && k <= m <= |ps|
    requires forall i | 0 <= i < k :: ps[i].key < left
    requires forall i | k <= i < m :: ps[i].key <= right
    requires k < |ps| ==> left <= ps[k].key
    requires m < |ps| ==> right < ps[m].key
    ensures forall i | 0 <= i < k :: ps[..k][i].key < left
    ensures forall i | 0 <= i < m - k :: InRange(ps[k..m][i], left, right)
    ensures forall i | 0 <= i < |ps| - m :: right < ps[m..][i].key
  {
    forall i | 0 <= i < m - k ensures InRange(ps[k..m][i], left, right) {
      assert ps[k].key <= ps[k + i].key;
    }
    forall i | 0 <= i < |ps| - m ensures right < ps[m..][i].key {
      assert ps[m].key <= ps[m + i].key;
    }
  }
}
