/** The index of free space: 41 lists of pages, one for each 204 bytes of free
    space. */
module PageIndexes {
  import PageX

  const PAGE_SIZE := PageX.PAGE_SIZE
  const INTERVALS_NO := 40
  const THRESHOLD := PAGE_SIZE / INTERVALS_NO

  datatype PageInfo = PageInfo(pgno: int, freeSpace: int)
  datatype Selection = NoPage | Found(info: PageInfo)

  type Lists = seq<seq<PageInfo>>

  /** Every page is in the list of its free space. */
  ghost predicate Sorted(lists: Lists) {
    && |lists| == INTERVALS_NO + 1
    && forall n, i | 0 <= n <= INTERVALS_NO && 0 <= i < |lists[n]| ::
         0 <= lists[n][i].freeSpace && lists[n][i].freeSpace / THRESHOLD == n
  }

  function AddTo(lists: Lists, info: PageInfo): Lists
    requires |lists| == INTERVALS_NO + 1 && 0 <= info.freeSpace <= PAGE_SIZE
  {
    var n := info.freeSpace / THRESHOLD;
    lists[n := lists[n] + [info]]
  }

  /** The first list that select looks into. */
  function Start(size: nat): nat {
    var n := size / THRESHOLD;
    if n < INTERVALS_NO then n + 1 else n
  }

  /** The first list from `n` on that has a page. */
  function FirstFilled(lists: Lists, n: nat): (m: nat)
    ensures n <= |lists| ==> n <= m <= |lists|
    ensures m < |lists| ==> lists[m] != []
    ensures forall k | n <= k < m && k < |lists| :: lists[k] == []
    decreases |lists| - n
  {
    if n >= |lists| || lists[n] != [] then n else FirstFilled(lists, n + 1)
  }

  function Select(lists: Lists, size: nat): (Lists, Selection) {
    var m := FirstFilled(lists, Start(size));
    if m >= |lists| then (lists, NoPage) else (lists[m := lists[m][1..]], Found(lists[m][0]))
  }

  /** Everything in the first `n` lists. */
  ghost function All(lists: Lists, n: nat): multiset<PageInfo>
    requires n <= |lists|
  {
    if n == 0 then multiset{} else All(lists, n - 1) + multiset(lists[n - 1])
  }

  lemma Swap(a: multiset<PageInfo>, b: multiset<PageInfo>, c: multiset<PageInfo>)
    ensures (a + b) + c == (a + c) + b
  {
  }

  /** What remains when the same is taken from both sides. */
  lemma OneMore(before: multiset<PageInfo>, after: multiset<PageInfo>, list: multiset<PageInfo>, one: multiset<PageInfo>)
    requires after + list == before + (list + one)
    ensures after == before + one
  {
    forall x ensures after[x] == (before + one)[x] {
      assert (after + list)[x] == (before + (list + one))[x];
    }
  }

  lemma {:induction false} AllReplaced(lists: Lists, m: nat, list: seq<PageInfo>, n: nat)
    requires m < |lists| && n <= |lists|
    ensures n <= m ==> All(lists[m := list], n) == All(lists, n)
    ensures m < n ==> All(lists[m := list], n) + multiset(lists[m]) == All(lists, n) + multiset(list)
  {
    if n > 0 {
      AllReplaced(lists, m, list, n - 1);
      var after := lists[m := list];
      if m < n - 1 {
        Swap(All(after, n - 1), multiset(lists[n - 1]), multiset(lists[m]));
        Swap(All(lists, n - 1), multiset(lists[n - 1]), multiset(list));
      } else if m == n - 1 {
        Swap(All(lists, m), multiset(list), multiset(lists[m]));
      }
    }
  }

  lemma AddToAll(lists: Lists, info: PageInfo)
    requires Sorted(lists) && 0 <= info.freeSpace <= PAGE_SIZE
    ensures Sorted(AddTo(lists, info))
    ensures All(AddTo(lists, info), INTERVALS_NO + 1) == All(lists, INTERVALS_NO + 1) + multiset{info}
  {
    hide All;
    var n := info.freeSpace / THRESHOLD;
    AllReplaced(lists, n, lists[n] + [info], INTERVALS_NO + 1);
    OneMore(All(lists, INTERVALS_NO + 1), All(AddTo(lists, info), INTERVALS_NO + 1), multiset(lists[n]), multiset{info});
  }

  lemma TakeFromAll(lists: Lists, m: nat)
    requires |lists| == INTERVALS_NO + 1 && m < |lists| && lists[m] != []
    ensures All(lists, INTERVALS_NO + 1) == All(lists[m := lists[m][1..]], INTERVALS_NO + 1) + multiset{lists[m][0]}
  {
    hide All;
    var l := lists[m];
    AllReplaced(lists, m, l[1..], INTERVALS_NO + 1);
    assert l == [l[0]] + l[1..];
    assert multiset(l) == multiset(l[1..]) + multiset{l[0]};
    OneMore(All(lists[m := l[1..]], INTERVALS_NO + 1), All(lists, INTERVALS_NO + 1), multiset(l[1..]), multiset{l[0]});
  }

  lemma {:induction false} InAll(lists: Lists, n: nat, info: PageInfo) returns (m: nat)
    requires n <= |lists| && info in All(lists, n)
    ensures m < n && info in lists[m]
  {
    if info in lists[n - 1] {
      m := n - 1;
    } else {
      m := InAll(lists, n - 1, info);
    }
  }

  lemma TakeSorted(lists: Lists, m: nat)
    requires Sorted(lists) && m < |lists| && lists[m] != []
    ensures Sorted(lists[m := lists[m][1..]])
  {
    var after: Lists := lists[m := lists[m][1..]];
    forall n: int, i: int | 0 <= n <= INTERVALS_NO && 0 <= i < |after[n]|
      ensures 0 <= after[n][i].freeSpace && after[n][i].freeSpace / THRESHOLD == n
    {
      assert after[n][i] == if n == m then lists[m][i + 1] else lists[n][i];
    }
  }

  lemma RoomInList(size: nat, m: nat, freeSpace: nat)
    requires Start(size) <= m && freeSpace / THRESHOLD == m && size <= INTERVALS_NO * THRESHOLD
    ensures freeSpace >= size
  {
  }

  lemma NothingFrom(lists: Lists, n: nat, info: PageInfo)
    requires Sorted(lists) && info in All(lists, INTERVALS_NO + 1)
    requires forall k | n <= k <= INTERVALS_NO :: lists[k] == []
    ensures info.freeSpace / THRESHOLD < n
  {
    hide All;
    var k := InAll(lists, INTERVALS_NO + 1, info);
    var i :| 0 <= i < |lists[k]| && lists[k][i] == info;
  }

  /** Selecting takes one page out; a page is missed only when its free space is less
      than the lists looked into hold; and the page found has room whenever the size
      is at most 8160. */
  lemma SelectFinds(lists: Lists, size: nat)
    requires Sorted(lists)
    ensures var (after, s) := Select(lists, size);
            && Sorted(after)
            && (s.Found? ==> All(lists, INTERVALS_NO + 1) == All(after, INTERVALS_NO + 1) + multiset{s.info})
            && (s.Found? && size <= INTERVALS_NO * THRESHOLD ==> s.info.freeSpace >= size)
            && (s.NoPage? ==> after == lists && forall info | info in All(lists, INTERVALS_NO + 1) :: info.freeSpace / THRESHOLD < Start(size))
  {
    hide All, Start;
    assert |lists| == INTERVALS_NO + 1;
    var m := FirstFilled(lists, Start(size));
    if m < |lists| {
      assert lists[m][0].freeSpace / THRESHOLD == m && 0 <= lists[m][0].freeSpace;
      hide Sorted;
      TakeFromAll(lists, m);
      TakeSorted(lists, m);
      if size <= INTERVALS_NO * THRESHOLD {
        RoomInList(size, m, lists[m][0].freeSpace);
      }
    } else {
      forall info | info in All(lists, INTERVALS_NO + 1) ensures info.freeSpace / THRESHOLD < Start(size) {
        NothingFrom(lists, Start(size), info);
      }
    }
  }

  /** So a page with 204 bytes more than asked for is never missed, nor one of 8160 bytes
      or more when as much is asked for. */
  lemma RoomyIsFound(lists: Lists, size: nat, info: PageInfo)
    requires Sorted(lists) && info in All(lists, INTERVALS_NO + 1)
    requires info.freeSpace >= size + THRESHOLD || (INTERVALS_NO * THRESHOLD <= size <= PAGE_SIZE && info.freeSpace >= INTERVALS_NO * THRESHOLD)
    ensures Select(lists, size).1.Found?
  {
    hide All;
    SelectFinds(lists, size);
    var m := InAll(lists, INTERVALS_NO + 1, info);
    var i :| 0 <= i < |lists[m]| && lists[m][i] == info;
    RoomyList(size, m, info.freeSpace);
  }

  lemma RoomyList(size: nat, m: nat, freeSpace: nat)
    requires freeSpace / THRESHOLD == m <= INTERVALS_NO
    requires freeSpace >= size + THRESHOLD || (INTERVALS_NO * THRESHOLD <= size <= PAGE_SIZE && freeSpace >= INTERVALS_NO * THRESHOLD)
    ensures Start(size) <= m
  {
    var n := size / THRESHOLD;
    OfList(freeSpace, m);
    OfList(size, n);
    StartIs(size, n);
    hide Start;
    Bounds(size, n, m, freeSpace);
  }

  lemma StartIs(size: nat, n: nat)
    requires size / THRESHOLD == n
    ensures Start(size) == if n < INTERVALS_NO then n + 1 else n
  {
  }

  lemma Bounds(size: int, n: int, m: int, freeSpace: int)
    requires n * 204 <= size < n * 204 + 204 && m * 204 <= freeSpace < m * 204 + 204
    requires freeSpace >= size + 204 || (8160 <= size <= 8192 && freeSpace >= 8160)
    ensures if n < 40 then n + 1 <= m else n <= m
  {
  }

  lemma OfList(size: nat, n: nat)
    requires size / THRESHOLD == n
    ensures n * 204 <= size < n * 204 + 204
  {
  }

  /** The page taken is one of the fullest lists that are sure to have room: none with 204
      bytes less to spare was passed by. */
  lemma TightestIsTaken(lists: Lists, size: nat, info: PageInfo)
    requires Sorted(lists) && info in All(lists, INTERVALS_NO + 1) && Select(lists, size).1.Found?
    requires info.freeSpace >= size + THRESHOLD || (INTERVALS_NO * THRESHOLD <= size <= PAGE_SIZE && info.freeSpace >= INTERVALS_NO * THRESHOLD)
    ensures Select(lists, size).1.info.freeSpace < info.freeSpace + THRESHOLD
  {
    var m := InAll(lists, INTERVALS_NO + 1, info);
    var i :| 0 <= i < |lists[m]| && lists[m][i] == info;
    assert info.freeSpace / THRESHOLD == m;
    hide All, Start, FirstFilled;
    RoomyList(size, m, info.freeSpace);
    TightList(lists, Start(size), m);
    var n := FirstFilled(lists, Start(size));
    OfList(info.freeSpace, m);
    OfList(lists[n][0].freeSpace, n);
  }

  lemma TightList(lists: Lists, from: nat, m: nat)
    requires Sorted(lists) && from <= m < |lists| && lists[m] != []
    ensures var n := FirstFilled(lists, from);
            n <= m && lists[n] != [] && 0 <= lists[n][0].freeSpace && lists[n][0].freeSpace / THRESHOLD == n
  {
  }

  lemma StartInRange(size: nat)
    requires size <= PAGE_SIZE
    ensures Start(size) <= INTERVALS_NO == (PAGE_SIZE - 2) / THRESHOLD
  {
    var n := size / THRESHOLD;
    assert n * THRESHOLD <= size;
  }

  lemma StartOfLarge(size: nat)
    requires INTERVALS_NO * THRESHOLD <= size <= PAGE_SIZE
    ensures Start(size) == INTERVALS_NO
  {
  }

  lemma FilledAt(lists: Lists, n: nat)
    requires n < |lists| && lists[n] != []
    ensures FirstFilled(lists, n) == n
  {
  }

  /** From 8161 bytes on the page found may be too small: a page with 8160 bytes free
      is in the last list, and that is where the search starts. */
  lemma SelectMayLackRoom(lists: Lists, size: nat, info: PageInfo)
    requires Sorted(lists) && INTERVALS_NO * THRESHOLD < size <= PAGE_SIZE && info.freeSpace == INTERVALS_NO * THRESHOLD
    requires lists[INTERVALS_NO] == [info]
    ensures Select(lists, size).1 == Found(info) && info.freeSpace < size
  {
    hide Start, FirstFilled;
    StartOfLarge(size);
    FilledAt(lists, INTERVALS_NO);
  }

  class PageIndex {
    var lists: array<seq<PageInfo>>

    ghost predicate Valid()
      reads this, lists
    {
      Sorted(lists[..])
    }

    ghost function Contents(): multiset<PageInfo>
      requires Valid()
      reads this, lists
    {
      All(lists[..], INTERVALS_NO + 1)
    }

    constructor ()
      ensures Valid() && Contents() == multiset{} && fresh(lists)
    {
      lists := new seq<PageInfo>[INTERVALS_NO + 1](_ => []);
      new;
      Empty(lists[..], INTERVALS_NO + 1);
    }

    static lemma Empty(l: Lists, n: nat)
      requires n <= |l| && forall k | 0 <= k < |l| :: l[k] == []
      ensures All(l, n) == multiset{}
    {
    }

    method Add(pgno: int, freeSpace: int)
      requires Valid() && 0 <= freeSpace <= PAGE_SIZE
      modifies lists
      ensures Valid() && lists[..] == AddTo(old(lists[..]), PageInfo(pgno, freeSpace))
      ensures Contents() == old(Contents()) + multiset{PageInfo(pgno, freeSpace)}
    {
      AddToAll(lists[..], PageInfo(pgno, freeSpace));
      var number := freeSpace / THRESHOLD;
      lists[number] := lists[number] + [PageInfo(pgno, freeSpace)];
    }

    /** Has 204 bytes more than asked for, or is one of the emptiest pages there can be. */
    static predicate Roomy(info: PageInfo, size: nat) {
      info.freeSpace >= size + THRESHOLD || (INTERVALS_NO * THRESHOLD <= size <= PAGE_SIZE && info.freeSpace >= INTERVALS_NO * THRESHOLD)
    }

    /** Takes out a page for `spaceSize` bytes, one of the tightest that are sure to have
        room; or finds none, when no page has 204 bytes more than that. */
    method SelectPage(spaceSize: nat) returns (s: Selection)
      requires Valid()
      modifies lists
      ensures Valid() && (lists[..], s) == Select(old(lists[..]), spaceSize)
      ensures s.Found? ==> old(Contents()) == Contents() + multiset{s.info}
      ensures s.Found? && spaceSize <= INTERVALS_NO * THRESHOLD ==> s.info.freeSpace >= spaceSize
      ensures s.NoPage? ==> Contents() == old(Contents()) && forall info | info in Contents() :: info.freeSpace / THRESHOLD < Start(spaceSize)
      ensures (exists info :: info in old(Contents()) && Roomy(info, spaceSize)) ==> s.Found?
      ensures s.Found? ==> forall info | info in old(Contents()) && Roomy(info, spaceSize) :: s.info.freeSpace < info.freeSpace + THRESHOLD
    {
      SelectFinds(lists[..], spaceSize);
      forall info | info in Contents() && Roomy(info, spaceSize)
        ensures Select(lists[..], spaceSize).1.Found?
        ensures Select(lists[..], spaceSize).1.info.freeSpace < info.freeSpace + THRESHOLD
      {
        RoomyIsFound(lists[..], spaceSize, info);
        TightestIsTaken(lists[..], spaceSize, info);
      }
      var number := spaceSize / THRESHOLD;
      if number < INTERVALS_NO {
        number := number + 1;
      }
      while number <= INTERVALS_NO
        invariant Start(spaceSize) <= number
        invariant lists[..] == old(lists[..])
        invariant FirstFilled(lists[..], Start(spaceSize)) == FirstFilled(lists[..], number)
      {
        if |lists[number]| == 0 {
          number := number + 1;
          continue;
        }
        s := Found(lists[number][0]);
        lists[number] := lists[number][1..];
        return;
      }
      s := NoPage;
    }
  }
}
