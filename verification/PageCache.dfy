/** The reference-counted page cache over a file, against a plain array of pages.
    Every locked section is one step, so threads interleave between them. */
module PageCaches {
  import opened Bytes
  import opened PageX

  /** A cached page and whether it was changed since it was read or written. */
  datatype Cached = Cached(data: Page, dirty: bool)

  /** `handles` counts the references that callers have been given and not released. */
  datatype State = State(
    cache: map<int, Cached>, references: map<int, nat>, getting: set<int>, count: int, maxResource: nat,
    disk: map<int, Page>, handles: multiset<int>)

  datatype Event =
    | Get(key: int)
    | Loaded(key: int)
    | LoadFailed(key: int)
    | Write(key: int, data: Page)
    | Release(key: int)
    | Flush(key: int)
    | NewPage(data: Page)

  datatype GetResult = Busy | Hit(data: Page) | Full | Load

  function ResultOf(s: State, key: int): GetResult {
    if key in s.getting then Busy
    else if key in s.cache then Hit(s.cache[key].data)
    else if s.maxResource > 0 && s.count == s.maxResource then Full
    else Load
  }

  /** A release matches an outstanding reference, a load was started, and only a
      holder of a page writes to it; pages are asked for by their numbers. */
  ghost predicate Can(s: State, e: Event) {
    match e
    case Get(key) => key in s.disk
    case Loaded(key) => key in s.getting
    case LoadFailed(key) => key in s.getting
    case Write(key, _) => key in s.handles
    case Release(key) => key in s.handles
    case Flush(key) => key in s.handles
    case NewPage(_) => true
  }

  function Opened(s: State, key: int): State
    requires ResultOf(s, key).Hit? ==> key in s.references
  {
    match ResultOf(s, key)
    case Busy => s
    case Full => s
    case Hit(_) => s.(references := s.references[key := s.references[key] + 1], handles := s.handles + multiset{key})
    case Load => s.(count := s.count + 1, getting := s.getting + {key})
  }

  function Kept(s: State, key: int): State
    requires key in s.disk
  {
    s.(getting := s.getting - {key}, cache := s.cache[key := Cached(s.disk[key], false)],
       references := s.references[key := 1], handles := s.handles + multiset{key})
  }

  function Released(s: State, key: int): State
    requires key in s.references && key in s.cache && s.references[key] > 0
  {
    if s.references[key] != 1 then
      s.(references := s.references[key := s.references[key] - 1], handles := s.handles - multiset{key})
    else
      s.(disk := if s.cache[key].dirty then s.disk[key := s.cache[key].data] else s.disk,
         references := s.references - {key}, cache := s.cache - {key}, count := s.count - 1,
         handles := s.handles - multiset{key})
  }

  ghost function Next(s: State, e: Event): State
    requires Ok(s) && Can(s, e)
  {
    match e
    case Get(key) => Opened(s, key)
    case Loaded(key) => Kept(s, key)
    case LoadFailed(key) => s.(count := s.count - 1, getting := s.getting - {key})
    case Write(key, data) => s.(cache := s.cache[key := Cached(data, true)])
    case Release(key) => Released(s, key)
    case Flush(key) => s.(disk := s.disk[key := s.cache[key].data])
    case NewPage(data) => s.(disk := s.disk[|s.disk| + 1 := data])
  }

  /** Counts agree with what is cached and being loaded, references with what callers
      hold, nothing is cached and loading at once, and the capacity is kept. */
  ghost predicate CountsOk(s: State) {
    && s.count == |s.cache.Keys| + |s.getting|
    && s.references.Keys == s.cache.Keys
    && (forall k | k in s.cache :: s.references[k] == s.handles[k] > 0)
    && (forall k | k in s.handles :: k in s.cache)
    && s.cache.Keys !! s.getting
    && (s.maxResource > 0 ==> s.count <= s.maxResource)
  }

  /** The pages are those from 1 on. */
  ghost predicate Numbered(m: map<int, Page>) {
    forall p :: p in m <==> 1 <= p <= |m|
  }

  /** Pages are numbered from 1, and clean ones are as on disk. */
  ghost predicate PagesOk(s: State) {
    && (forall k | k in s.cache || k in s.getting :: k in s.disk)
    && (forall k | k in s.cache && !s.cache[k].dirty :: s.cache[k].data == s.disk[k])
    && Numbered(s.disk)
  }

  ghost predicate Ok(s: State) {
    CountsOk(s) && PagesOk(s)
  }

  /** The pages as a caller sees them. */
  function Plain(s: State): map<int, Page> {
    map p | p in s.disk :: if p in s.cache then s.cache[p].data else s.disk[p]
  }

  /** A plain array of pages: writing and appending are all that changes it. */
  function PlainNext(pages: map<int, Page>, e: Event): map<int, Page> {
    match e
    case Write(key, data) => pages[key := data]
    case NewPage(data) => pages[|pages| + 1 := data]
    case Get(_) => pages
    case Loaded(_) => pages
    case LoadFailed(_) => pages
    case Release(_) => pages
    case Flush(_) => pages
  }

  lemma SizeAdded(m: map<int, Cached>, k: int, v: Cached)
    requires k !in m
    ensures |m[k := v].Keys| == |m.Keys| + 1
  {
    assert m[k := v].Keys == m.Keys + {k};
  }

  lemma SizeRemoved(m: map<int, Cached>, k: int)
    requires k in m
    ensures |(m - {k}).Keys| == |m.Keys| - 1
  {
    assert (m - {k}).Keys == m.Keys - {k};
  }

  lemma GetOk(s: State, key: int)
    requires Ok(s) && Can(s, Get(key))
    ensures Ok(Opened(s, key)) && Plain(Opened(s, key)) == Plain(s)
    ensures ResultOf(s, key).Hit? ==> ResultOf(s, key).data == Plain(s)[key]
  {
    hide CountsOk, Numbered;
    GetCounts(s, key);
  }

  lemma GetCounts(s: State, key: int)
    requires CountsOk(s)
    ensures key in s.cache ==> key in s.references
    ensures CountsOk(Opened(s, key))
  {
  }

  lemma LoadedOk(s: State, key: int)
    requires Ok(s) && Can(s, Loaded(key))
    ensures Ok(Kept(s, key)) && Plain(Kept(s, key)) == Plain(s)
    ensures Kept(s, key).cache[key].data == Plain(s)[key]
  {
    SizeAdded(s.cache, key, Cached(s.disk[key], false));
  }

  lemma LoadFailedOk(s: State, key: int)
    requires Ok(s) && Can(s, LoadFailed(key))
    ensures Ok(Next(s, LoadFailed(key))) && Plain(Next(s, LoadFailed(key))) == Plain(s)
  {
  }

  lemma WriteOk(s: State, key: int, data: Page)
    requires Ok(s) && Can(s, Write(key, data))
    ensures Ok(Next(s, Write(key, data))) && Plain(Next(s, Write(key, data))) == Plain(s)[key := data]
  {
    assert s.cache[key := Cached(data, true)].Keys == s.cache.Keys;
  }

  lemma ReleaseCounts(s: State, key: int)
    requires CountsOk(s) && key in s.handles
    ensures CountsOk(Released(s, key))
  {
    SizeRemoved(s.cache, key);
  }

  lemma ReleasePages(s: State, key: int)
    requires PagesOk(s) && key in s.cache && key in s.references && s.references[key] > 0
    ensures PagesOk(Released(s, key)) && Plain(Released(s, key)) == Plain(s)
  {
    DiskStays(s, key);
    var after := Released(s, key);
    assert after.disk.Keys == s.disk.Keys && |after.disk| == |s.disk|;
  }

  lemma ReleaseOk(s: State, key: int)
    requires Ok(s) && Can(s, Release(key))
    ensures Ok(Released(s, key)) && Plain(Released(s, key)) == Plain(s)
  {
    ReleaseCounts(s, key);
    ReleasePages(s, key);
  }

  lemma DiskStays(s: State, key: int)
    requires key in s.disk && key in s.cache
    ensures s.disk[key := s.cache[key].data].Keys == s.disk.Keys
    ensures |s.disk[key := s.cache[key].data]| == |s.disk|
  {
  }

  lemma FlushOk(s: State, key: int)
    requires Ok(s) && Can(s, Flush(key))
    ensures Ok(Next(s, Flush(key))) && Plain(Next(s, Flush(key))) == Plain(s)
  {
    DiskStays(s, key);
  }

  lemma Appending(m: map<int, Page>, data: Page)
    requires Numbered(m)
    ensures |m[|m| + 1 := data]| == |m| + 1 && Numbered(m[|m| + 1 := data]) && |m| + 1 !in m
  {
  }

  lemma ViewSize(s: State)
    ensures Plain(s).Keys == s.disk.Keys && |Plain(s)| == |s.disk|
  {
    assert Plain(s).Keys == s.disk.Keys;
    assert |Plain(s)| == |Plain(s).Keys|;
    assert |s.disk| == |s.disk.Keys|;
  }

  lemma AppendedView(s: State, n: int, data: Page)
    requires n !in s.disk && n !in s.cache
    ensures Plain(s.(disk := s.disk[n := data])) == Plain(s)[n := data]
  {
  }

  lemma AppendedPages(s: State, n: int, data: Page)
    requires PagesOk(s) && n !in s.disk && Numbered(s.disk[n := data])
    ensures PagesOk(s.(disk := s.disk[n := data])) && n !in s.cache
  {
    hide Numbered;
  }

  lemma NewPageStep(s: State, data: Page)
    requires Ok(s)
    ensures var after := s.(disk := s.disk[|s.disk| + 1 := data]);
            Next(s, NewPage(data)) == after && CountsOk(after) && Numbered(s.disk)
  {
  }

  lemma NewPageOk(s: State, data: Page)
    requires Ok(s)
    ensures Ok(Next(s, NewPage(data))) && Plain(Next(s, NewPage(data))) == Plain(s)[|Plain(s)| + 1 := data]
  {
    hide CountsOk, Numbered, PagesOk, Plain, Next;
    var n := |s.disk| + 1;
    var after := s.(disk := s.disk[n := data]);
    NewPageStep(s, data);
    Appending(s.disk, data);
    AppendedPages(s, n, data);
    AppendedView(s, n, data);
    assert |Plain(s)| == |s.disk| by { ViewSize(s); }
  }

  lemma GetStep(s: State, key: int)
    requires Ok(s) && Can(s, Get(key))
    ensures (ResultOf(s, key).Hit? ==> key in s.references) && Next(s, Get(key)) == Opened(s, key)
  {
  }

  /** Every step keeps the counts right and acts on the plain pages as it should. */
  lemma NextOk(s: State, e: Event)
    requires Ok(s) && Can(s, e)
    ensures Ok(Next(s, e)) && Plain(Next(s, e)) == PlainNext(Plain(s), e)
  {
    hide Ok, Plain, Can;
    match e
    case Get(key) =>
      GetOk(s, key);
      GetStep(s, key);
    case Loaded(key) => LoadedOk(s, key);
    case LoadFailed(key) => LoadFailedOk(s, key);
    case Write(key, data) => WriteOk(s, key, data);
    case Release(key) => ReleaseOk(s, key);
    case Flush(key) => FlushOk(s, key);
    case NewPage(data) => NewPageOk(s, data);
  }

  // Runs.

  ghost predicate Runs(s: State, events: seq<Event>, n: nat)
    requires Ok(s) && n <= |events|
    decreases |events| - n
  {
    n == |events| || (Can(s, events[n]) && (NextOk(s, events[n]); Runs(Next(s, events[n]), events, n + 1)))
  }

  ghost function After(s: State, events: seq<Event>, n: nat): State
    requires Ok(s) && n <= |events| && Runs(s, events, n)
    decreases |events| - n
  {
    if n == |events| then s
    else
      NextOk(s, events[n]);
      After(Next(s, events[n]), events, n + 1)
  }

  function PlainAfter(pages: map<int, Page>, events: seq<Event>, n: nat): map<int, Page>
    requires n <= |events|
    decreases |events| - n
  {
    if n == |events| then pages else PlainAfter(PlainNext(pages, events[n]), events, n + 1)
  }

  /** Over any interleaving the cache behaves as a plain array of pages: what a page
      holds is what was last written to it, and a request that finds a page, now or
      when its load is done, gets exactly that. */
  lemma {:induction false} RunsLikePlainPages(s: State, events: seq<Event>, n: nat)
    requires Ok(s) && n <= |events| && Runs(s, events, n)
    ensures var after := After(s, events, n);
            && Ok(after) && Plain(after) == PlainAfter(Plain(s), events, n)
            && forall k | k in after.disk && ResultOf(after, k).Hit? :: k in Plain(after) && ResultOf(after, k).data == Plain(after)[k]
    decreases |events| - n
  {
    hide Ok, Can, Next, PlainNext;
    if n < |events| {
      NextOk(s, events[n]);
      RunsLikePlainPages(Next(s, events[n]), events, n + 1);
    } else {
      forall k | k in s.disk && ResultOf(s, k).Hit? ensures ResultOf(s, k).data == Plain(s)[k] {
      }
    }
  }

  /** When every reference has been released and nothing is loading, the cache is
      empty and the pages are on disk. */
  lemma AllReleased(s: State)
    requires Ok(s) && s.handles == multiset{} && s.getting == {}
    ensures s.cache == map[] && s.references == map[] && s.count == 0 && s.disk == Plain(s)
  {
    forall k ensures k !in s.cache.Keys {
      assert s.handles[k] == 0;
    }
    assert s.cache.Keys == {};
    assert s.cache == map[] && s.references == map[];
  }

  // The file.

  const MAX_PAGES := 262144

  /** `(pgno-1) * PAGE_SIZE` in 32-bit arithmetic. */
  function PageOffset(pgno: int): int {
    Wrap32((pgno - 1) * PAGE_SIZE)
  }

  /** The offset is right up to page 262144 and wrong for every page after it. */
  lemma OffsetIsRight(pgno: int)
    requires 1 <= pgno < 0x8000_0000
    ensures PageOffset(pgno) == (pgno - 1) * PAGE_SIZE <==> pgno <= MAX_PAGES
  {
  }

  /** Pages 524288 apart share an offset. */
  lemma OffsetsRepeat(pgno: int)
    ensures PageOffset(pgno + 2 * MAX_PAGES) == PageOffset(pgno)
  {
  }

  /** `(int)length / PAGE_SIZE`, which truncates towards zero. */
  function CountPages(length: nat): int {
    var n := Wrap32(length);
    if n >= 0 then n / PAGE_SIZE else -((-n) / PAGE_SIZE)
  }

  /** Reopening counts the pages right exactly as long as there are fewer than 262144. */
  lemma PagesAreCounted(n: nat)
    ensures CountPages(n * PAGE_SIZE) == n <==> n < MAX_PAGES
  {
    if n < MAX_PAGES {
      assert Wrap32(n * PAGE_SIZE) == n * PAGE_SIZE;
    } else {
      assert Wrap32(n * PAGE_SIZE) < MAX_PAGES * PAGE_SIZE;
    }
  }

  ghost predicate Whole(file: seq<byte>, n: nat) {
    |file| == n * PAGE_SIZE && n <= MAX_PAGES
  }

  function PageIn(file: seq<byte>, pgno: int): Page
    requires 1 <= pgno && pgno * PAGE_SIZE <= |file|
  {
    file[(pgno - 1) * PAGE_SIZE..pgno * PAGE_SIZE]
  }

  ghost function DiskOf(file: seq<byte>, n: nat): map<int, Page>
    requires Whole(file, n)
  {
    map p: int | 1 <= p <= n :: PageIn(file, p)
  }

  lemma {:induction false} DiskSize(file: seq<byte>, n: nat)
    requires Whole(file, n)
    ensures |DiskOf(file, n)| == n && Numbered(DiskOf(file, n))
  {
    if n == 0 {
      assert DiskOf(file, 0) == map[];
    } else {
      var less := file[..(n - 1) * PAGE_SIZE];
      DiskSize(less, n - 1);
      DiskGrows(less, n - 1, PageIn(file, n));
      assert file == less + PageIn(file, n);
      Appending(DiskOf(less, n - 1), PageIn(file, n));
    }
  }

  lemma DiskGrows(file: seq<byte>, n: nat, data: Page)
    requires Whole(file, n) && n < MAX_PAGES
    ensures DiskOf(file + data, n + 1) == DiskOf(file, n)[n + 1 := data]
  {
    forall p | 1 <= p <= n ensures PageIn(file + data, p) == PageIn(file, p) {
    }
    assert PageIn(file + data, n + 1) == data;
  }

  lemma DiskWritten(file: seq<byte>, n: nat, pgno: int, data: Page)
    requires Whole(file, n) && 1 <= pgno <= n
    ensures 0 <= PageOffset(pgno) && PageOffset(pgno) + PAGE_SIZE <= |file|
    ensures Whole(Put(file, PageOffset(pgno), data), n)
    ensures DiskOf(Put(file, PageOffset(pgno), data), n) == DiskOf(file, n)[pgno := data]
  {
    OffsetIsRight(pgno);
    var after := Put(file, PageOffset(pgno), data);
    forall p | 1 <= p <= n ensures PageIn(after, p) == if p == pgno then data else PageIn(file, p) {
      PutReads(file, PageOffset(pgno), data, (p - 1) * PAGE_SIZE, p * PAGE_SIZE);
    }
  }

  /** The cache as an object over the file. Each method is one locked section; a
      request that has to load a page is finished or given up by a second one. */
  class PageCache {
    var file: seq<byte>
    var pageNumbers: int
    var cache: map<int, Cached>
    var references: map<int, nat>
    var getting: set<int>
    var count: int
    const maxResource: nat
    ghost var handles: multiset<int>

    ghost predicate FileOk()
      reads this
    {
      0 <= pageNumbers && Whole(file, pageNumbers)
    }

    ghost function View(): State
      requires FileOk()
      reads this
    {
      State(cache, references, getting, count, maxResource, DiskOf(file, pageNumbers), handles)
    }

    ghost predicate Valid()
      reads this
    {
      FileOk() && Ok(View())
    }

    constructor (contents: seq<byte>, maxResource: nat)
      requires |contents| % PAGE_SIZE == 0 && |contents| / PAGE_SIZE < MAX_PAGES
      ensures Valid() && file == contents && pageNumbers == |contents| / PAGE_SIZE && handles == multiset{} && getting == {}
      ensures Plain(View()) == DiskOf(contents, pageNumbers)
    {
      file, pageNumbers := contents, CountPages(|contents|);
      cache, references, getting, count, handles := map[], map[], {}, 0, multiset{};
      this.maxResource := maxResource;
      new;
      PagesAreCounted(|contents| / PAGE_SIZE);
      DiskSize(contents, pageNumbers);
    }

    /** The first locked section of get: it waits while the page is loading, finds it in
        the cache, is refused exactly when as many pages are cached or loading as there may
        be, or sets out to load it. */
    method BeginGet(key: int) returns (r: GetResult)
      requires Valid() && 1 <= key <= pageNumbers
      modifies `references, `count, `getting, `handles
      ensures Valid() && View() == Next(old(View()), Get(key)) && r == ResultOf(old(View()), key)
      ensures r.Hit? ==> key in Plain(View()) && r.data == Plain(View())[key]
      ensures r.Busy? <==> key in old(getting)
      ensures r.Hit? <==> key in cache && key !in old(getting)
      ensures r.Full? <==>
                key !in cache && key !in old(getting) && maxResource > 0 && |cache.Keys| + |old(getting)| >= maxResource
      ensures r.Hit? ==>
                && key in old(references) && references == old(references)[key := old(references)[key] + 1]
                && handles == old(handles) + multiset{key} && getting == old(getting) && count == old(count)
      ensures r.Load? ==>
                && getting == old(getting) + {key} && count == old(count) + 1
                && references == old(references) && handles == old(handles)
      ensures r.Busy? || r.Full? ==>
                references == old(references) && count == old(count) && getting == old(getting) && handles == old(handles)
    {
      hide Whole, DiskOf, Ok, Plain, Next, Can, ResultOf, Opened;
      ghost var s := View();
      DiskHas(file, pageNumbers, key);
      GetFacts(s, key);
      GetCases(s, key);
      if key in getting {
        return Busy;
      }
      if key in cache {
        references := references[key := references[key] + 1];
        handles := handles + multiset{key};
        return Hit(cache[key].data);
      }
      if maxResource > 0 && count == maxResource {
        return Full;
      }
      count := count + 1;
      getting := getting + {key};
      r := Load;
    }

    static lemma DiskHas(file: seq<byte>, n: nat, key: int)
      requires Whole(file, n)
      ensures key in DiskOf(file, n) <==> 1 <= key <= n
    {
    }

    static lemma GetCases(s: State, key: int)
      requires key in s.cache ==> key in s.references
      ensures key in s.getting ==> ResultOf(s, key) == Busy && Opened(s, key) == s
      ensures key !in s.getting && key in s.cache ==>
                && ResultOf(s, key) == Hit(s.cache[key].data)
                && Opened(s, key) == s.(references := s.references[key := s.references[key] + 1], handles := s.handles + multiset{key})
      ensures key !in s.getting && key !in s.cache && s.maxResource > 0 && s.count == s.maxResource ==>
                ResultOf(s, key) == Full && Opened(s, key) == s
      ensures key !in s.getting && key !in s.cache && !(s.maxResource > 0 && s.count == s.maxResource) ==>
                ResultOf(s, key) == Load && Opened(s, key) == s.(count := s.count + 1, getting := s.getting + {key})
    {
    }

    static lemma GetFacts(s: State, key: int)
      requires Ok(s) && key in s.disk
      ensures Can(s, Get(key)) && (key in s.cache ==> key in s.references)
      ensures Next(s, Get(key)) == Opened(s, key) && Ok(Opened(s, key))
      ensures s.count == |s.cache.Keys| + |s.getting| && (s.maxResource > 0 ==> s.count <= s.maxResource)
      ensures key in s.cache ==> key !in s.getting
      ensures key in Plain(Opened(s, key)) && (ResultOf(s, key).Hit? ==> ResultOf(s, key).data == Plain(Opened(s, key))[key])
    {
      GetOk(s, key);
    }

    /** The page is read from the file and kept. */
    method FinishGet(key: int) returns (data: Page)
      requires Valid() && key in getting
      modifies `references, `cache, `getting, `handles
      ensures Valid() && View() == Next(old(View()), Loaded(key))
      ensures key in Plain(View()) && data == Plain(View())[key]
      ensures data == PageIn(file, key)
      ensures cache == old(cache)[key := Cached(data, false)] && references == old(references)[key := 1]
      ensures getting == old(getting) - {key} && handles == old(handles) + multiset{key}
    {
      LoadedOk(View(), key);
      OffsetIsRight(key);
      var offset := PageOffset(key);
      data := file[offset..offset + PAGE_SIZE];
      getting := getting - {key};
      cache := cache[key := Cached(data, false)];
      references := references[key := 1];
      handles := handles + multiset{key};
    }

    method FailGet(key: int)
      requires Valid() && key in getting
      modifies `count, `getting
      ensures Valid() && View() == Next(old(View()), LoadFailed(key))
      ensures getting == old(getting) - {key} && count == old(count) - 1
    {
      LoadFailedOk(View(), key);
      count := count - 1;
      getting := getting - {key};
    }

    /** A holder changes its page and marks it dirty. */
    method SetData(key: int, data: Page)
      requires Valid() && key in handles
      modifies `cache
      ensures Valid() && View() == Next(old(View()), Write(key, data))
      ensures Plain(View()) == old(Plain(View()))[key := data]
      ensures cache == old(cache)[key := Cached(data, true)]
    {
      WriteOk(View(), key, data);
      cache := cache[key := Cached(data, true)];
    }

    method WriteToFile(key: int, data: Page)
      requires FileOk() && 1 <= key <= pageNumbers
      modifies `file
      ensures FileOk() && DiskOf(file, pageNumbers) == DiskOf(old(file), pageNumbers)[key := data]
    {
      DiskWritten(file, pageNumbers, key, data);
      file := Put(file, PageOffset(key), data);
    }

    /** Gives back a reference; the last one writes a dirty page to the file. */
    method Release(key: int)
      requires Valid() && key in handles
      modifies this
      ensures Valid() && View() == Next(old(View()), Event.Release(key)) && pageNumbers == old(pageNumbers)
      ensures Plain(View()) == old(Plain(View()))
      ensures key in old(references) && key in old(cache) && handles == old(handles) - multiset{key}
      ensures old(references)[key] > 1 ==>
                && references == old(references)[key := old(references)[key] - 1] && cache == old(cache)
                && file == old(file) && count == old(count)
      ensures old(references)[key] == 1 ==>
                && references == old(references) - {key} && cache == old(cache) - {key} && count == old(count) - 1
                && DiskOf(file, pageNumbers) ==
                   if old(cache)[key].dirty then old(DiskOf(file, pageNumbers))[key := old(cache)[key].data]
                   else old(DiskOf(file, pageNumbers))
    {
      hide Whole, DiskOf, Ok, Plain, Next;
      ghost var s := View();
      ReleaseFacts(s, key);
      DiskHas(file, pageNumbers, key);
      var ref := references[key] - 1;
      if ref == 0 {
        var pg := cache[key];
        if pg.dirty {
          WriteToFile(key, pg.data);
        }
        references := references - {key};
        cache := cache - {key};
        count := count - 1;
      } else {
        references := references[key := ref];
      }
      handles := handles - multiset{key};
      assert View() == Released(s, key);
    }

    static lemma ReleaseFacts(s: State, key: int)
      requires Ok(s) && key in s.handles
      ensures key in s.references && key in s.cache && s.references[key] > 0 && key in s.disk
      ensures Next(s, Event.Release(key)) == Released(s, key) && Ok(Released(s, key)) && Plain(Released(s, key)) == Plain(s)
    {
      ReleaseOk(s, key);
    }

    /** The file then holds the page as it is cached, and all others as before. */
    method FlushPage(key: int)
      requires Valid() && key in handles
      modifies `file
      ensures Valid() && View() == Next(old(View()), Flush(key))
      ensures key in cache && DiskOf(file, pageNumbers) == old(DiskOf(file, pageNumbers))[key := cache[key].data]
    {
      hide Whole, DiskOf, Ok, Plain;
      ReleaseFacts(View(), key);
      DiskHas(file, pageNumbers, key);
      FlushOk(View(), key);
      WriteToFile(key, cache[key].data);
    }

    /** Appends a page to the file. */
    method NewPage(initData: Page) returns (pgno: int)
      requires Valid() && pageNumbers < MAX_PAGES
      modifies `file, `pageNumbers
      ensures Valid() && View() == Next(old(View()), Event.NewPage(initData)) && pgno == pageNumbers == old(pageNumbers) + 1
      ensures Plain(View()) == old(Plain(View()))[pgno := initData]
    {
      hide DiskOf, Ok, Plain, Numbered, Next;
      ghost var s := View();
      DiskSize(file, pageNumbers);
      NewPageOk(s, initData);
      ViewSize(s);
      DiskGrows(file, pageNumbers, initData);
      pageNumbers := pageNumbers + 1;
      pgno := pageNumbers;
      OffsetIsRight(pgno);
      assert file[..PageOffset(pgno)] == file;
      file := file[..PageOffset(pgno)] + initData;
      NewPageStep(s, initData);
    }
  }
}
