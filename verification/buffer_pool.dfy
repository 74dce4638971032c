/** The page cache (`simpledb.BufferPool`, the locking version): a bounded
    map from page id to page with a counter of cached pages, a lock manager
    consulted before every access, NO STEAL eviction of clean pages only,
    and commit and abort built on the pages' dirty marks and before-images.
    Pages are cached as `Page` values; a change a caller makes to a cached
    page object is written back with `UpdatePage`. */
module BufferPool {
  import opened Common
  import opened Ids
  import opened Types
  import opened TupleDesc
  import opened PageLayout
  import opened HeapPage
  import LM = LockManager
  import FS = FileStore

  /** `DEFAULT_PAGES`. */
  const DEFAULT_PAGES: int := 50

  /** The pages flushed while dirtied by `tid`, or none. */
  function FlushedOf(m: map<Tid, set<HeapPageId>>, tid: Tid): set<HeapPageId>
  {
    if tid in m then m[tid] else {}
  }

  /** `addDirtiedFlushedPage` for each page of `pids`: the transaction's
      entry grows by `pids`, created if needed; nothing changes when `pids`
      is empty. */
  function RecordFlushed(m: map<Tid, set<HeapPageId>>, tid: Tid, pids: set<HeapPageId>): (r: map<Tid, set<HeapPageId>>)
    ensures FlushedOf(r, tid) == FlushedOf(m, tid) + pids
    ensures forall u :: u != tid ==> (u in r <==> u in m) && FlushedOf(r, u) == FlushedOf(m, u)
  {
    if pids == {} then m else m[tid := FlushedOf(m, tid) + pids]
  }

  lemma RecordFlushedStep(m: map<Tid, set<HeapPageId>>, tid: Tid, pids: set<HeapPageId>, pid: HeapPageId)
    ensures RecordFlushed(RecordFlushed(m, tid, pids), tid, {pid}) == RecordFlushed(m, tid, pids + {pid})
  {
    if pids == {} {
      assert pids + {pid} == {pid};
    } else {
      var m1 := m[tid := FlushedOf(m, tid) + pids];
      assert FlushedOf(m1, tid) + {pid} == FlushedOf(m, tid) + (pids + {pid});
      assert m1[tid := FlushedOf(m1, tid) + {pid}] == m[tid := FlushedOf(m, tid) + (pids + {pid})];
    }
  }

  /** The flushed sets after flushing `pids` on behalf of `tid`; a flush
      for no transaction records nothing. */
  function RecordFlushedFor(m: map<Tid, set<HeapPageId>>, tid: Option<Tid>, pids: set<HeapPageId>): map<Tid, set<HeapPageId>>
  {
    if tid.Some? then RecordFlushed(m, tid.value, pids) else m
  }

  lemma RecordFlushedForStep(m: map<Tid, set<HeapPageId>>, tid: Option<Tid>, pids: set<HeapPageId>, pid: HeapPageId, add: bool)
    ensures RecordFlushedFor(RecordFlushedFor(m, tid, pids), tid, if add then {pid} else {}) == RecordFlushedFor(m, tid, pids + if add then {pid} else {})
  {
    if tid.Some? && add {
      RecordFlushedStep(m, tid.value, pids, pid);
    } else if tid.Some? {
      assert pids + {} == pids;
    }
  }

  /** A page after `flushPage`: a dirty page is marked clean, a clean one
      is left alone. */
  function FlushedPage(p: Page): (q: Page)
    ensures q.pid == p.pid && q.desc == p.desc && q.header == p.header && q.slots == p.slots && q.oldData == p.oldData
    ensures DirtiedBy(q).None?
    ensures DirtiedBy(p).None? ==> q == p
  {
    if DirtiedBy(p).Some? then WithDirty(p, false, None) else p
  }

  /** A page after `flushPages(tid)`: flushed when `tid` dirtied it. */
  function FlushedIf(tid: Option<Tid>, p: Page): (q: Page)
  {
    if DirtiedBy(p) == tid then FlushedPage(p) else p
  }

  /** The page is cached and dirty. */
  predicate IsDirtyIn(m: map<HeapPageId, Page>, pid: HeapPageId)
  {
    pid in m && DirtiedBy(m[pid]).Some?
  }

  /** Every cached page is well formed and filed under its own id. */
  ghost predicate CacheOk(m: map<HeapPageId, Page>)
  {
    forall pid :: pid in m ==> m[pid].pid == pid && WellFormed(m[pid])
  }

  /** Replacing a cached page by a well-formed page with the same id keeps
      the cache's invariant and size. */
  lemma CacheOkUpdate(m: map<HeapPageId, Page>, p: Page)
    requires CacheOk(m) && p.pid in m && WellFormed(p)
    ensures CacheOk(m[p.pid := p]) && |m[p.pid := p]| == |m|
  {
    assert m[p.pid := p].Keys == m.Keys;
  }

  /** Caching a well-formed page under a new id keeps the cache's
      invariant and grows it by one. */
  lemma CacheOkAdd(m: map<HeapPageId, Page>, p: Page)
    requires CacheOk(m) && p.pid !in m && WellFormed(p)
    ensures CacheOk(m[p.pid := p]) && |m[p.pid := p]| == |m| + 1
  {
  }

  /** Dropping a cached page keeps the cache's invariant and shrinks it by
      one. */
  lemma CacheOkDrop(m: map<HeapPageId, Page>, pid: HeapPageId)
    requires CacheOk(m) && pid in m
    ensures CacheOk(m - {pid}) && |m - {pid}| == |m| - 1
  {
    MapRemoveCard(m, pid);
  }

  lemma MapRemoveCard<K, V>(m: map<K, V>, k: K)
    requires k in m
    ensures |m - {k}| == |m| - 1
  {
    assert (m - {k}).Keys == m.Keys - {k};
  }

  /** The cached pages whose dirtier is `tid`. */
  function DirtiedSet(m: map<HeapPageId, Page>, tid: Option<Tid>): (s: set<HeapPageId>)
    ensures forall q :: q in s <==> q in m && DirtiedBy(m[q]) == tid
  {
    set q | q in m && DirtiedBy(m[q]) == tid
  }

  /** A cached page after `transactionComplete(tid, true)`: a page dirtied
      by `tid` is flushed, so clean, and its before-image is refreshed; a
      page flushed earlier while dirtied by `tid` (`flushed`) only has its
      before-image refreshed; any other page is left alone. */
  function CommittedPage(c: Codec, tid: Tid, flushed: set<HeapPageId>, pid: HeapPageId, p: Page): (q: Page)
    requires Shaped(p)
    ensures q.pid == p.pid && q.desc == p.desc && q.header == p.header && q.slots == p.slots
    ensures DirtiedBy(q) == (if DirtiedBy(p) == Some(tid) then None else DirtiedBy(p))
    ensures (DirtiedBy(p) == Some(tid) || pid in flushed) ==> q.oldData == PageData(c, p)
    ensures !(DirtiedBy(p) == Some(tid) || pid in flushed) ==> q == p
  {
    if DirtiedBy(p) == Some(tid) then WithBeforeImage(c, WithDirty(p, false, None))
    else if pid in flushed then WithBeforeImage(c, p)
    else p
  }

  /** A cached page after `transactionComplete(tid, false)`: a page dirtied
      by `tid` is replaced by its before-image, any other is left alone. */
  function AbortedPage(c: Codec, tid: Tid, p: Page): (q: Page)
    requires |p.oldData| == PAGE_SIZE
    ensures q.pid == p.pid && q.desc == p.desc
    ensures DirtiedBy(p) == Some(tid) ==> DirtiedBy(q).None? && q == BeforeImage(c, p)
    ensures DirtiedBy(p) != Some(tid) ==> q == p
  {
    if DirtiedBy(p) == Some(tid) then BeforeImage(c, p) else p
  }

  /** A page a commit touched keeps its content as its before-image: a
      later abort of whichever transaction dirties it next brings back
      exactly the committed tuples. */
  lemma AbortAfterCommitRestores(c: Codec, tid: Tid, flushed: set<HeapPageId>, pid: HeapPageId, p: Page, later: Page, u: Tid)
    requires WellFormed(p) && WellBehaved(c) && FieldsRoundTrip(c, p)
    requires DirtiedBy(p) == Some(tid) || pid in flushed
    requires later.oldData == CommittedPage(c, tid, flushed, pid, p).oldData && later.pid == p.pid && later.desc == p.desc
    requires DirtiedBy(later) == Some(u)
    ensures |later.oldData| == PAGE_SIZE
    ensures var q := AbortedPage(c, u, later);
            q.header == p.header && q.slots == p.slots && DirtiedBy(q).None?
  {
    PageDataLayout(c, p);
    ParsePageData(c, p);
  }

  /** A page abort puts back is well formed. */
  lemma AbortedPageWellFormed(c: Codec, tid: Tid, p: Page)
    requires WellFormed(p) && WellBehaved(c)
    ensures WellFormed(AbortedPage(c, tid, p))
  {
    ParseWellFormed(c, p.pid, p.desc, p.oldData);
  }

  /** A page committed by `tid` is well formed. */
  lemma CommittedPageWellFormed(c: Codec, tid: Tid, flushed: set<HeapPageId>, pid: HeapPageId, p: Page)
    requires WellFormed(p) && WellBehaved(c)
    ensures WellFormed(CommittedPage(c, tid, flushed, pid, p))
  {
    SetBeforeImageWellFormed(c, p);
    SetBeforeImageWellFormed(c, WithDirty(p, false, None));
  }


  /** What the pool's operations change: the cached pages, the flushed
      sets and the tables' files. */
  datatype PoolState = PoolState(pages: map<HeapPageId, Page>, flushed: map<Tid, set<HeapPageId>>, files: map<int, seq<Byte>>)

  /** `flushPage(pid)` on the pool's state. A dirty cached page is first
      recorded in its dirtier's flushed set, then written to its table's
      file and marked clean; if the write fails the record stays and the
      error is returned. A clean or uncached page changes nothing. */
  function FlushStep(c: Codec, s: PoolState, pid: HeapPageId): (r: (PoolState, Result<()>))
    requires pid in s.pages ==> Shaped(s.pages[pid])
    ensures r.0.pages.Keys == s.pages.Keys && |r.0.pages| == |s.pages|
    ensures !IsDirtyIn(s.pages, pid) ==> r == (s, Ok(()))
    ensures IsDirtyIn(s.pages, pid) ==> r.0.flushed == RecordFlushed(s.flushed, DirtiedBy(s.pages[pid]).value, {pid})
    ensures r.1.Ok? && pid in s.pages ==> r.0.pages == s.pages[pid := FlushedPage(s.pages[pid])]
    ensures r.1.Err? ==> r.0.pages == s.pages && r.0.files == s.files
    ensures forall t :: t != pid.tableId && t in s.files ==> t in r.0.files && r.0.files[t] == s.files[t]
  {
    if !IsDirtyIn(s.pages, pid) then (s, Ok(()))
    else
      var p := s.pages[pid];
      var flushed := RecordFlushed(s.flushed, DirtiedBy(p).value, {pid});
      if pid.tableId !in s.files then (s.(flushed := flushed), Err(NoSuchElement))
      else
        match FS.WritePageBytes(s.files[pid.tableId], pid.pageNumber, PageData(c, p))
        case Err(e) => (s.(flushed := flushed), Err(e))
        case Ok(w) =>
          assert s.pages[pid := FlushedPage(p)].Keys == s.pages.Keys;
          (PoolState(s.pages[pid := FlushedPage(p)], flushed, s.files[pid.tableId := w]), Ok(()))
  }

  /** Flushing cached pages keeps every one of them well formed. */
  lemma CacheOkFlushed(m: map<HeapPageId, Page>, n: map<HeapPageId, Page>)
    requires CacheOk(m) && n.Keys == m.Keys
    requires forall q :: q in n ==> n[q] == m[q] || n[q] == FlushedPage(m[q])
    ensures CacheOk(n)
  {
  }

  /** After a successful flush of a dirty page its table's file holds the
      page: reading the page back gives the bytes of the cached page, and
      parsing them gives the cached (now clean) page with those bytes as its
      before-image. */
  lemma FlushStepReadsBack(c: Codec, s: PoolState, pid: HeapPageId)
    requires CacheOk(s.pages) && WellBehaved(c) && IsDirtyIn(s.pages, pid) && FieldsRoundTrip(c, s.pages[pid])
    requires FlushStep(c, s, pid).1.Ok?
    ensures var t := FlushStep(c, s, pid).0;
            var data := PageData(c, s.pages[pid]);
            && pid.tableId in t.files
            && FS.ReadPageBytes(t.files[pid.tableId], pid.pageNumber) == Ok(data)
            && Parse(c, pid, s.pages[pid].desc, data) == t.pages[pid].(oldData := data)
  {
    var p := s.pages[pid];
    var data := PageData(c, p);
    PageDataLayout(c, p);
    FS.ReadAfterWrite(s.files[pid.tableId], pid.pageNumber, data);
    ParsePageData(c, p);
  }

  /** Flushing is idempotent: right after a successful flush of a page, a
      second flush of it writes and records nothing. */
  lemma FlushStepIdempotent(c: Codec, s: PoolState, pid: HeapPageId)
    requires CacheOk(s.pages) && FlushStep(c, s, pid).1.Ok?
    ensures var t := FlushStep(c, s, pid).0;
            FlushStep(c, t, pid) == (t, Ok(()))
  {
    var t := FlushStep(c, s, pid).0;
    if pid in s.pages {
      assert !IsDirtyIn(t.pages, pid);
    }
  }

  /** One page of the commit loop of `transactionComplete(tid, true)`: a
      page dirtied by `tid` is flushed and then takes its content as
      before-image; a page in `tid`'s earlier flushed set only takes its
      content as before-image. */
  function CommitStep(c: Codec, tid: Tid, flushedBefore: set<HeapPageId>, s: PoolState, pid: HeapPageId): (r: (PoolState, Result<()>))
    requires pid in s.pages && Shaped(s.pages[pid])
    ensures r.0.pages.Keys == s.pages.Keys && |r.0.pages| == |s.pages|
    ensures r.1.Ok? ==> r.0.pages == s.pages[pid := CommittedPage(c, tid, flushedBefore, pid, s.pages[pid])]
    ensures r.1.Err? ==> r.0.pages == s.pages
    ensures r.0.flushed - {tid} == s.flushed - {tid}
    ensures DirtiedBy(s.pages[pid]) != Some(tid) ==> r.1.Ok? && r.0.files == s.files
  {
    var p := s.pages[pid];
    if DirtiedBy(p) == Some(tid) then
      var (t, res) := FlushStep(c, s, pid);
      assert t.flushed - {tid} == s.flushed - {tid};
      if res.Err? then (t, res)
      else
        assert t.pages[pid := WithBeforeImage(c, t.pages[pid])].Keys == s.pages.Keys;
        (t.(pages := t.pages[pid := WithBeforeImage(c, t.pages[pid])]), Ok(()))
    else if pid in flushedBefore then
      assert s.pages[pid := WithBeforeImage(c, p)].Keys == s.pages.Keys;
      (s.(pages := s.pages[pid := WithBeforeImage(c, p)]), Ok(()))
    else (s, Ok(()))
  }

  /** Committing cached pages keeps every one of them well formed. */
  lemma CacheOkCommitted(c: Codec, tid: Tid, flushed: set<HeapPageId>, m: map<HeapPageId, Page>, n: map<HeapPageId, Page>)
    requires CacheOk(m) && WellBehaved(c) && n.Keys == m.Keys
    requires forall q :: q in n ==> n[q] == m[q] || n[q] == CommittedPage(c, tid, flushed, q, m[q])
    ensures CacheOk(n)
  {
    forall q | q in n
      ensures n[q].pid == q && WellFormed(n[q])
    {
      CommittedPageWellFormed(c, tid, flushed, q, m[q]);
    }
  }

  /** Aborting cached pages keeps every one of them well formed. */
  lemma CacheOkAborted(c: Codec, tid: Tid, m: map<HeapPageId, Page>, n: map<HeapPageId, Page>)
    requires CacheOk(m) && WellBehaved(c) && n.Keys == m.Keys
    requires forall q :: q in n ==> n[q] == AbortedPage(c, tid, m[q])
    ensures CacheOk(n)
  {
    forall q | q in n
      ensures n[q].pid == q && WellFormed(n[q])
    {
      AbortedPageWellFormed(c, tid, m[q]);
    }
  }

  /** The invariant of the `flushPages(tid)` loop: the pages already
      visited (those not in `todo`) are flushed if `tid` dirtied them, the
      others are as they were, and the flushed set of `tid` has grown by the
      visited pages it dirtied. */
  ghost predicate FlushedSoFar(tid: Option<Tid>, s: PoolState, t: PoolState, todo: set<HeapPageId>)
  {
    && todo <= t.pages.Keys == s.pages.Keys && |t.pages| == |s.pages|
    && (forall q :: q in t.pages ==> t.pages[q] == if q in todo then s.pages[q] else FlushedIf(tid, s.pages[q]))
    && t.flushed == RecordFlushedFor(s.flushed, tid, DirtiedSet(s.pages, tid) - todo)
    && (tid.None? ==> t.files == s.files)
  }

  /** A turn of the `flushPages(tid)` loop that skips a page `tid` did not
      dirty keeps its invariant. */
  lemma FlushedSoFarSkip(tid: Option<Tid>, s: PoolState, t: PoolState, todo: set<HeapPageId>, pid: HeapPageId)
    requires FlushedSoFar(tid, s, t, todo) && pid in todo && DirtiedBy(t.pages[pid]) != tid
    ensures FlushedSoFar(tid, s, t, todo - {pid})
  {
    var done := DirtiedSet(s.pages, tid) - todo;
    RecordFlushedForStep(s.flushed, tid, done, pid, false);
    assert DirtiedSet(s.pages, tid) - (todo - {pid}) == done + {};
  }

  /** A turn of the `flushPages(tid)` loop that flushes a page `tid`
      dirtied keeps its invariant when the flush succeeds. */
  lemma FlushedSoFarWrite(c: Codec, tid: Option<Tid>, s: PoolState, t: PoolState, todo: set<HeapPageId>, pid: HeapPageId)
    requires FlushedSoFar(tid, s, t, todo) && pid in todo && Shaped(t.pages[pid]) && DirtiedBy(t.pages[pid]) == tid
    ensures FlushStep(c, t, pid).1.Ok? ==> FlushedSoFar(tid, s, FlushStep(c, t, pid).0, todo - {pid})
  {
    var done := DirtiedSet(s.pages, tid) - todo;
    RecordFlushedForStep(s.flushed, tid, done, pid, true);
    assert DirtiedSet(s.pages, tid) - (todo - {pid}) == done + {pid};
  }

  /** One turn of the `flushPages(tid)` loop keeps its invariant. */
  lemma FlushedSoFarStep(c: Codec, tid: Option<Tid>, s: PoolState, t: PoolState, todo: set<HeapPageId>, pid: HeapPageId)
    requires FlushedSoFar(tid, s, t, todo) && pid in todo && Shaped(t.pages[pid])
    ensures DirtiedBy(t.pages[pid]) == tid ==>
              var (u, r) := FlushStep(c, t, pid);
              r.Ok? ==> FlushedSoFar(tid, s, u, todo - {pid})
    ensures DirtiedBy(t.pages[pid]) != tid ==> FlushedSoFar(tid, s, t, todo - {pid})
    ensures tid.None? && DirtiedBy(t.pages[pid]) == tid ==> FlushStep(c, t, pid).1.Ok?
  {
    if DirtiedBy(t.pages[pid]) == tid {
      FlushedSoFarWrite(c, tid, s, t, todo, pid);
    } else {
      FlushedSoFarSkip(tid, s, t, todo, pid);
    }
  }

  /** Before the `flushPages(tid)` loop no page has been visited. */
  lemma FlushedSoFarStart(tid: Option<Tid>, s: PoolState)
    ensures FlushedSoFar(tid, s, s, s.pages.Keys)
  {
    assert DirtiedSet(s.pages, tid) - s.pages.Keys == {};
  }

  /** Part way through the `flushPages(tid)` loop the cache is still well
      formed. */
  lemma FlushedSoFarCacheOk(tid: Option<Tid>, s: PoolState, t: PoolState, todo: set<HeapPageId>)
    requires CacheOk(s.pages) && FlushedSoFar(tid, s, t, todo)
    ensures CacheOk(t.pages)
  {
    CacheOkFlushed(s.pages, t.pages);
  }

  /** At the end of the `flushPages(tid)` loop every page `tid` dirtied is
      flushed and recorded. */
  lemma FlushedSoFarDone(tid: Option<Tid>, s: PoolState, t: PoolState)
    requires FlushedSoFar(tid, s, t, {})
    ensures forall q :: q in t.pages ==> t.pages[q] == FlushedIf(tid, s.pages[q])
    ensures t.flushed == RecordFlushedFor(s.flushed, tid, DirtiedSet(s.pages, tid))
  {
    assert DirtiedSet(s.pages, tid) - {} == DirtiedSet(s.pages, tid);
  }

  /** One turn of the `flushPages(tid)` loop: page `pid` is flushed when
      its dirtier is `tid`. */
  method FlushOneOf(c: Codec, s: PoolState, t: PoolState, tid: Option<Tid>, todo: set<HeapPageId>, pid: HeapPageId)
    returns (u: PoolState, r: Result<()>)
    requires CacheOk(s.pages) && FlushedSoFar(tid, s, t, todo) && pid in todo
    ensures r.Ok? ==> FlushedSoFar(tid, s, u, todo - {pid}) && |todo - {pid}| < |todo|
    ensures r.Err? ==> CacheOk(u.pages) && u.pages.Keys == s.pages.Keys && |u.pages| == |s.pages|
    ensures tid.None? ==> r.Ok?
  {
    FlushedSoFarCacheOk(tid, s, t, todo);
    FlushedSoFarStep(c, tid, s, t, todo, pid);
    u, r := t, Ok(());
    if DirtiedBy(t.pages[pid]) == tid {
      u, r := FlushStep(c, t, pid).0, FlushStep(c, t, pid).1;
    }
    assert |todo - {pid}| == |todo| - 1;
  }

  /** The loop of `flushPages(tid)` over the pool's state: each cached page
      whose dirtier is `tid` is flushed, until a flush fails. */
  method FlushPagesOf(c: Codec, s: PoolState, tid: Option<Tid>) returns (t: PoolState, r: Result<()>)
    requires CacheOk(s.pages)
    ensures CacheOk(t.pages) && t.pages.Keys == s.pages.Keys && |t.pages| == |s.pages|
    ensures r.Ok? ==> forall q :: q in t.pages ==> t.pages[q] == FlushedIf(tid, s.pages[q])
    ensures r.Ok? ==> t.flushed == RecordFlushedFor(s.flushed, tid, DirtiedSet(s.pages, tid))
    ensures tid.None? ==> r.Ok? && t.files == s.files
  {
    t := s;
    var todo := s.pages.Keys;
    FlushedSoFarStart(tid, s);
    while todo != {}
      invariant FlushedSoFar(tid, s, t, todo)
      decreases |todo|
    {
      var pid :| pid in todo;
      var res;
      t, res := FlushOneOf(c, s, t, tid, todo, pid);
      if res.Err? {
        return t, res;
      }
      todo := todo - {pid};
    }
    FlushedSoFarCacheOk(tid, s, t, todo);
    FlushedSoFarDone(tid, s, t);
    r := Ok(());
  }

  /** The invariant of the `flushAllPages()` loop: the visited pages are
      flushed, the others are as they were. */
  ghost predicate FlushedAllSoFar(s: PoolState, t: PoolState, todo: set<HeapPageId>)
  {
    && todo <= t.pages.Keys == s.pages.Keys && |t.pages| == |s.pages|
    && (forall q :: q in t.pages ==> t.pages[q] == if q in todo then s.pages[q] else FlushedPage(s.pages[q]))
  }

  /** One turn of the `flushAllPages()` loop keeps its invariant. */
  lemma FlushedAllSoFarStep(c: Codec, s: PoolState, t: PoolState, todo: set<HeapPageId>, pid: HeapPageId)
    requires FlushedAllSoFar(s, t, todo) && pid in todo && Shaped(t.pages[pid])
    ensures var (u, r) := FlushStep(c, t, pid);
            r.Ok? ==> FlushedAllSoFar(s, u, todo - {pid})
  {
  }

  /** One turn of the `flushAllPages()` loop: page `pid` is flushed. */
  method FlushOne(c: Codec, s: PoolState, t: PoolState, todo: set<HeapPageId>, pid: HeapPageId)
    returns (u: PoolState, r: Result<()>)
    requires CacheOk(s.pages) && FlushedAllSoFar(s, t, todo) && pid in todo
    ensures r.Ok? ==> FlushedAllSoFar(s, u, todo - {pid}) && |todo - {pid}| < |todo|
    ensures r.Err? ==> CacheOk(u.pages) && u.pages.Keys == s.pages.Keys && |u.pages| == |s.pages|
  {
    CacheOkFlushed(s.pages, t.pages);
    FlushedAllSoFarStep(c, s, t, todo, pid);
    u, r := FlushStep(c, t, pid).0, FlushStep(c, t, pid).1;
    assert |todo - {pid}| == |todo| - 1;
  }

  /** The loop of `flushAllPages()` over the pool's state: every cached page
      is flushed, until a flush fails. */
  method FlushAll(c: Codec, s: PoolState) returns (t: PoolState, r: Result<()>)
    requires CacheOk(s.pages)
    ensures CacheOk(t.pages) && t.pages.Keys == s.pages.Keys && |t.pages| == |s.pages|
    ensures r.Ok? ==> forall q :: q in t.pages ==> t.pages[q] == FlushedPage(s.pages[q]) && DirtiedBy(t.pages[q]).None?
  {
    t := s;
    var todo := s.pages.Keys;
    while todo != {}
      invariant FlushedAllSoFar(s, t, todo)
      decreases |todo|
    {
      var pid :| pid in todo;
      var res;
      t, res := FlushOne(c, s, t, todo, pid);
      if res.Err? {
        return t, res;
      }
      todo := todo - {pid};
    }
    CacheOkFlushed(s.pages, t.pages);
    r := Ok(());
  }

  /** The invariant of the commit loop: the visited pages are committed,
      the others are as they were, and no other transaction's flushed set
      changes. */
  ghost predicate CommittedSoFar(c: Codec, tid: Tid, flushedBefore: set<HeapPageId>, s: PoolState, t: PoolState, todo: set<HeapPageId>)
  {
    && todo <= t.pages.Keys == s.pages.Keys && |t.pages| == |s.pages|
    && (forall q :: q in s.pages ==> Shaped(s.pages[q]))
    && (forall q :: q in t.pages ==> t.pages[q] == if q in todo then s.pages[q] else CommittedPage(c, tid, flushedBefore, q, s.pages[q]))
    && t.flushed - {tid} == s.flushed - {tid}
  }

  /** One turn of the commit loop keeps its invariant. */
  lemma CommittedSoFarStep(c: Codec, tid: Tid, flushedBefore: set<HeapPageId>, s: PoolState, t: PoolState, todo: set<HeapPageId>, pid: HeapPageId)
    requires CommittedSoFar(c, tid, flushedBefore, s, t, todo) && pid in todo && Shaped(t.pages[pid])
    ensures var (u, r) := CommitStep(c, tid, flushedBefore, t, pid);
            && u.flushed - {tid} == s.flushed - {tid}
            && (r.Ok? ==> CommittedSoFar(c, tid, flushedBefore, s, u, todo - {pid}))
  {
  }

  /** The commit loop of `transactionComplete(tid, true)` over the pool's
      state: each cached page goes through `CommitStep`, with `tid`'s
      flushed set as it was before the loop, until a flush fails. */
  method CommitAll(c: Codec, tid: Tid, s: PoolState) returns (t: PoolState, r: Result<()>)
    requires CacheOk(s.pages) && WellBehaved(c)
    ensures CacheOk(t.pages) && t.pages.Keys == s.pages.Keys && |t.pages| == |s.pages|
    ensures r.Ok? ==> forall q :: q in t.pages ==> t.pages[q] == CommittedPage(c, tid, FlushedOf(s.flushed, tid), q, s.pages[q])
    ensures t.flushed - {tid} == s.flushed - {tid}
  {
    var flushedBefore := FlushedOf(s.flushed, tid);
    t := s;
    var todo := s.pages.Keys;
    while todo != {}
      invariant CommittedSoFar(c, tid, flushedBefore, s, t, todo)
      decreases |todo|
    {
      var pid :| pid in todo;
      CommittedSoFarStep(c, tid, flushedBefore, s, t, todo, pid);
      var (u, res) := CommitStep(c, tid, flushedBefore, t, pid);
      if res.Err? {
        CacheOkCommitted(c, tid, flushedBefore, s.pages, t.pages);
        return u, res;
      }
      t := u;
      todo := todo - {pid};
    }
    CacheOkCommitted(c, tid, flushedBefore, s.pages, t.pages);
    r := Ok(());
  }

  /** The invariant of the abort loop: the visited pages are aborted, the
      others are as they were. */
  ghost predicate AbortedSoFar(c: Codec, tid: Tid, pages: map<HeapPageId, Page>, m: map<HeapPageId, Page>, todo: set<HeapPageId>)
    requires CacheOk(pages)
  {
    && todo <= m.Keys == pages.Keys && |m| == |pages|
    && (forall q :: q in m ==> m[q] == if q in todo then pages[q] else AbortedPage(c, tid, pages[q]))
  }

  /** One turn of the abort loop keeps its invariant. */
  lemma AbortedSoFarStep(c: Codec, tid: Tid, pages: map<HeapPageId, Page>, m: map<HeapPageId, Page>, todo: set<HeapPageId>, pid: HeapPageId)
    requires CacheOk(pages) && AbortedSoFar(c, tid, pages, m, todo) && pid in todo
    ensures var m' := if DirtiedBy(m[pid]) == Some(tid) then m[pid := BeforeImage(c, m[pid])] else m;
            AbortedSoFar(c, tid, pages, m', todo - {pid})
    ensures |todo - {pid}| < |todo|
  {
    assert m[pid] == pages[pid];
    if DirtiedBy(m[pid]) == Some(tid) {
      assert m[pid := BeforeImage(c, m[pid])].Keys == m.Keys;
    }
    assert |todo - {pid}| == |todo| - 1;
  }

  /** The abort loop of `transactionComplete(tid, false)` over the cached
      pages: each page dirtied by `tid` is replaced by its before-image. */
  method AbortAll(c: Codec, tid: Tid, pages: map<HeapPageId, Page>) returns (m: map<HeapPageId, Page>)
    requires CacheOk(pages) && WellBehaved(c)
    ensures CacheOk(m) && m.Keys == pages.Keys && |m| == |pages|
    ensures forall q :: q in m ==> m[q] == AbortedPage(c, tid, pages[q])
  {
    m := pages;
    var todo := m.Keys;
    while todo != {}
      invariant AbortedSoFar(c, tid, pages, m, todo)
      decreases |todo|
    {
      var pid :| pid in todo;
      AbortedSoFarStep(c, tid, pages, m, todo, pid);
      var page := m[pid];
      if DirtiedBy(page) == Some(tid) {
        m := m[pid := BeforeImage(c, page)];
      }
      todo := todo - {pid};
    }
    CacheOkAborted(c, tid, pages, m);
  }

  class BufferPool {
    const maxPages: int
    var currentPages: int
    var pageIdToPages: map<HeapPageId, Page>
    var transactionsToDirtiedFlushedPages: map<Tid, set<HeapPageId>>
    const lockManager: LM.LockManager
    /** The tables' files, reached through the catalog in the source. */
    const store: FS.FileStore
    /** The catalog's schema per table id. */
    const schemas: map<int, TupleDesc>
    const codec: Codec

    /** The counter is the number of cached pages and stays within the
        capacity; every cached page is well formed and filed under its own
        id; the lock table is compatible. */
    ghost predicate Valid()
      reads this, lockManager
    {
      && lockManager.Valid()
      && WellBehaved(codec)
      && currentPages == |pageIdToPages|
      && (maxPages < 0 || currentPages <= maxPages)
      && CacheOk(pageIdToPages)
    }

    /** The cached pages, the flushed sets and the files, as one value. */
    function State(): PoolState
      reads this, store
    {
      PoolState(pageIdToPages, transactionsToDirtiedFlushedPages, store.files)
    }

    /** Write back a state computed by one of the loops below. */
    method SetState(s: PoolState)
      requires Valid() && CacheOk(s.pages) && s.pages.Keys == pageIdToPages.Keys && |s.pages| == |pageIdToPages|
      modifies this, store
      ensures Valid() && State() == s && currentPages == old(currentPages)
    {
      pageIdToPages := s.pages;
      transactionsToDirtiedFlushedPages := s.flushed;
      store.files := s.files;
    }

    /** `BufferPool(numPages)`: an empty cache and a fresh lock manager. */
    constructor (numPages: int, store: FS.FileStore, schemas: map<int, TupleDesc>, codec: Codec)
      requires WellBehaved(codec)
      ensures Valid() && fresh(lockManager)
      ensures maxPages == numPages && pageIdToPages == map[] && transactionsToDirtiedFlushedPages == map[]
      ensures this.store == store && this.schemas == schemas && this.codec == codec
    {
      maxPages := numPages;
      pageIdToPages := map[];
      transactionsToDirtiedFlushedPages := map[];
      lockManager := new LM.LockManager();
      this.store := store;
      this.schemas := schemas;
      this.codec := codec;
      currentPages := 0;
    }

    /** `getPage(tid, pid, perm)`: take the lock, then answer from the cache,
        or load the page on a miss. A lock that cannot be had yet is
        reported as `Blocked` where the source waits. */
    method GetPage(tid: Tid, pid: HeapPageId, perm: Option<LM.Permissions>) returns (r: Result<Page>)
      requires Valid()
      modifies this, lockManager, store
      ensures Valid()
      ensures store.files == old(store.files) && transactionsToDirtiedFlushedPages == old(transactionsToDirtiedFlushedPages)
      ensures perm.None? ==> r == Err(IllegalArgument)
      ensures r.Ok? ==> pid in pageIdToPages && r.value == pageIdToPages[pid]
      ensures r.Ok? && perm == Some(LM.ReadWrite) ==> LM.HasWrite(lockManager.exclusiveLocks, tid, pid)
      ensures r.Ok? && perm == Some(LM.ReadOnly) ==> LM.HasRead(lockManager.sharedLocks, lockManager.exclusiveLocks, tid, pid)
      ensures r.Ok? && pid in old(pageIdToPages) ==> r.value == old(pageIdToPages)[pid] && pageIdToPages == old(pageIdToPages)
      ensures r.Ok? && pid !in old(pageIdToPages) ==> Loaded(old(pageIdToPages), old(currentPages), pid, r.value)
      ensures r.Err? ==> pageIdToPages.Keys <= old(pageIdToPages.Keys)
    {
      var g := lockManager.AcquireLock(tid, pid, perm);
      if g.Err? {
        return Err(g.error);
      }
      if g.value == LM.NotYet {
        return Err(Blocked);
      }
      if pid in pageIdToPages {
        return Ok(pageIdToPages[pid]);
      }
      r := LoadPage(pid);
    }

    /** The cache after a miss on `pid` loaded `page`: the page is the
        parse of its bytes in its table's file, and it was added to the
        cache, after one clean page was evicted if the cache was full. */
    ghost predicate Loaded(before: map<HeapPageId, Page>, count: int, pid: HeapPageId, page: Page)
      reads this, store
    {
      && pid.tableId in schemas
      && store.ReadPage(pid).Ok?
      && page == Parse(codec, pid, schemas[pid.tableId], store.ReadPage(pid).value)
      && (count != maxPages ==> pageIdToPages == before[pid := page])
      && (count == maxPages ==>
            exists e :: e in before && DirtiedBy(before[e]).None? && pageIdToPages == (before - {e})[pid := page])
    }

    /** The miss path of `getPage`: evict first when the counter is at
        capacity, then read the page from its table's file and cache it. */
    method LoadPage(pid: HeapPageId) returns (r: Result<Page>)
      requires Valid() && pid !in pageIdToPages
      modifies this, store
      ensures Valid()
      ensures store.files == old(store.files) && transactionsToDirtiedFlushedPages == old(transactionsToDirtiedFlushedPages)
      ensures r.Ok? ==> pid in pageIdToPages && r.value == pageIdToPages[pid] && Loaded(old(pageIdToPages), old(currentPages), pid, r.value)
      ensures r.Err? ==> pageIdToPages.Keys <= old(pageIdToPages.Keys)
    {
      ghost var victim := pid;
      if currentPages == maxPages {
        var e := EvictPage();
        if e.Err? {
          return Err(e.error);
        }
        victim :| victim in old(pageIdToPages) && DirtiedBy(old(pageIdToPages)[victim]).None? &&
                  pageIdToPages == old(pageIdToPages) - {victim};
      }
      if pid.tableId !in schemas {
        return Err(NoSuchElement);
      }
      var bytes := store.ReadPage(pid);
      if bytes.Err? {
        return Err(bytes.error);
      }
      var page := Parse(codec, pid, schemas[pid.tableId], bytes.value);
      ParseWellFormed(codec, pid, schemas[pid.tableId], bytes.value);
      CacheOkAdd(pageIdToPages, page);
      pageIdToPages := pageIdToPages[pid := page];
      currentPages := currentPages + 1;
      assert old(currentPages) == maxPages ==> pageIdToPages == (old(pageIdToPages) - {victim})[pid := page];
      return Ok(page);
    }

    /** `releasePage(tid, pid)`: hand the page's lock back. */
    method ReleasePage(tid: Tid, pid: HeapPageId)
      requires Valid()
      modifies lockManager
      ensures Valid()
      ensures lockManager.exclusiveLocks == old(lockManager.exclusiveLocks) - {pid}
      ensures lockManager.sharedLocks == LM.ReleaseShared(old(lockManager.sharedLocks), tid, pid)
    {
      lockManager.ReleasePage(tid, pid);
    }

    /** `holdsLock(tid, p)`: the lock manager's record of granted pages. */
    method HoldsLock(tid: Tid, pid: HeapPageId) returns (b: bool)
      ensures b <==> tid in lockManager.pageIdsLockedByTransaction && pid in lockManager.pageIdsLockedByTransaction[tid]
    {
      b := lockManager.HoldsLock(tid, pid);
    }

    /** `evictPage()`: drop one clean page, flushing it first (which writes
        nothing, since it is clean). With no page, or only dirty pages, the
        cache is left as it is and the call fails. */
    method EvictPage() returns (r: Result<()>)
      requires Valid()
      modifies this, store
      ensures Valid()
      ensures store.files == old(store.files) && transactionsToDirtiedFlushedPages == old(transactionsToDirtiedFlushedPages)
      ensures r.Err? <==> forall pid :: pid in old(pageIdToPages) ==> DirtiedBy(old(pageIdToPages)[pid]).Some?
      ensures r.Err? ==> r.error.DbException? && pageIdToPages == old(pageIdToPages) && currentPages == old(currentPages)
      ensures r.Ok? ==> currentPages == old(currentPages) - 1
      ensures r.Ok? ==> exists pid :: pid in old(pageIdToPages) && DirtiedBy(old(pageIdToPages)[pid]).None? &&
                              pageIdToPages == old(pageIdToPages) - {pid}
    {
      if forall pid :: pid in pageIdToPages ==> DirtiedBy(pageIdToPages[pid]).Some? {
        return Err(DbException("All pages in BufferPool are dirty and therefore none can be evicted."));
      }
      var pid :| pid in pageIdToPages && DirtiedBy(pageIdToPages[pid]).None?;
      var f := FlushPage(pid);
      if f.Err? {
        assert false;
        return Err(DbException("IOException while flushing page during eviction."));
      }
      DropPage(pid);
      return Ok(());
    }

    /** The page leaves the cache and the counter goes down by one. */
    method DropPage(pid: HeapPageId)
      requires Valid() && pid in pageIdToPages
      modifies this`pageIdToPages, this`currentPages
      ensures Valid() && pageIdToPages == old(pageIdToPages) - {pid} && currentPages == old(currentPages) - 1
    {
      CacheOkDrop(pageIdToPages, pid);
      pageIdToPages := pageIdToPages - {pid};
      currentPages := currentPages - 1;
    }

    /** `flushPage(pid)`: a dirty cached page is recorded in its dirtier's
        flushed set, logged, written to its file and marked clean; a clean
        or uncached page is left alone. */
    method FlushPage(pid: HeapPageId) returns (r: Result<()>)
      requires Valid()
      modifies this, store
      ensures Valid() && currentPages == old(currentPages)
      ensures (State(), r) == FlushStep(codec, old(State()), pid)
      ensures !IsDirtyIn(old(pageIdToPages), pid) ==> r == Ok(()) && unchanged(this, store)
    {
      if pid in pageIdToPages {
        var page := pageIdToPages[pid];
        var dirtier := DirtiedBy(page);
        if dirtier.Some? {
          transactionsToDirtiedFlushedPages := RecordFlushed(transactionsToDirtiedFlushedPages, dirtier.value, {pid});
          var w := store.WritePage(pid, PageData(codec, page));
          if w.Err? {
            return Err(w.error);
          }
          CacheOkUpdate(pageIdToPages, FlushedPage(page));
          pageIdToPages := pageIdToPages[pid := FlushedPage(page)];
        }
      }
      return Ok(());
    }

    /** `flushPages(tid)`: flush every cached page whose dirtier is `tid`
        (no page, when `tid` is none, since a clean page is not written). A
        flush that fails stops the loop with its error. */
    method FlushPages(tid: Option<Tid>) returns (r: Result<()>)
      requires Valid()
      modifies this, store
      ensures Valid()
      ensures currentPages == old(currentPages) && pageIdToPages.Keys == old(pageIdToPages.Keys)
      ensures r.Ok? ==> forall pid :: pid in pageIdToPages ==> pageIdToPages[pid] == FlushedIf(tid, old(pageIdToPages)[pid])
      ensures r.Ok? ==> (transactionsToDirtiedFlushedPages ==
                RecordFlushedFor(old(transactionsToDirtiedFlushedPages), tid, DirtiedSet(old(pageIdToPages), tid)))
      ensures tid.None? ==> r.Ok? && store.files == old(store.files)
    {
      var t;
      t, r := FlushPagesOf(codec, State(), tid);
      SetState(t);
    }

    /** `flushAllPages()`: flush every cached page, so every page ends
        clean. */
    method FlushAllPages() returns (r: Result<()>)
      requires Valid()
      modifies this, store
      ensures Valid()
      ensures currentPages == old(currentPages) && pageIdToPages.Keys == old(pageIdToPages.Keys)
      ensures r.Ok? ==> forall pid :: pid in pageIdToPages ==> pageIdToPages[pid] == FlushedPage(old(pageIdToPages)[pid])
    {
      var t;
      t, r := FlushAll(codec, State());
      SetState(t);
    }

    /** `discardPage(pid)`: drop the page, without writing it, if cached. */
    method DiscardPage(pid: HeapPageId)
      requires Valid()
      modifies this`pageIdToPages, this`currentPages
      ensures Valid()
      ensures transactionsToDirtiedFlushedPages == old(transactionsToDirtiedFlushedPages)
      ensures pageIdToPages == old(pageIdToPages) - {pid}
      ensures currentPages == old(currentPages) - (if pid in old(pageIdToPages) then 1 else 0)
    {
      if pid in pageIdToPages {
        MapRemoveCard(pageIdToPages, pid);
        pageIdToPages := pageIdToPages - {pid};
        currentPages := currentPages - 1;
      }
    }

    /** A cached page object changed in place by its caller (a heap file
        inserting into or deleting from it): the cache now holds the new
        value. */
    method UpdatePage(page: Page)
      requires Valid() && page.pid in pageIdToPages && WellFormed(page)
      modifies this`pageIdToPages
      ensures Valid()
      ensures transactionsToDirtiedFlushedPages == old(transactionsToDirtiedFlushedPages)
      ensures pageIdToPages == old(pageIdToPages)[page.pid := page] && currentPages == old(currentPages)
    {
      CacheOkUpdate(pageIdToPages, page);
      pageIdToPages := pageIdToPages[page.pid := page];
    }

    /** `markDirty(true, tid)` on a cached page, as `insertTuple` and
        `deleteTuple` do to the pages they changed. */
    method MarkDirty(pid: HeapPageId, tid: Tid)
      requires Valid() && pid in pageIdToPages
      modifies this`pageIdToPages
      ensures Valid()
      ensures transactionsToDirtiedFlushedPages == old(transactionsToDirtiedFlushedPages)
      ensures pageIdToPages == old(pageIdToPages)[pid := WithDirty(old(pageIdToPages)[pid], true, Some(tid))]
      ensures DirtiedBy(pageIdToPages[pid]) == Some(tid)
      ensures currentPages == old(currentPages)
    {
      CacheOkUpdate(pageIdToPages, WithDirty(pageIdToPages[pid], true, Some(tid)));
      pageIdToPages := pageIdToPages[pid := WithDirty(pageIdToPages[pid], true, Some(tid))];
    }

    /** `transactionComplete(tid, commit)`. On commit each page dirtied by
        `tid` is flushed and takes its content as before-image, as does each
        page flushed earlier on `tid`'s behalf; on abort each page dirtied by
        `tid` is replaced by its before-image. Either way `tid`'s flushed set
        is dropped and its locks are released. A failed flush stops the
        commit with its error. */
    method TransactionComplete(tid: Tid, commit: bool) returns (r: Result<()>)
      requires Valid()
      modifies this, lockManager, store
      ensures Valid()
      ensures currentPages == old(currentPages) && pageIdToPages.Keys == old(pageIdToPages.Keys)
      ensures !commit ==> r.Ok? && store.files == old(store.files)
      ensures r.Ok? && commit ==> forall pid :: pid in pageIdToPages ==>
                pageIdToPages[pid] == CommittedPage(codec, tid, FlushedOf(old(transactionsToDirtiedFlushedPages), tid), pid, old(pageIdToPages)[pid])
      ensures r.Ok? && !commit ==> forall pid :: pid in pageIdToPages ==>
                pageIdToPages[pid] == AbortedPage(codec, tid, old(pageIdToPages)[pid])
      ensures r.Ok? ==> transactionsToDirtiedFlushedPages == old(transactionsToDirtiedFlushedPages) - {tid}
      ensures r.Ok? && tid !in old(lockManager.pageIdsLockedByTransaction) ==> lockManager.Tables() == old(lockManager.Tables())
      ensures r.Ok? && tid in old(lockManager.pageIdsLockedByTransaction) ==>
                var pages := old(lockManager.pageIdsLockedByTransaction)[tid];
                && lockManager.exclusiveLocks == old(lockManager.exclusiveLocks) - LM.PageSet(pages)
                && lockManager.sharedLocks == LM.ReleaseSharedAll(old(lockManager.sharedLocks), tid, pages)
                && lockManager.pageIdsLockedByTransaction == old(lockManager.pageIdsLockedByTransaction)[tid := []]
      ensures r.Err? ==> lockManager.Tables() == old(lockManager.Tables())
    {
      if commit {
        r := CommitPages(tid);
        if r.Err? {
          return;
        }
      } else {
        AbortPages(tid);
      }
      transactionsToDirtiedFlushedPages := transactionsToDirtiedFlushedPages - {tid};
      lockManager.ReleasePages(tid);
      return Ok(());
    }

    /** The commit loop of `transactionComplete`. */
    method CommitPages(tid: Tid) returns (r: Result<()>)
      requires Valid()
      modifies this, store
      ensures Valid()
      ensures currentPages == old(currentPages) && pageIdToPages.Keys == old(pageIdToPages.Keys)
      ensures r.Ok? ==> forall pid :: pid in pageIdToPages ==>
                pageIdToPages[pid] == CommittedPage(codec, tid, FlushedOf(old(transactionsToDirtiedFlushedPages), tid), pid, old(pageIdToPages)[pid])
      ensures transactionsToDirtiedFlushedPages - {tid} == old(transactionsToDirtiedFlushedPages) - {tid}
    {
      var t;
      t, r := CommitAll(codec, tid, State());
      SetState(t);
    }

    /** The abort loop of `transactionComplete`. */
    method AbortPages(tid: Tid)
      requires Valid()
      modifies this
      ensures Valid()
      ensures currentPages == old(currentPages) && pageIdToPages.Keys == old(pageIdToPages.Keys)
      ensures forall pid :: pid in pageIdToPages ==> pageIdToPages[pid] == AbortedPage(codec, tid, old(pageIdToPages)[pid])
      ensures transactionsToDirtiedFlushedPages == old(transactionsToDirtiedFlushedPages)
    {
      var m := AbortAll(codec, tid, pageIdToPages);
      pageIdToPages := m;
    }
  }
}
