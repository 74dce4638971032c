/** The first page cache (`simpledb.BufferPool` of lab 1): a bounded map
    from page id to page with a counter, no locking, and eviction of
    whichever page the map's key iterator yields first, dirty or not, after
    flushing it. A flush hands the page to its table's file: lab 1's heap
    file's `writePage` is an empty stub that writes no bytes, while the heap
    file of lab 2, which runs on this same pool, writes the page in place;
    the pool's `writesPages` says which of the two it flushes to. */
module BufferPoolLab1 {
  import opened Common
  import opened Ids
  import opened Types
  import opened TupleDesc
  import opened PageLayout
  import opened HeapPage
  import LM = LockManager
  import FS = FileStore

  /** Every cached page is filed under its own id and has the slot count
      and header size its schema gives. */
  ghost predicate CacheShaped(m: map<HeapPageId, Page>)
  {
    forall pid :: pid in m ==> m[pid].pid == pid && Shaped(m[pid])
  }

  /** Caching a shaped page under a new id keeps the cache shaped and
      grows it by one. */
  lemma CacheShapedAdd(m: map<HeapPageId, Page>, page: Page)
    requires CacheShaped(m) && page.pid !in m && Shaped(page)
    ensures CacheShaped(m[page.pid := page]) && |m[page.pid := page]| == |m| + 1
  {
  }

  /** Dropping a cached page, whatever it was replaced by, leaves the
      other pages shaped and one fewer of them. */
  lemma CacheShapedDrop(m: map<HeapPageId, Page>, pid: HeapPageId, x: Page)
    requires CacheShaped(m) && pid in m
    ensures m[pid := x] - {pid} == m - {pid}
    ensures CacheShaped(m - {pid}) && |m - {pid}| == |m| - 1
  {
    assert (m - {pid}).Keys == m.Keys - {pid};
  }

  /** What the flushing operations change: the cached pages and the files. */
  datatype PoolState = PoolState(pages: map<HeapPageId, Page>, files: map<int, seq<Byte>>)

  /** A page marked clean (`markDirty(false, null)`). */
  function Cleaned(p: Page): (q: Page)
    ensures q.pid == p.pid && q.desc == p.desc && q.header == p.header && q.slots == p.slots
    ensures DirtiedBy(q).None?
  {
    WithDirty(p, false, None)
  }

  /** `getDatabaseFile(pid.getTableId()).writePage(page)`: an unknown table
      is a missing catalog entry. With `writes` false the file's
      `writePage` is lab 1's empty stub and no byte changes; with `writes`
      true the page's bytes are written at its offset in its table's file. */
  function WriteBack(c: Codec, files: map<int, seq<Byte>>, p: Page, writes: bool): (r: (map<int, seq<Byte>>, Result<()>))
    requires Shaped(p)
    ensures r.1.Ok? <==> p.pid.tableId in files && (writes ==> FS.WritePageBytes(files[p.pid.tableId], p.pid.pageNumber, PageData(c, p)).Ok?)
    ensures r.1.Err? && p.pid.tableId !in files ==> r.1.error == NoSuchElement
    ensures r.1.Ok? && writes ==> r.0 == files[p.pid.tableId := FS.WritePageBytes(files[p.pid.tableId], p.pid.pageNumber, PageData(c, p)).value]
    ensures r.1.Err? || !writes ==> r.0 == files
  {
    if p.pid.tableId !in files then (files, Err(NoSuchElement))
    else if !writes then (files, Ok(()))
    else
      match FS.WritePageBytes(files[p.pid.tableId], p.pid.pageNumber, PageData(c, p))
      case Ok(w) => (files[p.pid.tableId := w], Ok(()))
      case Err(e) => (files, Err(e))
  }

  /** `flushPage(pid)`: a dirty cached page is written and marked clean; a
      clean or uncached page changes nothing. A failed write leaves the
      page dirty. */
  function FlushStep(c: Codec, writes: bool, s: PoolState, pid: HeapPageId): (r: (PoolState, Result<()>))
    requires pid in s.pages ==> Shaped(s.pages[pid])
    ensures r.0.pages.Keys == s.pages.Keys && |r.0.pages| == |s.pages|
    ensures !(pid in s.pages && DirtiedBy(s.pages[pid]).Some?) ==> r == (s, Ok(()))
    ensures pid in s.pages && DirtiedBy(s.pages[pid]).Some? ==>
              (r.0.files, r.1) == WriteBack(c, s.files, s.pages[pid], writes)
    ensures r.1.Ok? && pid in s.pages ==> r.0.pages == s.pages[pid := if DirtiedBy(s.pages[pid]).Some? then Cleaned(s.pages[pid]) else s.pages[pid]]
    ensures r.1.Err? ==> r.0 == s
  {
    if pid in s.pages && DirtiedBy(s.pages[pid]).Some? then
      var p := s.pages[pid];
      var (files, res) := WriteBack(c, s.files, p, writes);
      if res.Err? then (s, res)
      else
        assert s.pages[pid := Cleaned(p)].Keys == s.pages.Keys;
        (PoolState(s.pages[pid := Cleaned(p)], files), Ok(()))
    else (s, Ok(()))
  }

  /** After a successful flush the page is clean, so flushing it again
      writes nothing: flushing is idempotent. */
  lemma FlushStepIdempotent(c: Codec, writes: bool, s: PoolState, pid: HeapPageId)
    requires CacheShaped(s.pages) && FlushStep(c, writes, s, pid).1.Ok?
    ensures var t := FlushStep(c, writes, s, pid).0;
            FlushStep(c, writes, t, pid) == (t, Ok(()))
  {
    var t := FlushStep(c, writes, s, pid).0;
    if pid in s.pages {
      assert DirtiedBy(t.pages[pid]).None?;
    }
  }

  /** With a file that writes, after a successful flush of a dirty page of a
      known table the page reads back from its file as the bytes the cache
      held. */
  lemma FlushStepReadsBack(c: Codec, s: PoolState, pid: HeapPageId)
    requires CacheShaped(s.pages) && pid in s.pages && DirtiedBy(s.pages[pid]).Some?
    requires |PageData(c, s.pages[pid])| == PAGE_SIZE
    requires FlushStep(c, true, s, pid).1.Ok?
    ensures var t := FlushStep(c, true, s, pid).0;
            && pid.tableId in t.files
            && FS.ReadPageBytes(t.files[pid.tableId], pid.pageNumber) == Ok(PageData(c, s.pages[pid]))
  {
    FS.ReadAfterWrite(s.files[pid.tableId], pid.pageNumber, PageData(c, s.pages[pid]));
  }

  /** Over lab 1's stub a flush of a dirty page of a known table marks it
      clean and leaves every file as it was, so the cached changes are
      nowhere on file once the page is evicted. */
  lemma StubFlushWritesNothing(c: Codec, s: PoolState, pid: HeapPageId)
    requires CacheShaped(s.pages) && pid in s.pages && DirtiedBy(s.pages[pid]).Some? && pid.tableId in s.files
    ensures var (t, r) := FlushStep(c, false, s, pid);
            && r.Ok? && t.files == s.files
            && DirtiedBy(t.pages[pid]).None? && t.pages[pid].slots == s.pages[pid].slots
  {
  }

  /** A page after `flushPages(tid)`: a page whose dirtier is `tid` is
      marked clean (with `tid` none, that is every clean page). */
  function FlushedIf(tid: Option<Tid>, p: Page): (q: Page)
  {
    if DirtiedBy(p) == tid then Cleaned(p) else p
  }

  /** The invariant of the `flushPages(tid)` loop: the visited pages whose
      dirtier is `tid` are clean, all others are as they were, and a table
      none of whose visited pages matched keeps its file. */
  ghost predicate FlushedSoFar(tid: Option<Tid>, s: PoolState, t: PoolState, todo: set<HeapPageId>)
  {
    && todo <= t.pages.Keys == s.pages.Keys && |t.pages| == |s.pages|
    && (forall q :: q in t.pages ==> t.pages[q] == if q in todo then s.pages[q] else FlushedIf(tid, s.pages[q]))
    && (forall tbl :: tbl in s.files ==> tbl in t.files)
    && (forall tbl :: tbl in s.files && Untouched(tid, s.pages, tbl, todo) ==> t.files[tbl] == s.files[tbl])
  }

  /** Over lab 1's stub, the `flushPages(tid)` loop never changes a file. */
  ghost predicate FilesKept(writes: bool, s: PoolState, t: PoolState)
  {
    !writes ==> t.files == s.files
  }

  /** No page of table `tbl` outside `todo` has `tid` as its dirtier. */
  predicate Untouched(tid: Option<Tid>, m: map<HeapPageId, Page>, tbl: int, todo: set<HeapPageId>)
  {
    forall q :: q in m && q !in todo && q.tableId == tbl ==> DirtiedBy(m[q]) != tid
  }

  /** A table untouched once `pid` is visited was untouched before, and is
      not `pid`'s table when `pid` matches. */
  lemma UntouchedStep(tid: Option<Tid>, s: PoolState, t: PoolState, todo: set<HeapPageId>, pid: HeapPageId)
    requires FlushedSoFar(tid, s, t, todo) && pid in todo
    ensures forall tbl :: tbl in s.files && Untouched(tid, s.pages, tbl, todo - {pid}) ==>
              Untouched(tid, s.pages, tbl, todo) && (DirtiedBy(t.pages[pid]) == tid ==> tbl != pid.tableId)
  {
    forall tbl | tbl in s.files && Untouched(tid, s.pages, tbl, todo - {pid})
      ensures Untouched(tid, s.pages, tbl, todo)
      ensures DirtiedBy(t.pages[pid]) == tid ==> tbl != pid.tableId
    {
      assert s.pages[pid] == t.pages[pid];
    }
  }

  /** Visiting a page whose dirtier is not `tid` keeps the invariant. */
  lemma FlushedSoFarSkip(tid: Option<Tid>, s: PoolState, t: PoolState, todo: set<HeapPageId>, pid: HeapPageId)
    requires FlushedSoFar(tid, s, t, todo) && pid in todo && DirtiedBy(t.pages[pid]) != tid
    ensures FlushedSoFar(tid, s, t, todo - {pid})
  {
    UntouchedStep(tid, s, t, todo, pid);
  }

  /** Writing back and cleaning a page whose dirtier is `tid` keeps the
      invariant. */
  lemma FlushedSoFarWrite(c: Codec, writes: bool, tid: Option<Tid>, s: PoolState, t: PoolState, todo: set<HeapPageId>, pid: HeapPageId)
    requires FlushedSoFar(tid, s, t, todo) && pid in todo && Shaped(t.pages[pid]) && t.pages[pid].pid == pid
    requires DirtiedBy(t.pages[pid]) == tid && WriteBack(c, t.files, t.pages[pid], writes).1.Ok?
    ensures FlushedSoFar(tid, s, PoolState(t.pages[pid := Cleaned(t.pages[pid])], WriteBack(c, t.files, t.pages[pid], writes).0), todo - {pid})
  {
    UntouchedStep(tid, s, t, todo, pid);
    var u := PoolState(t.pages[pid := Cleaned(t.pages[pid])], WriteBack(c, t.files, t.pages[pid], writes).0);
    assert u.pages.Keys == t.pages.Keys;
    assert forall q :: q in u.pages ==> u.pages[q] == if q in todo - {pid} then s.pages[q] else FlushedIf(tid, s.pages[q]);
  }

  /** One turn of the `flushPages(tid)` loop keeps its invariant. */
  lemma FlushedSoFarStep(c: Codec, writes: bool, tid: Option<Tid>, s: PoolState, t: PoolState, todo: set<HeapPageId>, pid: HeapPageId)
    requires FlushedSoFar(tid, s, t, todo) && pid in todo && Shaped(t.pages[pid]) && t.pages[pid].pid == pid
    ensures DirtiedBy(t.pages[pid]) == tid ==>
              var (files, r) := WriteBack(c, t.files, t.pages[pid], writes);
              r.Ok? ==> FlushedSoFar(tid, s, PoolState(t.pages[pid := Cleaned(t.pages[pid])], files), todo - {pid})
    ensures DirtiedBy(t.pages[pid]) != tid ==> FlushedSoFar(tid, s, t, todo - {pid})
  {
    if DirtiedBy(t.pages[pid]) != tid {
      FlushedSoFarSkip(tid, s, t, todo, pid);
    } else if WriteBack(c, t.files, t.pages[pid], writes).1.Ok? {
      FlushedSoFarWrite(c, writes, tid, s, t, todo, pid);
    }
  }

  /** Cleaning cached pages keeps them filed and shaped. */
  lemma CacheShapedFlushed(tid: Option<Tid>, m: map<HeapPageId, Page>, n: map<HeapPageId, Page>)
    requires CacheShaped(m) && n.Keys == m.Keys
    requires forall q :: q in n ==> n[q] == m[q] || n[q] == FlushedIf(tid, m[q])
    ensures CacheShaped(n)
  {
  }

  /** The loop of `flushPages(tid)`: every cached page whose dirtier is
      `tid` is written and marked clean, until a write fails. Pages are
      compared by dirtier, so with `tid` none every clean page is written. */
  method FlushPagesOf(c: Codec, writes: bool, s: PoolState, tid: Option<Tid>) returns (t: PoolState, r: Result<()>)
    requires CacheShaped(s.pages)
    ensures CacheShaped(t.pages) && t.pages.Keys == s.pages.Keys && |t.pages| == |s.pages|
    ensures r.Ok? ==> forall q :: q in t.pages ==> t.pages[q] == FlushedIf(tid, s.pages[q])
    ensures r.Ok? ==> forall tbl :: tbl in s.files && Untouched(tid, s.pages, tbl, {}) ==> tbl in t.files && t.files[tbl] == s.files[tbl]
    ensures !writes ==> t.files == s.files
  {
    t := s;
    var todo := s.pages.Keys;
    while todo != {}
      invariant FlushedSoFar(tid, s, t, todo)
      invariant FilesKept(writes, s, t)
      decreases |todo|
    {
      var pid :| pid in todo;
      FlushedSoFarStep(c, writes, tid, s, t, todo, pid);
      var p := t.pages[pid];
      if DirtiedBy(p) == tid {
        var (files, res) := WriteBack(c, t.files, p, writes);
        if res.Err? {
          CacheShapedFlushed(tid, s.pages, t.pages);
          return t, res;
        }
        t := PoolState(t.pages[pid := Cleaned(p)], files);
      }
      todo := todo - {pid};
    }
    CacheShapedFlushed(tid, s.pages, t.pages);
    r := Ok(());
  }

  class BufferPool {
    const maxPages: int
    var currentPages: int
    var pageIdToPages: map<HeapPageId, Page>
    /** The tables' files, reached through the catalog in the source. */
    const store: FS.FileStore
    /** Whether the tables' `writePage` writes: false for lab 1's heap
        file, whose `writePage` is an empty stub. */
    const writesPages: bool
    /** The catalog's schema per table id. */
    const schemas: map<int, TupleDesc>
    const codec: Codec

    /** The counter is the number of cached pages and stays within the
        capacity; every cached page is filed under its own id. */
    ghost predicate Valid()
      reads this
    {
      && currentPages == |pageIdToPages|
      && (maxPages < 0 || currentPages <= maxPages)
      && CacheShaped(pageIdToPages)
    }

    function State(): PoolState
      reads this, store
    {
      PoolState(pageIdToPages, store.files)
    }

    /** `BufferPool(numPages)`: an empty cache. */
    constructor (numPages: int, store: FS.FileStore, writesPages: bool, schemas: map<int, TupleDesc>, codec: Codec)
      ensures Valid()
      ensures maxPages == numPages && pageIdToPages == map[] && currentPages == 0
      ensures this.store == store && this.writesPages == writesPages && this.schemas == schemas && this.codec == codec
    {
      maxPages := numPages;
      pageIdToPages := map[];
      currentPages := 0;
      this.store := store;
      this.writesPages := writesPages;
      this.schemas := schemas;
      this.codec := codec;
    }

    /** `getPage(tid, pid, perm)`: a cached page is returned as it is;
        otherwise the page is loaded. The permission is not looked at. */
    method GetPage(tid: Tid, pid: HeapPageId, perm: Option<LM.Permissions>) returns (r: Result<Page>)
      requires Valid()
      modifies this, store
      ensures Valid()
      ensures pid in old(pageIdToPages) ==> r == Ok(old(pageIdToPages)[pid]) && pageIdToPages == old(pageIdToPages) && store.files == old(store.files)
      ensures r.Ok? ==> pid in pageIdToPages && pageIdToPages[pid] == r.value
      ensures r.Ok? && pid !in old(pageIdToPages) ==> Loaded(old(pageIdToPages), old(currentPages), pid, r.value)
      ensures old(currentPages) != maxPages ==> store.files == old(store.files)
    {
      if pid in pageIdToPages {
        return Ok(pageIdToPages[pid]);
      }
      r := LoadPage(pid);
    }

    /** The cache after a miss on `pid` loaded `page`: the page is the
        parse of its bytes in its table's file, and it was added to the
        cache, after one page was evicted if the counter was at capacity. */
    ghost predicate Loaded(before: map<HeapPageId, Page>, count: int, pid: HeapPageId, page: Page)
      reads this, store
    {
      && pid.tableId in schemas
      && store.ReadPage(pid).Ok?
      && page == Parse(codec, pid, schemas[pid.tableId], store.ReadPage(pid).value)
      && (count != maxPages ==> pageIdToPages == before[pid := page])
      && (count == maxPages ==> exists e :: e in before && pageIdToPages == (before - {e})[pid := page])
    }

    /** The miss path of `getPage`: evict first when the counter is at
        capacity, then read the page from its table's file, cache it and
        count it. */
    method LoadPage(pid: HeapPageId) returns (r: Result<Page>)
      requires Valid() && pid !in pageIdToPages
      modifies this, store
      ensures Valid()
      ensures r.Ok? ==> pid in pageIdToPages && pageIdToPages[pid] == r.value && Loaded(old(pageIdToPages), old(currentPages), pid, r.value)
      ensures old(currentPages) != maxPages ==> store.files == old(store.files)
    {
      ghost var victim := pid;
      if currentPages == maxPages {
        var e;
        e, victim := EvictPage();
        if e.Err? {
          return Err(e.error);
        }
      }
      if pid.tableId !in schemas {
        return Err(NoSuchElement);
      }
      var bytes := store.ReadPage(pid);
      if bytes.Err? {
        return Err(bytes.error);
      }
      var page := Parse(codec, pid, schemas[pid.tableId], bytes.value);
      CacheShapedAdd(pageIdToPages, page);
      pageIdToPages := pageIdToPages[pid := page];
      currentPages := currentPages + 1;
      assert old(currentPages) == maxPages ==> pageIdToPages == (old(pageIdToPages) - {victim})[pid := page];
      return Ok(page);
    }

    /** `releasePage(tid, pid)`: lab 1 has no locks, so nothing changes. */
    method ReleasePage(tid: Tid, pid: HeapPageId)
      requires Valid()
      ensures Valid() && unchanged(this) && unchanged(store)
    {
    }

    /** `transactionComplete(tid)`: lab 1 neither commits nor releases
        anything, so nothing changes. */
    method TransactionComplete(tid: Tid)
      requires Valid()
      ensures Valid() && unchanged(this) && unchanged(store)
    {
    }

    /** `transactionComplete(tid, commit)`: the same stub, whichever way the
        transaction ends. */
    method TransactionCompleteWith(tid: Tid, commit: bool)
      requires Valid()
      ensures Valid() && unchanged(this) && unchanged(store)
    {
    }

    /** `discardPage(pid)`: a stub in lab 1; the page stays cached. */
    method DiscardPage(pid: HeapPageId)
      requires Valid()
      ensures Valid() && unchanged(this) && unchanged(store)
      ensures pid in pageIdToPages <==> pid in old(pageIdToPages)
    {
    }

    /** `holdsLock(tid, p)`: lab 1 has no locks. */
    method HoldsLock(tid: Tid, pid: HeapPageId) returns (b: bool)
      ensures !b
    {
      b := false;
    }

    /** `evictPage()`: the first key the map yields (any key: the order of
        a hash map is not modelled) is flushed, whether or not its page is
        dirty, then dropped. With no page cached the iterator throws; a
        failed write is reported as a `DbException`. */
    method EvictPage() returns (r: Result<()>, ghost victim: HeapPageId)
      requires Valid()
      modifies this, store
      ensures Valid()
      ensures old(pageIdToPages) == map[] ==> r == Err(NoSuchElement) && pageIdToPages == map[]
      ensures r.Err? ==> pageIdToPages == old(pageIdToPages) && currentPages == old(currentPages)
      ensures r.Ok? ==> && victim in old(pageIdToPages) && pageIdToPages == old(pageIdToPages) - {victim}
                        && store.files == FlushStep(codec, writesPages, old(State()), victim).0.files
                        && currentPages == old(currentPages) - 1
      ensures !writesPages ==> store.files == old(store.files)
    {
      if pageIdToPages == map[] {
        return Err(NoSuchElement), HeapPageId(0, 0);
      }
      var pid :| pid in pageIdToPages;
      victim := pid;
      var f := FlushPage(pid);
      if f.Err? {
        return Err(if f.error.StorageFault? then DbException("IOException while flushing page during eviction.") else f.error), victim;
      }
      CacheShapedDrop(old(pageIdToPages), pid, pageIdToPages[pid]);
      pageIdToPages := pageIdToPages - {pid};
      currentPages := currentPages - 1;
      return Ok(()), victim;
    }

    /** `flushPage(pid)`. */
    method FlushPage(pid: HeapPageId) returns (r: Result<()>)
      requires Valid()
      modifies this, store
      ensures Valid() && currentPages == old(currentPages)
      ensures (State(), r) == FlushStep(codec, writesPages, old(State()), pid)
    {
      if pid in pageIdToPages {
        var page := pageIdToPages[pid];
        if DirtiedBy(page).Some? {
          if pid.tableId !in store.files {
            return Err(NoSuchElement);
          }
          if writesPages {
            var w := store.WritePage(pid, PageData(codec, page));
            if w.Err? {
              return Err(w.error);
            }
          }
          assert pageIdToPages[pid := Cleaned(page)].Keys == pageIdToPages.Keys;
          pageIdToPages := pageIdToPages[pid := Cleaned(page)];
        }
      }
      return Ok(());
    }

    /** `flushPages(tid)`. */
    method FlushPages(tid: Option<Tid>) returns (r: Result<()>)
      requires Valid()
      modifies this, store
      ensures Valid() && currentPages == old(currentPages) && pageIdToPages.Keys == old(pageIdToPages).Keys
      ensures r.Ok? ==> forall q :: q in pageIdToPages ==> pageIdToPages[q] == FlushedIf(tid, old(pageIdToPages)[q])
      ensures r.Ok? ==> forall tbl :: tbl in old(store.files) && Untouched(tid, old(pageIdToPages), tbl, {}) ==>
                          tbl in store.files && store.files[tbl] == old(store.files)[tbl]
      ensures !writesPages ==> store.files == old(store.files)
    {
      var t;
      t, r := FlushPagesOf(codec, writesPages, State(), tid);
      pageIdToPages := t.pages;
      store.files := t.files;
    }

    /** A cached page object changed in place by its caller: the cache now
        holds the new value. */
    method UpdatePage(page: Page)
      requires Valid() && page.pid in pageIdToPages && Shaped(page)
      modifies this
      ensures Valid()
      ensures pageIdToPages == old(pageIdToPages)[page.pid := page] && currentPages == old(currentPages)
    {
      assert pageIdToPages[page.pid := page].Keys == pageIdToPages.Keys;
      pageIdToPages := pageIdToPages[page.pid := page];
    }
  }
}
