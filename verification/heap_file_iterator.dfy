/** The heap file's tuple iterator (`simpledb.HeapFileIterator`): pages are
    fetched read-only from the page cache one at a time, in ascending page
    number, and the tuples of each page are handed out in slot order, with
    one tuple read ahead. It has to be opened before use and can be rewound
    and closed. */
module HeapFileIterator {
  import opened Common
  import opened Ids
  import opened Types
  import opened TupleDesc
  import opened PageLayout
  import opened HeapPage
  import LM = LockManager
  import BP = BufferPoolLab1

  const ALREADY_OPEN: string := "Opened already open HeapFileIterator"

  /** The tuples of a run of pages: each page's used slots in slot order,
      page after page. */
  function Flatten(pages: seq<Page>): seq<Tuple>
  {
    if pages == [] then []
    else Flatten(pages[..|pages| - 1]) + UsedTuples(pages[|pages| - 1].slots)
  }

  /** Scanning two runs of pages one after the other yields the tuples of
      the first run, then those of the second. */
  lemma {:induction false} FlattenAppend(a: seq<Page>, b: seq<Page>)
    ensures Flatten(a + b) == Flatten(a) + Flatten(b)
    decreases |b|
  {
    if b != [] {
      var b' := b[..|b| - 1];
      assert (a + b)[..|a + b| - 1] == a + b';
      assert (a + b)[|a + b| - 1] == b[|b| - 1];
      FlattenAppend(a, b');
      assert Flatten(b) == Flatten(b') + UsedTuples(b[|b| - 1].slots);
    } else {
      assert a + b == a;
    }
  }

  /** A page with no used slot adds nothing: the scan skips it. */
  lemma SkipsEmptyPage(pages: seq<Page>, p: Page)
    requires forall i :: 0 <= i < |p.slots| ==> p.slots[i].None?
    ensures Flatten(pages + [p]) == Flatten(pages)
  {
    assert (pages + [p])[..|pages|] == pages;
    UsedTuplesSkip(p.slots, 0, |p.slots|);
    assert p.slots[..|p.slots|] == p.slots;
  }

  /** Every tuple of a run of pages comes from a used slot of one of them. */
  lemma {:induction false} FlattenFromPages(pages: seq<Page>, t: Tuple)
    requires t in Flatten(pages)
    ensures exists i, k :: 0 <= i < |pages| && 0 <= k < |pages[i].slots| && pages[i].slots[k] == Some(t)
    decreases |pages|
  {
    var init := pages[..|pages| - 1];
    var last := pages[|pages| - 1];
    if t in Flatten(init) {
      FlattenFromPages(init, t);
      var i, k :| 0 <= i < |init| && 0 <= k < |init[i].slots| && init[i].slots[k] == Some(t);
      assert pages[i] == init[i];
    } else {
      UsedTuplesFromSlots(last.slots, t);
      var k :| 0 <= k < |last.slots| && last.slots[k] == Some(t);
      assert pages[|pages| - 1].slots[k] == Some(t);
    }
  }

  lemma {:induction false} UsedTuplesFromSlots(slots: seq<Option<Tuple>>, t: Tuple)
    requires t in UsedTuples(slots)
    ensures exists k :: 0 <= k < |slots| && slots[k] == Some(t)
    decreases |slots|
  {
    var init := slots[..|slots| - 1];
    if t in UsedTuples(init) {
      UsedTuplesFromSlots(init, t);
      var k :| 0 <= k < |init| && init[k] == Some(t);
      assert slots[k] == init[k];
    } else {
      assert slots[|slots| - 1] == Some(t);
    }
  }

  /** The state of a scan of table `tableId`'s `n` pages standing at page
      `cur`: the pages fetched are pages 0, 1, ... of the table, up to the
      current one (none when the table has no pages), and the tuples
      `seen` so far followed by what is `pending` on the current page are
      exactly their tuples. */
  ghost predicate Scanned(tableId: int, n: int, cur: int, fetched: seq<Page>, seen: seq<Tuple>, pending: seq<Tuple>)
  {
    && 0 <= cur
    && (cur <= n || (n <= 0 && cur == 0))
    && |fetched| == (if cur < n then cur + 1 else if n <= 0 then 0 else n)
    && (forall i :: 0 <= i < |fetched| ==> fetched[i].pid == HeapPageId(tableId, i))
    && seen + (if cur < n then pending else []) == Flatten(fetched)
  }

  /** A rewind starts the scan at page 0, with that page fetched when the
      table has pages. */
  lemma ScanStarts(tableId: int, n: int, p: Page, pending: seq<Tuple>)
    requires 0 < n ==> p.pid == HeapPageId(tableId, 0) && pending == UsedTuples(p.slots)
    ensures Scanned(tableId, n, 0, if 0 < n then [p] else [], [], pending)
  {
    if 0 < n {
      assert Flatten([p]) == Flatten([]) + UsedTuples(p.slots);
    }
  }

  /** Handing out the current page's next pending tuple keeps the scan. */
  lemma ScanTakes(tableId: int, n: int, cur: int, fetched: seq<Page>, seen: seq<Tuple>, pending: seq<Tuple>)
    requires Scanned(tableId, n, cur, fetched, seen, pending) && cur < n && pending != []
    ensures Scanned(tableId, n, cur, fetched, seen + [pending[0]], pending[1..])
  {
    assert [pending[0]] + pending[1..] == pending;
    assert seen + [pending[0]] + pending[1..] == seen + pending;
  }

  /** Moving past an exhausted page: past the last page the scan is over
      and has seen every tuple; otherwise the next page is fetched. */
  lemma ScanAdvances(tableId: int, n: int, cur: int, fetched: seq<Page>, seen: seq<Tuple>, p: Page)
    requires Scanned(tableId, n, cur, fetched, seen, []) && cur < n
    requires cur + 1 < n ==> p.pid == HeapPageId(tableId, cur + 1)
    ensures cur + 1 < n ==> Scanned(tableId, n, cur + 1, fetched + [p], seen, UsedTuples(p.slots))
    ensures n <= cur + 1 ==> Scanned(tableId, n, cur + 1, fetched, seen, []) && seen == Flatten(fetched) && |fetched| == n
  {
    if cur + 1 < n {
      assert (fetched + [p])[..|fetched|] == fetched;
    }
  }

  class HeapFileIterator {
    const tableId: int
    const numberOfPages: int
    const tid: Tid
    /** `Database.getBufferPool()`. */
    const pool: BP.BufferPool
    var currentPageNumber: int
    /** What the current page's tuple iterator has still to yield. */
    var pending: seq<Tuple>
    var open: bool
    /** The tuple read ahead (`null` when none). */
    var next: Option<Tuple>
    /** The pages fetched since the last rewind, in page order. */
    ghost var fetched: seq<Page>
    /** The tuples handed out by `next()` since the last rewind. */
    ghost var yielded: seq<Tuple>
    /** False until a rewind succeeds, and after an operation failed half
        way (the source leaves the iterator part-updated then). */
    ghost var consistent: bool

    /** The scan so far, with `lookahead` read ahead after the tuples
        handed out. */
    ghost predicate Scan(lookahead: seq<Tuple>)
      reads this`currentPageNumber, this`fetched, this`yielded, this`pending
    {
      Scanned(tableId, numberOfPages, currentPageNumber, fetched, yielded + lookahead, pending)
    }

    /** A tuple is read ahead exactly while the scan has pages left. */
    ghost predicate Valid()
      reads this, pool
    {
      && pool.Valid()
      && (consistent ==> Scan(if next.Some? then [next.value] else []) && (next.Some? <==> currentPageNumber < numberOfPages))
    }

    /** `HeapFileIterator.create(tableId, numberOfPages, tid)`: closed. */
    constructor (tableId: int, numberOfPages: int, tid: Tid, pool: BP.BufferPool)
      requires pool.Valid()
      ensures Valid() && !open && next.None? && !consistent
      ensures this.tableId == tableId && this.numberOfPages == numberOfPages && this.tid == tid && this.pool == pool
    {
      this.tableId := tableId;
      this.numberOfPages := numberOfPages;
      this.tid := tid;
      this.pool := pool;
      currentPageNumber := 0;
      pending := [];
      open := false;
      next := None;
      fetched := [];
      yielded := [];
      consistent := false;
    }

    /** `getNext()`: the pending tuple of the current page if there is
        one, otherwise the next pages are fetched read-only in turn until
        one has a tuple; none once the last page is passed. */
    method GetNext(ghost tracked: bool) returns (r: Result<Option<Tuple>>)
      requires pool.Valid() && (tracked ==> Scan([]))
      modifies this`currentPageNumber, this`pending, this`fetched, pool, pool.store
      ensures pool.Valid() && yielded == old(yielded)
      ensures r.Ok? && r.value.Some? ==> currentPageNumber < numberOfPages && (tracked ==> Scan([r.value.value]))
      ensures r.Ok? && r.value.None? ==> numberOfPages <= currentPageNumber && (tracked ==> Scan([]))
    {
      while currentPageNumber < numberOfPages
        invariant pool.Valid() && yielded == old(yielded) && (tracked ==> Scan([]))
        decreases numberOfPages - currentPageNumber
      {
        if pending != [] {
          var t := pending[0];
          if tracked {
            ScanTakes(tableId, numberOfPages, currentPageNumber, fetched, yielded, pending);
          }
          pending := pending[1..];
          return Ok(Some(t));
        }
        var a := Advance(tracked);
        if a.Err? {
          return Err(a.error);
        }
      }
      return Ok(None);
    }

    /** The step of `getNext()` past an exhausted page: the page number
        moves on, and the next page, if the table has one, is fetched
        read-only and its tuples become pending. */
    method Advance(ghost tracked: bool) returns (r: Result<()>)
      requires pool.Valid() && pending == [] && currentPageNumber < numberOfPages && (tracked ==> Scan([]))
      modifies this`currentPageNumber, this`pending, this`fetched, pool, pool.store
      ensures pool.Valid() && currentPageNumber == old(currentPageNumber) + 1
      ensures r.Ok? && tracked ==> Scan([])
    {
      if currentPageNumber + 1 < numberOfPages {
        var g := pool.GetPage(tid, HeapPageId(tableId, currentPageNumber + 1), Some(LM.ReadOnly));
        if g.Err? {
          currentPageNumber := currentPageNumber + 1;
          return Err(g.error);
        }
        if tracked {
          ScanAdvances(tableId, numberOfPages, currentPageNumber, fetched, yielded, g.value);
          fetched := fetched + [g.value];
        }
        pending := UsedTuples(g.value.slots);
      } else if tracked {
        ScanAdvances(tableId, numberOfPages, currentPageNumber, fetched, yielded, Page(HeapPageId(0, 0), TupleDesc([]), [], [], false, None, []));
      }
      currentPageNumber := currentPageNumber + 1;
      return Ok(());
    }

    /** `open()`: opening an open iterator fails; otherwise it is marked
        open and rewound by the source's `rewind()`, which fetches page 0
        even when the table has no pages. */
    method Open() returns (r: Result<()>)
      requires Valid()
      modifies this, pool, pool.store
      ensures Valid()
      ensures old(open) ==> r == Err(DbException(ALREADY_OPEN)) && unchanged(this) && unchanged(pool, pool.store)
      ensures !old(open) ==> open
      ensures !old(open) && r.Ok? ==> consistent && yielded == [] && (next.Some? <==> currentPageNumber < numberOfPages)
      ensures !old(open) && numberOfPages <= 0 && r.Ok? ==> next.None?
      ensures !old(open) && numberOfPages <= 0 && old(pool.currentPages) != pool.maxPages
              && HeapPageId(tableId, 0) !in old(pool.pageIdToPages)
              && (tableId !in old(pool.store.files) || |old(pool.store.files)[tableId]| < PAGE_SIZE) ==>
                r.Err?
    {
      if open {
        return Err(DbException(ALREADY_OPEN));
      }
      open := true;
      r := RewindAsWritten();
    }

    /** `rewind()` as intended: when open, the scan restarts from page 0,
        which is fetched only when the table has pages; when closed
        nothing happens. */
    method Rewind() returns (r: Result<()>)
      requires Valid()
      modifies this, pool, pool.store
      ensures Valid() && open == old(open)
      ensures !old(open) ==> r == Ok(()) && unchanged(this) && unchanged(pool, pool.store)
      ensures old(open) && r.Ok? ==> consistent && yielded == [] && (next.Some? <==> currentPageNumber < numberOfPages)
      ensures old(open) && numberOfPages <= 0 ==>
                r == Ok(()) && next.None? && unchanged(pool, pool.store)
    {
      if !open {
        return Ok(());
      }
      consistent := false;
      if 0 < numberOfPages {
        r := Restart();
        if r.Err? {
          return r;
        }
      } else {
        currentPageNumber := 0;
        yielded := [];
        fetched := [];
        ScanStarts(tableId, numberOfPages, Page(HeapPageId(0, 0), TupleDesc([]), [], [], false, None, []), pending);
        next := None;
      }
      consistent := true;
      return Ok(());
    }

    /** The scan restarted on a table with pages: page 0 is fetched
        read-only and the first tuple is read ahead. */
    method Restart() returns (r: Result<()>)
      requires pool.Valid() && 0 < numberOfPages
      modifies this`currentPageNumber, this`pending, this`fetched, this`yielded, this`next, pool, pool.store
      ensures pool.Valid()
      ensures r.Ok? ==> && yielded == [] && Scan(if next.Some? then [next.value] else [])
                        && (next.Some? <==> currentPageNumber < numberOfPages)
    {
      currentPageNumber := 0;
      yielded := [];
      fetched := [];
      var g := pool.GetPage(tid, HeapPageId(tableId, 0), Some(LM.ReadOnly));
      if g.Err? {
        return Err(g.error);
      }
      pending := UsedTuples(g.value.slots);
      fetched := [g.value];
      ScanStarts(tableId, numberOfPages, g.value, pending);
      var n := GetNext(true);
      if n.Err? {
        return Err(n.error);
      }
      next := n.value;
      return Ok(());
    }

    /** `rewind()` AS WRITTEN: page 0 is fetched whatever the page count,
        so on a table with no pages whose page 0 is neither cached nor
        readable (an empty file, with the cache below capacity) the rewind,
        and with it `open()`, fails with the short-read error. */
    method RewindAsWritten() returns (r: Result<()>)
      requires Valid()
      modifies this, pool, pool.store
      ensures Valid() && open == old(open)
      ensures !old(open) ==> r == Ok(()) && unchanged(this) && unchanged(pool, pool.store)
      ensures old(open) && r.Ok? ==> consistent && yielded == [] && (next.Some? <==> currentPageNumber < numberOfPages)
      ensures old(open) && numberOfPages <= 0 && r.Ok? ==> next.None?
      ensures old(open) && numberOfPages <= 0 && old(pool.currentPages) != pool.maxPages
              && HeapPageId(tableId, 0) !in old(pool.pageIdToPages)
              && (tableId !in old(pool.store.files) || |old(pool.store.files)[tableId]| < PAGE_SIZE) ==>
                r.Err?
    {
      if !open {
        return Ok(());
      }
      consistent := false;
      if 0 < numberOfPages {
        r := Restart();
        if r.Err? {
          return r;
        }
      } else {
        r := RestartEmpty();
        if r.Err? {
          return r;
        }
      }
      consistent := true;
      return Ok(());
    }

    /** The as-written restart on a table with no pages: page 0 is fetched
        all the same, and the scan then finds nothing. The fetch fails when
        page 0 is neither cached nor readable and nothing is evicted. */
    method RestartEmpty() returns (r: Result<()>)
      requires pool.Valid() && numberOfPages <= 0
      modifies this`currentPageNumber, this`pending, this`fetched, this`yielded, this`next, pool, pool.store
      ensures pool.Valid()
      ensures r.Ok? ==> yielded == [] && Scan([]) && next.None?
      ensures old(pool.currentPages) != pool.maxPages && HeapPageId(tableId, 0) !in old(pool.pageIdToPages)
              && (tableId !in old(pool.store.files) || |old(pool.store.files)[tableId]| < PAGE_SIZE) ==>
                r.Err?
    {
      currentPageNumber := 0;
      yielded := [];
      fetched := [];
      var g := pool.GetPage(tid, HeapPageId(tableId, 0), Some(LM.ReadOnly));
      if g.Err? {
        return Err(g.error);
      }
      pending := UsedTuples(g.value.slots);
      ScanStarts(tableId, numberOfPages, g.value, pending);
      var n := GetNext(true);
      if n.Err? {
        return Err(n.error);
      }
      next := n.value;
      return Ok(());
    }

    /** `hasNext()`: false whenever the iterator is closed; otherwise
        whether a tuple was read ahead. */
    method HasNext() returns (b: bool)
      requires Valid()
      ensures !open ==> !b
      ensures b <==> open && next.Some?
      ensures consistent && open && !b ==> currentPageNumber >= numberOfPages && yielded == Flatten(fetched)
    {
      b := open && next.Some?;
    }

    /** `next()`: closed or exhausted, it fails with NoSuchElement and
        changes nothing; otherwise it hands out the tuple read ahead and
        reads the following one. */
    method Next() returns (r: Result<Tuple>)
      requires Valid()
      modifies this, pool, pool.store
      ensures Valid() && open == old(open)
      ensures !old(open) || old(next).None? ==> r == Err(NoSuchElement) && unchanged(this) && unchanged(pool, pool.store)
      ensures r.Ok? ==> old(next) == Some(r.value)
      ensures r.Ok? && old(consistent) ==> consistent && yielded == old(yielded) + [r.value]
    {
      if !open || next.None? {
        return Err(NoSuchElement);
      }
      r := HandOut();
    }

    /** The open, unexhausted case of `next()`: the tuple read ahead is
        handed out and the following one is read. */
    method HandOut() returns (r: Result<Tuple>)
      requires Valid() && next.Some?
      modifies this`yielded, this`consistent, this`next, this`currentPageNumber, this`pending, this`fetched, pool, pool.store
      ensures Valid()
      ensures r.Ok? ==> old(next) == Some(r.value)
      ensures r.Ok? && old(consistent) ==> consistent && yielded == old(yielded) + [r.value]
    {
      var result := next.value;
      ghost var tracked := consistent;
      if tracked {
        yielded := yielded + [result];
      }
      consistent := false;
      var n := GetNext(tracked);
      if n.Err? {
        return Err(n.error);
      }
      next := n.value;
      consistent := tracked;
      return Ok(result);
    }

    /** `close()`. */
    method Close()
      requires Valid()
      modifies this`open
      ensures Valid() && !open
    {
      open := false;
    }
  }
}
