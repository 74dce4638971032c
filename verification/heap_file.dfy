/** A table's heap file (`simpledb.HeapFile`, the locking version): the
    table's pages in one file, page n at byte offset n * PAGE_SIZE, a page
    counter taken from the file's length at construction, and tuple
    insertion and deletion through the buffer pool. The file is the pool's
    store entry for the table; pages are reached through the pool. */
module HeapFile {
  import opened Common
  import opened Ids
  import opened Types
  import opened TupleDesc
  import opened HeaderBits
  import opened PageLayout
  import opened HeapPage
  import LM = LockManager
  import FS = FileStore
  import BP = BufferPool

  /** Slot k of page p holds tuple t, stamped with its record id. */
  predicate HoldsAt(p: Page, t: Tuple, k: nat)
  {
    k < |p.slots| && p.slots[k] == Some(t.(rid := Some(RecordId(Some(p.pid), k))))
  }

  /** The pages of table `tableId` numbered 0 up to |scanned|, each
      reporting no empty slot (and so, padding aside, without a free
      slot). */
  ghost predicate FullPrefix(scanned: seq<Page>, tableId: int)
  {
    forall i :: 0 <= i < |scanned| ==>
      && scanned[i].pid == HeapPageId(tableId, i) && Shaped(scanned[i])
      && NumEmptySlots(scanned[i].header) == 0 && FreeSlotCount(scanned[i]) == 0
  }

  /** A page with the next number that reports no empty slot extends a
      full prefix. */
  lemma FullPrefixExtend(scanned: seq<Page>, tableId: int, page: Page)
    requires FullPrefix(scanned, tableId)
    requires page.pid == HeapPageId(tableId, |scanned|) && Shaped(page) && NumEmptySlots(page.header) <= 0
    ensures FullPrefix(scanned + [page], tableId)
  {
    NumEmptySlotsSplit(page);
  }

  /** The page `insertTuple` chooses may still refuse the tuple: a page
      whose slots are all used but whose header has clear padding bits
      reports empty slots, is chosen, and its insert fails with a
      DbException instead of a page being appended. */
  lemma ChosenFullPageRefuses(p: Page, t: Tuple)
    requires Shaped(p) && PaddingClear(p) && FreeSlotCount(p) == 0 && |p.slots| < 8 * |p.header|
    ensures NumEmptySlots(p.header) > 0
    ensures Insert(p, t).Err? && Insert(p, t).error.DbException?
  {
    FullPageReportsEmptySlots(p);
    InsertSucceedsIffFreeSlot(p, t);
  }

  /** `new HeapPage(pid, HeapPage.createEmptyPageData())`: the page parsed
      from zero bytes, every slot free. */
  function BlankPage(c: Codec, pid: HeapPageId, desc: TupleDesc): (p: Page)
    ensures Shaped(p) && p.pid == pid && p.desc == desc
    ensures FreeSlotCount(p) == |p.slots|
  {
    var p := Parse(c, pid, desc, EmptyPageData());
    EmptyPageHasNoTuples(c, pid, desc);
    p
  }

  /** A fresh page of zero bytes takes its first tuple in slot 0. */
  lemma EmptyPageTakesSlotZero(c: Codec, pid: HeapPageId, desc: TupleDesc, t: Tuple)
    requires Insert(BlankPage(c, pid, desc), t).Ok?
    ensures HoldsAt(Insert(BlankPage(c, pid, desc), t).value.0, t, 0)
  {
    var p := BlankPage(c, pid, desc);
    var k := NextIndexOfValue(p.header, 0, |p.slots|, false);
    assert p.header[0] == 0;
    assert !SlotBit(p.header, 0);
    assert k == 0;
  }

  class HeapFile {
    /** `getId()`: the table id, a hash of the file's path in the source. */
    const tableId: int
    /** `getTupleDesc()`. */
    const desc: TupleDesc
    var numberOfPages: int
    /** `Database.getBufferPool()`. */
    const pool: BP.BufferPool

    ghost predicate Valid()
      reads this, pool, pool.lockManager
    {
      pool.Valid()
    }

    /** `HeapFile(f, td)`: opening the file creates it when missing, and
        the page counter is the file's length over the page size, after the
        length is narrowed to an int. */
    constructor (tableId: int, desc: TupleDesc, pool: BP.BufferPool)
      requires pool.Valid()
      modifies pool.store
      ensures Valid()
      ensures this.tableId == tableId && this.desc == desc && this.pool == pool
      ensures tableId in pool.store.files
      ensures pool.store.files == if tableId in old(pool.store.files) then old(pool.store.files) else old(pool.store.files)[tableId := []]
      ensures numberOfPages == FS.NumPagesOf(|pool.store.files[tableId]|)
    {
      if tableId !in pool.store.files {
        pool.store.files := pool.store.files[tableId := []];
      }
      this.tableId := tableId;
      this.desc := desc;
      this.pool := pool;
      numberOfPages := FS.NumPagesOf(|pool.store.files[tableId]|);
    }

    /** `numPages()`. */
    method NumPages() returns (n: int)
      ensures n == numberOfPages
    {
      n := numberOfPages;
    }

    /** `writePage(page)`: the page's bytes are written into THIS file at
        the offset of the page's number, whatever table the page names. */
    method WritePage(page: Page) returns (r: Result<()>)
      requires Shaped(page) && tableId in pool.store.files
      modifies pool.store
      ensures tableId in pool.store.files
      ensures match FS.WritePageBytes(old(pool.store.files[tableId]), page.pid.pageNumber, PageData(pool.codec, page))
              case Ok(w) => r == Ok(()) && pool.store.files == old(pool.store.files)[tableId := w]
              case Err(e) => r == Err(e) && pool.store.files == old(pool.store.files)
    {
      r := pool.store.WritePage(HeapPageId(tableId, page.pid.pageNumber), PageData(pool.codec, page));
    }

    /** The scan of `insertTuple`: the pages in order, each under a read
        lock; the first whose `getNumEmptySlots()` is positive is upgraded
        to a write lock and returned, and every page passed over is
        released. `scanned` holds the pages passed over, each reporting no
        empty slot. */
    method FindPageWithRoom(tid: Tid) returns (r: Result<Option<Page>>, ghost scanned: seq<Page>)
      requires Valid()
      modifies pool, pool.lockManager, pool.store
      ensures Valid() && pool.store.files == old(pool.store.files)
      ensures |scanned| <= numberOfPages || (numberOfPages < 0 && scanned == [])
      ensures FullPrefix(scanned, tableId)
      ensures r.Ok? && r.value.None? ==> |scanned| == numberOfPages || numberOfPages < 0
      ensures r.Ok? && r.value.Some? ==>
                var page := r.value.value;
                && page.pid == HeapPageId(tableId, |scanned|) && |scanned| < numberOfPages
                && page.pid in pool.pageIdToPages && pool.pageIdToPages[page.pid] == page
                && Shaped(page) && NumEmptySlots(page.header) > 0
                && LM.HasWrite(pool.lockManager.exclusiveLocks, tid, page.pid)
    {
      scanned := [];
      var pageNumber := 0;
      while pageNumber < numberOfPages
        invariant Valid() && pool.store.files == old(pool.store.files)
        invariant 0 <= pageNumber == |scanned| && (pageNumber <= numberOfPages || numberOfPages < 0)
        invariant numberOfPages < 0 ==> scanned == []
        invariant FullPrefix(scanned, tableId)
        decreases numberOfPages - pageNumber
      {
        var pid := HeapPageId(tableId, pageNumber);
        var g := pool.GetPage(tid, pid, Some(LM.ReadOnly));
        if g.Err? {
          return Err(g.error), scanned;
        }
        var page := g.value;
        if NumEmptySlots(page.header) > 0 {
          var g2 := pool.GetPage(tid, pid, Some(LM.ReadWrite));
          if g2.Err? {
            return Err(g2.error), scanned;
          }
          return Ok(Some(g2.value)), scanned;
        }
        pool.ReleasePage(tid, pid);
        FullPrefixExtend(scanned, tableId, page);
        scanned := scanned + [page];
        pageNumber := pageNumber + 1;
      }
      return Ok(None), scanned;
    }

    /** The append path of `insertTuple`: page `numPages()` is made from
        zero bytes, the counter grows (as a Java int), the tuple goes in
        slot 0 and the page is written to the file at once. The page is not
        put in the cache. */
    method AppendPage(t: Tuple) returns (r: Result<Page>)
      requires Valid()
      modifies this, pool.store
      ensures Valid() && numberOfPages == Wrap32(old(numberOfPages) + 1)
      ensures r.Ok? ==>
                && r.value.pid == HeapPageId(tableId, old(numberOfPages))
                && tableId in pool.schemas
                && Insert(BlankPage(pool.codec, r.value.pid, pool.schemas[tableId]), t).Ok?
                && r.value == Insert(BlankPage(pool.codec, r.value.pid, pool.schemas[tableId]), t).value.0
                && HoldsAt(r.value, t, 0) && Shaped(r.value)
                && tableId in old(pool.store.files)
                && FS.WritePageBytes(old(pool.store.files[tableId]), old(numberOfPages), PageData(pool.codec, r.value)).Ok?
                && pool.store.files == old(pool.store.files)[tableId :=
                     FS.WritePageBytes(old(pool.store.files[tableId]), old(numberOfPages), PageData(pool.codec, r.value)).value]
    {
      var newPid := HeapPageId(tableId, numberOfPages);
      numberOfPages := Wrap32(numberOfPages + 1);
      if tableId !in pool.schemas || tableId !in pool.store.files {
        return Err(NoSuchElement);
      }
      var blank := BlankPage(pool.codec, newPid, pool.schemas[tableId]);
      var ins := Insert(blank, t);
      if ins.Err? {
        return Err(ins.error);
      }
      EmptyPageTakesSlotZero(pool.codec, newPid, pool.schemas[tableId], t);
      var w := WritePage(ins.value.0);
      if w.Err? {
        return Err(w.error);
      }
      return Ok(ins.value.0);
    }

    /** `insertTuple(tid, t)`: the first page whose `getNumEmptySlots()` is
        positive (`chosen`) takes the tuple, in place in the cache, and its
        refusal is the call's DbException; when no page is chosen a page is
        appended. The result lists the one page that took the tuple.
        `scanned` holds the pages passed over, each reporting no empty
        slot. */
    method InsertTuple(tid: Tid, t: Tuple) returns (r: Result<seq<Page>>, ghost scanned: seq<Page>, ghost chosen: Option<Page>)
      requires Valid() && Conforms(t.desc, t.fields)
      modifies this, pool, pool.lockManager, pool.store
      ensures Valid()
      ensures FullPrefix(scanned, tableId)
      ensures r.Ok? ==> |r.value| == 1 && r.value[0].pid.tableId == tableId
      ensures chosen.Some? ==>
                && chosen.value.pid == HeapPageId(tableId, |scanned|) && |scanned| < old(numberOfPages)
                && Shaped(chosen.value) && NumEmptySlots(chosen.value.header) > 0
                && numberOfPages == old(numberOfPages) && pool.store.files == old(pool.store.files)
      ensures chosen.Some? && Insert(chosen.value, t).Err? ==> r == Err(Insert(chosen.value, t).error)
      ensures chosen.Some? && r.Ok? ==>
                && Insert(chosen.value, t).Ok? && r.value == [Insert(chosen.value, t).value.0]
                && (exists k :: HoldsAt(r.value[0], t, k))
                && r.value[0].pid in pool.pageIdToPages && pool.pageIdToPages[r.value[0].pid] == r.value[0]
      ensures chosen.None? && r.Ok? ==>
                && (|scanned| == old(numberOfPages) || (old(numberOfPages) < 0 && scanned == []))
                && r.value[0].pid == HeapPageId(tableId, old(numberOfPages))
                && numberOfPages == Wrap32(old(numberOfPages) + 1)
                && tableId in pool.schemas
                && Insert(BlankPage(pool.codec, r.value[0].pid, pool.schemas[tableId]), t).Ok?
                && r.value[0] == Insert(BlankPage(pool.codec, r.value[0].pid, pool.schemas[tableId]), t).value.0
                && HoldsAt(r.value[0], t, 0)
    {
      chosen := None;
      var found;
      found, scanned := FindPageWithRoom(tid);
      if found.Err? {
        return Err(found.error), scanned, chosen;
      }
      if found.value.Some? {
        var page := found.value.value;
        chosen := Some(page);
        var ins := InsertIntoCached(page, t);
        if ins.Err? {
          return Err(ins.error), scanned, chosen;
        }
        return Ok([ins.value]), scanned, chosen;
      }
      var appended := AppendPage(t);
      if appended.Err? {
        return Err(appended.error), scanned, chosen;
      }
      return Ok([appended.value]), scanned, chosen;
    }

    /** The tuple inserted into a cached page of this table, and the
        changed page put back in the cache; a refused insert leaves the
        cache alone. */
    method InsertIntoCached(page: Page, t: Tuple) returns (r: Result<Page>)
      requires Valid() && Conforms(t.desc, t.fields)
      requires page.pid in pool.pageIdToPages && pool.pageIdToPages[page.pid] == page
      modifies pool
      ensures Valid()
      ensures Insert(page, t).Err? ==> r == Err(Insert(page, t).error)
      ensures Insert(page, t).Ok? ==>
                && r == Ok(Insert(page, t).value.0) && (exists k :: HoldsAt(r.value, t, k))
                && pool.pageIdToPages == old(pool.pageIdToPages)[page.pid := r.value]
      ensures r.Ok? ==> r.value.pid == page.pid
    {
      var ins := Insert(page, t);
      if ins.Err? {
        return Err(ins.error);
      }
      InsertPreservesWellFormed(page, t);
      assert HoldsAt(ins.value.0, t, NextIndexOfValue(page.header, 0, |page.slots|, false));
      pool.UpdatePage(ins.value.0);
      return Ok(ins.value.0);
    }

    /** `deleteTuple(tid, t)`: a tuple whose record id names no page or a
        page of another table is refused before any page is touched;
        otherwise its page (`fetched`) is fetched under a write lock and
        the tuple is deleted from it in place, and that page is the
        result. */
    method DeleteTuple(tid: Tid, t: Tuple) returns (r: Result<Page>, ghost fetched: Page)
      requires Valid()
      modifies pool, pool.lockManager, pool.store
      ensures Valid()
      ensures t.rid.None? ==> r == Err(NullPointer)
      ensures t.rid.Some? && (t.rid.value.pageId.None? || t.rid.value.pageId.value.tableId != tableId) ==>
                r.Err? && r.error.DbException? && pool.pageIdToPages == old(pool.pageIdToPages)
      ensures pool.store.files == old(pool.store.files)
      ensures r.Ok? ==>
                && t.rid.Some? && t.rid.value.pageId == Some(r.value.pid) && r.value.pid.tableId == tableId
                && fetched.pid == r.value.pid && Shaped(fetched)
                && (fetched.pid in old(pool.pageIdToPages) ==> fetched == old(pool.pageIdToPages)[fetched.pid])
                && Delete(fetched, t).1.Ok? && r.value == Delete(fetched, t).0
                && 0 <= t.rid.value.tupleNumber < |r.value.slots| && r.value.slots[t.rid.value.tupleNumber].None?
                && r.value.pid in pool.pageIdToPages && pool.pageIdToPages[r.value.pid] == r.value
                && LM.HasWrite(pool.lockManager.exclusiveLocks, tid, r.value.pid)
    {
      fetched := Page(HeapPageId(0, 0), TupleDesc([]), [], [], false, None, []);
      if t.rid.None? {
        return Err(NullPointer), fetched;
      }
      var pageId := t.rid.value.pageId;
      if pageId.None? || pageId.value.tableId != tableId {
        return Err(DbException("File cannot delete tuple that it does not contain.")), fetched;
      }
      var g := pool.GetPage(tid, pageId.value, Some(LM.ReadWrite));
      if g.Err? {
        return Err(g.error), fetched;
      }
      fetched := g.value;
      var (q, res) := Delete(g.value, t);
      DeletePreservesWellFormed(g.value, t);
      pool.UpdatePage(q);
      if res.Err? {
        return Err(res.error), fetched;
      }
      return Ok(q), fetched;
    }
  }

  /** `BufferPool.insertTuple(tid, tableId, t)`: the table's heap file
      inserts the tuple and each page it reports is marked dirty by `tid`.
      A page object is known by its value here: marking reaches the cache
      when the reported page is the cached one (a page appended to the file
      is not cached, and marking it changes nothing the pool can see). */
  method PoolInsertTuple(file: HeapFile, tid: Tid, t: Tuple) returns (r: Result<()>, ghost page: Page)
    requires file.Valid() && Conforms(t.desc, t.fields)
    modifies file, file.pool, file.pool.lockManager, file.pool.store
    ensures file.Valid()
    ensures r.Ok? && page.pid.pageNumber < old(file.numberOfPages) ==>
              && page.pid.tableId == file.tableId
              && (exists k :: HoldsAt(page, t, k))
              && page.pid in file.pool.pageIdToPages
              && file.pool.pageIdToPages[page.pid] == WithDirty(page, true, Some(tid))
    ensures r.Ok? && page.pid.pageNumber >= old(file.numberOfPages) ==>
              HoldsAt(page, t, 0) && page.pid == HeapPageId(file.tableId, old(file.numberOfPages))
  {
    var res, scanned, chosen := file.InsertTuple(tid, t);
    if res.Err? {
      return Err(res.error), Page(HeapPageId(0, 0), TupleDesc([]), [], [], false, None, []);
    }
    var pages := res.value;
    page := pages[0];
    ghost var cached := page.pid in file.pool.pageIdToPages && file.pool.pageIdToPages[page.pid] == page;
    var i := 0;
    while i < |pages|
      invariant 0 <= i <= |pages| && file.Valid()
      invariant cached ==> (page.pid in file.pool.pageIdToPages &&
                            file.pool.pageIdToPages[page.pid] == if i == 0 then page else WithDirty(page, true, Some(tid)))
    {
      var p := pages[i];
      if p.pid in file.pool.pageIdToPages && file.pool.pageIdToPages[p.pid] == p {
        file.pool.MarkDirty(p.pid, tid);
      }
      i := i + 1;
    }
    return Ok(()), page;
  }

  /** `BufferPool.deleteTuple(tid, t)`: the heap file of the tuple's table
      deletes it and the page it reports is marked dirty by `tid`. The
      file is the one the catalog gives for the record id's table; a tuple
      without a record id or page id fails before any file is reached. */
  method PoolDeleteTuple(file: HeapFile, tid: Tid, t: Tuple) returns (r: Result<()>)
    requires file.Valid()
    requires t.rid.Some? && t.rid.value.pageId.Some? ==> file.tableId == t.rid.value.pageId.value.tableId
    modifies file.pool, file.pool.lockManager, file.pool.store
    ensures file.Valid()
    ensures t.rid.None? || t.rid.value.pageId.None? ==> r == Err(NullPointer)
    ensures t.rid.None? || t.rid.value.pageId.None? ==> file.pool.pageIdToPages == old(file.pool.pageIdToPages)
    ensures file.pool.store.files == old(file.pool.store.files)
    ensures r.Ok? ==>
              && t.rid.Some? && t.rid.value.pageId.Some?
              && var pid := t.rid.value.pageId.value;
                 pid in file.pool.pageIdToPages
                 && DirtiedBy(file.pool.pageIdToPages[pid]) == Some(tid)
                 && 0 <= t.rid.value.tupleNumber < |file.pool.pageIdToPages[pid].slots|
                 && file.pool.pageIdToPages[pid].slots[t.rid.value.tupleNumber].None?
  {
    if t.rid.None? || t.rid.value.pageId.None? {
      return Err(NullPointer);
    }
    var res, fetched := file.DeleteTuple(tid, t);
    if res.Err? {
      return Err(res.error);
    }
    file.pool.MarkDirty(res.value.pid, tid);
    return Ok(());
  }
}
