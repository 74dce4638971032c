/** The earlier heap file (`simpledb.HeapFile` of lab 2), used with the
    first page cache: every page is read and written through a fresh stream
    on the table's file, insertion takes a write lock on every page it
    scans, and a new page is appended and written at once. The table's file
    is the cache's store entry for the table. */
module HeapFileLab2 {
  import opened Common
  import opened Ids
  import opened Types
  import opened TupleDesc
  import opened HeaderBits
  import opened PageLayout
  import opened HeapPage
  import LM = LockManager
  import FS = FileStore
  import BP = BufferPoolLab1
  import opened HeapFile

  const SHORT_WRITE: string := "Did not read entire page successfully."

  /** `readPage`'s bytes: a positional read of one page at the page's
      offset. A negative position is refused by the channel, and fewer than
      PAGE_SIZE bytes read fail the read. */
  function ReadBytes(file: seq<Byte>, pageNumber: int): (r: Result<seq<Byte>>)
    ensures FS.PageOffset(pageNumber) < 0 ==> r == Err(IllegalArgument)
    ensures r.Ok? <==> 0 <= FS.PageOffset(pageNumber) && FS.PageOffset(pageNumber) + PAGE_SIZE <= |file|
    ensures r.Ok? ==> r.value == file[FS.PageOffset(pageNumber) .. FS.PageOffset(pageNumber) + PAGE_SIZE]
  {
    if FS.PageOffset(pageNumber) < 0 then Err(IllegalArgument) else FS.ReadPageBytes(file, pageNumber)
  }

  /** `writePage` AS WRITTEN: the output stream is opened without append,
      which empties the file, then the page's bytes are written at their
      offset (the gap before them reads as zeros). The write count is checked
      only after the bytes are in the file. */
  function TruncatingWrite(pageNumber: int, data: seq<Byte>): (r: (seq<Byte>, Result<()>))
    ensures FS.PageOffset(pageNumber) < 0 ==> r == ([], Err(IllegalArgument))
    ensures 0 <= FS.PageOffset(pageNumber) ==> |r.0| == FS.PageOffset(pageNumber) + |data|
    ensures r.1.Ok? <==> 0 <= FS.PageOffset(pageNumber) && |data| == PAGE_SIZE
  {
    var off := FS.PageOffset(pageNumber);
    if off < 0 then ([], Err(IllegalArgument))
    else (FS.WriteAt([], off, data), if |data| == PAGE_SIZE then Ok(()) else Err(StorageFault(SHORT_WRITE)))
  }

  /** Writing page n of a file erases every page before it: page 0 reads
      back as zeros whatever it held, so a two-page file of ones loses its
      first page when its second page is written. */
  lemma TruncatingWriteErasesEarlierPages(pageNumber: int, data: seq<Byte>)
    requires 1 <= pageNumber && PAGE_SIZE * pageNumber <= INT_MAX && |data| == PAGE_SIZE
    ensures ReadBytes(TruncatingWrite(pageNumber, data).0, 0) == Ok(Zeros(PAGE_SIZE))
    ensures var file := seq(2 * PAGE_SIZE, _ => 1 as Byte);
            && ReadBytes(file, 0) == Ok(seq(PAGE_SIZE, _ => 1 as Byte))
            && ReadBytes(TruncatingWrite(1, data).0, 0) != ReadBytes(file, 0)
  {
    FS.PageOffsetExact(pageNumber);
    FS.PageOffsetExact(0);
    FS.PageOffsetExact(1);
    var w := TruncatingWrite(pageNumber, data).0;
    assert w[..PAGE_SIZE] == Zeros(PAGE_SIZE);
    var file := seq(2 * PAGE_SIZE, _ => 1 as Byte);
    assert file[..PAGE_SIZE] == seq(PAGE_SIZE, _ => 1 as Byte);
    var w1 := TruncatingWrite(1, data).0;
    assert ReadBytes(w1, 0).value[0] == 0;
  }

  /** `writePage` as intended: the page's bytes overwrite the file in place
      at their offset, the file growing with zeros when the offset is past
      its end; the write count is still checked. */
  function InPlaceWrite(file: seq<Byte>, pageNumber: int, data: seq<Byte>): (r: (seq<Byte>, Result<()>))
    ensures FS.PageOffset(pageNumber) < 0 ==> r == (file, Err(IllegalArgument))
    ensures 0 <= FS.PageOffset(pageNumber) ==> r.0 == FS.WritePageBytes(file, pageNumber, data).value
    ensures r.1.Ok? <==> 0 <= FS.PageOffset(pageNumber) && |data| == PAGE_SIZE
  {
    var off := FS.PageOffset(pageNumber);
    if off < 0 then (file, Err(IllegalArgument))
    else (FS.WriteAt(file, off, data), if |data| == PAGE_SIZE then Ok(()) else Err(StorageFault(SHORT_WRITE)))
  }

  /** After a successful write the page reads back as the bytes written,
      and every other page that could be read before reads the same. */
  lemma InPlaceWriteReadsBack(file: seq<Byte>, n: int, m: int, data: seq<Byte>)
    requires InPlaceWrite(file, n, data).1.Ok?
    ensures ReadBytes(InPlaceWrite(file, n, data).0, n) == Ok(data)
    ensures ReadBytes(file, m).Ok? && FS.PageOffset(m) != FS.PageOffset(n) ==>
              ReadBytes(InPlaceWrite(file, n, data).0, m) == ReadBytes(file, m)
  {
    FS.ReadAfterWrite(file, n, data);
    if ReadBytes(file, m).Ok? && FS.PageOffset(m) != FS.PageOffset(n) {
      FS.WriteKeepsOtherPages(file, n, m, data);
    }
  }

  /** A well-formed page written in place reads back, through the page
      parser, as the same page, clean, with its bytes as before-image. */
  lemma WrittenPageParsesBack(c: Codec, file: seq<Byte>, p: Page)
    requires WellFormed(p) && WellBehaved(c) && FieldsRoundTrip(c, p)
    requires 0 <= FS.PageOffset(p.pid.pageNumber)
    ensures var (w, r) := InPlaceWrite(file, p.pid.pageNumber, PageData(c, p));
            && r.Ok?
            && ReadBytes(w, p.pid.pageNumber) == Ok(PageData(c, p))
            && Parse(c, p.pid, p.desc, PageData(c, p)) == p.(dirty := false, dirtier := None, oldData := PageData(c, p))
  {
    ParsePageData(c, p);
    InPlaceWriteReadsBack(file, p.pid.pageNumber, p.pid.pageNumber, PageData(c, p));
  }

  class HeapFileLab2 {
    /** `getId()`: the table id, a hash of the file's path in the source. */
    const tableId: int
    /** `getTupleDesc()`. */
    const desc: TupleDesc
    var numberOfPages: int
    /** `Database.getBufferPool()`. */
    const pool: BP.BufferPool

    ghost predicate Valid()
      reads this, pool
    {
      pool.Valid()
    }

    /** `HeapFile(f, td)`: the page counter is the file's length over the
        page size, after the length is narrowed to an int; a missing file
        has length 0. Nothing is created. */
    constructor (tableId: int, desc: TupleDesc, pool: BP.BufferPool)
      requires pool.Valid()
      ensures Valid()
      ensures this.tableId == tableId && this.desc == desc && this.pool == pool
      ensures numberOfPages == if tableId in pool.store.files then FS.NumPagesOf(|pool.store.files[tableId]|) else 0
    {
      this.tableId := tableId;
      this.desc := desc;
      this.pool := pool;
      numberOfPages := if tableId in pool.store.files then FS.NumPagesOf(|pool.store.files[tableId]|) else 0;
    }

    /** `numPages()`. */
    method NumPages() returns (n: int)
      ensures n == numberOfPages
    {
      n := numberOfPages;
    }

    /** `readPage(pid)`: page `pid` parsed from this file's bytes at the
        offset of the page number (whatever table `pid` names), with the
        schema the catalog gives for `pid`'s table. Opening a missing file
        fails. */
    function ReadPage(pid: HeapPageId): (r: Result<Page>)
      reads this, pool, pool.store
      ensures tableId !in pool.store.files ==> r.Err? && r.error.StorageFault?
      ensures r.Ok? <==> && tableId in pool.store.files && pid.tableId in pool.schemas
                         && ReadBytes(pool.store.files[tableId], pid.pageNumber).Ok?
      ensures r.Ok? ==> && r.value.pid == pid && r.value.desc == pool.schemas[pid.tableId]
                        && !r.value.dirty && Shaped(r.value)
                        && r.value.header == ReadBytes(pool.store.files[tableId], pid.pageNumber).value[..|r.value.header|]
    {
      if tableId !in pool.store.files then Err(StorageFault("File not found"))
      else
        match ReadBytes(pool.store.files[tableId], pid.pageNumber)
        case Err(e) => Err(e)
        case Ok(bytes) =>
          if pid.tableId !in pool.schemas then Err(NoSuchElement)
          else Ok(Parse(pool.codec, pid, pool.schemas[pid.tableId], bytes))
    }

    /** `writePage(page)`: the page's bytes are written into this file at
        the offset of the page's number, in place (the source empties the
        file first; see `TruncatingWrite`). A missing file is created. */
    method WritePage(page: Page) returns (r: Result<()>)
      requires Shaped(page)
      modifies pool.store
      ensures var before := if tableId in old(pool.store.files) then old(pool.store.files[tableId]) else [];
              var (w, res) := InPlaceWrite(before, page.pid.pageNumber, PageData(pool.codec, page));
              && r == res
              && pool.store.files == old(pool.store.files)[tableId := w]
    {
      var before := if tableId in pool.store.files then pool.store.files[tableId] else [];
      var (w, res) := InPlaceWrite(before, page.pid.pageNumber, PageData(pool.codec, page));
      pool.store.files := pool.store.files[tableId := w];
      r := res;
    }

    /** The scan of `insertTuple`: the pages in order, each fetched under a
        write lock, until one reports empty slots by `getNumEmptySlots()`.
        `scanned` holds the pages passed over, each reporting no empty
        slot; none is released. */
    method FindPageWithRoom(tid: Tid) returns (r: Result<Option<Page>>, ghost scanned: seq<Page>)
      requires Valid()
      modifies pool, pool.store
      ensures Valid()
      ensures |scanned| <= numberOfPages || (numberOfPages < 0 && scanned == [])
      ensures FullPrefix(scanned, tableId)
      ensures r.Ok? && r.value.None? ==> |scanned| == numberOfPages || numberOfPages < 0
      ensures r.Ok? && r.value.Some? ==>
                var page := r.value.value;
                && page.pid == HeapPageId(tableId, |scanned|) && |scanned| < numberOfPages
                && page.pid in pool.pageIdToPages && pool.pageIdToPages[page.pid] == page
                && Shaped(page) && NumEmptySlots(page.header) > 0
    {
      scanned := [];
      var pageNumber := 0;
      while pageNumber < numberOfPages
        invariant Valid()
        invariant 0 <= pageNumber == |scanned| && (pageNumber <= numberOfPages || numberOfPages < 0)
        invariant numberOfPages < 0 ==> scanned == []
        invariant FullPrefix(scanned, tableId)
        decreases numberOfPages - pageNumber
      {
        var pid := HeapPageId(tableId, pageNumber);
        var g := pool.GetPage(tid, pid, Some(LM.ReadWrite));
        if g.Err? {
          return Err(g.error), scanned;
        }
        var page := g.value;
        assert page.pid == pid && Shaped(page);
        if NumEmptySlots(page.header) > 0 {
          return Ok(Some(page)), scanned;
        }
        FullPrefixExtend(scanned, tableId, page);
        scanned := scanned + [page];
        pageNumber := pageNumber + 1;
      }
      return Ok(None), scanned;
    }

    /** The append path of `insertTuple`: page `numPages()` is made from
        zero bytes with the catalog's schema, then the counter grows (as a
        Java int), the tuple goes in slot 0 and the page is written to the
        file at once. The page is not put in the cache. */
    method AppendPage(t: Tuple) returns (r: Result<Page>)
      requires Valid()
      modifies this, pool.store
      ensures Valid()
      ensures tableId !in pool.schemas ==> r == Err(NoSuchElement) && numberOfPages == old(numberOfPages)
      ensures tableId in pool.schemas ==> numberOfPages == Wrap32(old(numberOfPages) + 1)
      ensures r.Ok? ==>
                && r.value.pid == HeapPageId(tableId, old(numberOfPages))
                && tableId in pool.schemas
                && Insert(BlankPage(pool.codec, r.value.pid, pool.schemas[tableId]), t).Ok?
                && r.value == Insert(BlankPage(pool.codec, r.value.pid, pool.schemas[tableId]), t).value.0
                && HoldsAt(r.value, t, 0) && Shaped(r.value)
                && var before := if tableId in old(pool.store.files) then old(pool.store.files[tableId]) else [];
                   pool.store.files == old(pool.store.files)[tableId := InPlaceWrite(before, old(numberOfPages), PageData(pool.codec, r.value)).0]
    {
      var newPid := HeapPageId(tableId, numberOfPages);
      if tableId !in pool.schemas {
        return Err(NoSuchElement);
      }
      var blank := BlankPage(pool.codec, newPid, pool.schemas[tableId]);
      numberOfPages := Wrap32(numberOfPages + 1);
      var ins := Insert(blank, t);
      if ins.Err? {
        return Err(ins.error);
      }
      EmptyPageTakesSlotZero(pool.codec, newPid, pool.schemas[tableId], t);
      var w := WritePage(ins.value.0);
      if w.Err? {
        return Err(w.error);
      }
      return Ok(ins.value.0);
    }

    /** `insertTuple(tid, t)`: the first page whose `getNumEmptySlots()` is
        positive (`chosen`) takes the tuple, in place in the cache, and its
        refusal is the call's DbException; when no page is chosen a page is
        appended. The result lists the one page that took the tuple. */
    method InsertTuple(tid: Tid, t: Tuple) returns (r: Result<seq<Page>>, ghost scanned: seq<Page>, ghost chosen: Option<Page>)
      requires Valid()
      modifies this, pool, pool.store
      ensures Valid()
      ensures FullPrefix(scanned, tableId)
      ensures r.Ok? ==> |r.value| == 1 && r.value[0].pid.tableId == tableId
      ensures chosen.Some? ==>
                && chosen.value.pid == HeapPageId(tableId, |scanned|) && |scanned| < old(numberOfPages)
                && Shaped(chosen.value) && NumEmptySlots(chosen.value.header) > 0
                && numberOfPages == old(numberOfPages)
      ensures chosen.Some? && Insert(chosen.value, t).Err? ==> r == Err(Insert(chosen.value, t).error)
      ensures chosen.Some? && r.Ok? ==>
                && Insert(chosen.value, t).Ok? && r.value == [Insert(chosen.value, t).value.0]
                && (exists k :: HoldsAt(r.value[0], t, k))
                && r.value[0].pid in pool.pageIdToPages && pool.pageIdToPages[r.value[0].pid] == r.value[0]
      ensures chosen.None? && r.Ok? ==>
                && (|scanned| == old(numberOfPages) || (old(numberOfPages) < 0 && scanned == []))
                && r.value[0].pid == HeapPageId(tableId, old(numberOfPages))
                && numberOfPages == Wrap32(old(numberOfPages) + 1)
                && tableId in pool.schemas
                && Insert(BlankPage(pool.codec, r.value[0].pid, pool.schemas[tableId]), t).Ok?
                && r.value[0] == Insert(BlankPage(pool.codec, r.value[0].pid, pool.schemas[tableId]), t).value.0
                && HoldsAt(r.value[0], t, 0)
    {
      chosen := None;
      var found;
      found, scanned := FindPageWithRoom(tid);
      if found.Err? {
        return Err(found.error), scanned, chosen;
      }
      if found.value.Some? {
        var page := found.value.value;
        chosen := Some(page);
        var ins := Insert(page, t);
        if ins.Err? {
          return Err(ins.error), scanned, chosen;
        }
        assert HoldsAt(ins.value.0, t, NextIndexOfValue(page.header, 0, |page.slots|, false));
        pool.UpdatePage(ins.value.0);
        return Ok([ins.value.0]), scanned, chosen;
      }
      var appended := AppendPage(t);
      if appended.Err? {
        return Err(appended.error), scanned, chosen;
      }
      return Ok([appended.value]), scanned, chosen;
    }

    /** `deleteTuple(tid, t)`: a tuple whose record id names no page or a
        page of another table is refused before any page is touched;
        otherwise its page (`fetched`) is fetched under a write lock and
        the tuple is deleted from it in place, and that page is the
        result. */
    method DeleteTuple(tid: Tid, t: Tuple) returns (r: Result<Page>, ghost fetched: Page)
      requires Valid()
      modifies pool, pool.store
      ensures Valid()
      ensures t.rid.None? ==> r == Err(NullPointer)
      ensures t.rid.Some? && (t.rid.value.pageId.None? || t.rid.value.pageId.value.tableId != tableId) ==>
                && r.Err? && r.error.DbException?
                && pool.pageIdToPages == old(pool.pageIdToPages) && pool.store.files == old(pool.store.files)
      ensures r.Ok? ==>
                && t.rid.Some? && t.rid.value.pageId == Some(r.value.pid) && r.value.pid.tableId == tableId
                && fetched.pid == r.value.pid && Shaped(fetched)
                && (fetched.pid in old(pool.pageIdToPages) ==> fetched == old(pool.pageIdToPages)[fetched.pid])
                && Delete(fetched, t).1.Ok? && r.value == Delete(fetched, t).0
                && 0 <= t.rid.value.tupleNumber < |r.value.slots| && r.value.slots[t.rid.value.tupleNumber].None?
                && r.value.pid in pool.pageIdToPages && pool.pageIdToPages[r.value.pid] == r.value
    {
      fetched := Page(HeapPageId(0, 0), TupleDesc([]), [], [], false, None, []);
      if t.rid.None? {
        return Err(NullPointer), fetched;
      }
      var pageId := t.rid.value.pageId;
      if pageId.None? || pageId.value.tableId != tableId {
        return Err(DbException("File cannot delete tuple that it does not contain.")), fetched;
      }
      var g := pool.GetPage(tid, pageId.value, Some(LM.ReadWrite));
      if g.Err? {
        return Err(g.error), fetched;
      }
      fetched := g.value;
      var (q, res) := Delete(g.value, t);
      assert g.value.pid == pageId.value;
      pool.UpdatePage(q);
      if res.Err? {
        return Err(res.error), fetched;
      }
      return Ok(q), fetched;
    }
  }
}
