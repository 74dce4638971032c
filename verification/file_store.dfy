/** The heap files' backing store: each table's file is a sequence of
    bytes, page n lives at byte offset `n * PAGE_SIZE` computed in 32-bit
    Java arithmetic, a read must return a whole page, and a write overwrites
    in place, extending the file with zeros when it starts past the end. */
module FileStore {
  import opened Common
  import opened Ids
  import opened PageLayout

  /** `pageSize * pid.pageNumber()` as a Java `int`. */
  function PageOffset(pageNumber: int): (off: int)
    ensures IsInt32(off)
  {
    Wrap32(PAGE_SIZE * pageNumber)
  }

  /** Without overflow the offset is the exact product. */
  lemma PageOffsetExact(pageNumber: int)
    requires 0 <= pageNumber && PAGE_SIZE * pageNumber <= INT_MAX
    ensures PageOffset(pageNumber) == PAGE_SIZE * pageNumber && pageNumber < 524288
  {
  }

  /** Page 524288 would start at 2^31 bytes; the product wraps to a negative
      offset, which no seek accepts. */
  lemma PageOffsetOverflows()
    ensures PageOffset(524288) == INT_MIN
  {
  }

  /** Every offset, wrapped or not, is a multiple of the page size. */
  lemma PageOffsetAligned(pageNumber: int)
    ensures PageOffset(pageNumber) % PAGE_SIZE == 0
  {
    var x := PAGE_SIZE * pageNumber;
    var r := PageOffset(pageNumber);
    var k := (r - x) / TWO_32;
    assert r - x == TWO_32 * k;
    assert r == PAGE_SIZE * (pageNumber + 1048576 * k);
  }

  /** Two distinct aligned offsets name disjoint pages. */
  lemma AlignedDisjoint(a: int, b: int)
    requires a % PAGE_SIZE == 0 && b % PAGE_SIZE == 0 && a != b
    ensures a + PAGE_SIZE <= b || b + PAGE_SIZE <= a
  {
    var qa := a / PAGE_SIZE;
    var qb := b / PAGE_SIZE;
    assert a == PAGE_SIZE * qa && b == PAGE_SIZE * qb;
  }

  /** `(int) file.length() / pageSize`: the page count from the file length,
      after the long length is narrowed to an int. */
  function NumPagesOf(fileLength: nat): (n: int)
    ensures fileLength <= INT_MAX ==> n == fileLength / PAGE_SIZE && PAGE_SIZE * n <= fileLength
  {
    JavaDiv(Wrap32(fileLength), PAGE_SIZE)
  }

  /** The bytes of `file` with `data` written at `offset`: the file grows to
      hold the data, and a gap past the old end reads as zeros. */
  function WriteAt(file: seq<Byte>, offset: nat, data: seq<Byte>): (r: seq<Byte>)
    ensures |r| == if offset + |data| > |file| then offset + |data| else |file|
    ensures r[offset .. offset + |data|] == data
    ensures forall i :: 0 <= i < |r| && !(offset <= i < offset + |data|) ==>
              r[i] == (if i < |file| then file[i] else 0)
  {
    var before := if offset <= |file| then file[..offset] else file + Zeros(offset - |file|);
    var after := if offset + |data| < |file| then file[offset + |data|..] else [];
    assert (before + data + after)[offset .. offset + |data|] == data;
    before + data + after
  }

  /** `readPage` (lab3): seek to the page's offset and read one page; a
      negative offset fails the seek, and fewer than PAGE_SIZE bytes left in
      the file fail the read. */
  function ReadPageBytes(file: seq<Byte>, pageNumber: int): (r: Result<seq<Byte>>)
    ensures r.Ok? <==> 0 <= PageOffset(pageNumber) && PageOffset(pageNumber) + PAGE_SIZE <= |file|
    ensures r.Ok? ==> |r.value| == PAGE_SIZE && r.value == file[PageOffset(pageNumber) .. PageOffset(pageNumber) + PAGE_SIZE]
    ensures r.Err? ==> r.error.StorageFault?
  {
    var off := PageOffset(pageNumber);
    if off < 0 then Err(StorageFault("Negative seek offset"))
    else if off + PAGE_SIZE <= |file| then Ok(file[off .. off + PAGE_SIZE])
    else Err(StorageFault("Did not read entire page successfully."))
  }

  /** `writePage` (lab3): seek to the page's offset and write the bytes in
      place; only a negative offset fails. */
  function WritePageBytes(file: seq<Byte>, pageNumber: int, data: seq<Byte>): (r: Result<seq<Byte>>)
    ensures r.Ok? <==> 0 <= PageOffset(pageNumber)
    ensures r.Err? ==> r.error.StorageFault?
  {
    var off := PageOffset(pageNumber);
    if off < 0 then Err(StorageFault("Negative seek offset")) else Ok(WriteAt(file, off, data))
  }

  /** A page reads back as the bytes last written to it. */
  lemma ReadAfterWrite(file: seq<Byte>, pageNumber: int, data: seq<Byte>)
    requires |data| == PAGE_SIZE && WritePageBytes(file, pageNumber, data).Ok?
    ensures ReadPageBytes(WritePageBytes(file, pageNumber, data).value, pageNumber) == Ok(data)
  {
  }

  /** Writing one page leaves every other readable page's bytes as they were;
      pages whose offsets coincide after wrap-around are the same page. */
  lemma WriteKeepsOtherPages(file: seq<Byte>, n: int, m: int, data: seq<Byte>)
    requires |data| == PAGE_SIZE && WritePageBytes(file, n, data).Ok?
    requires ReadPageBytes(file, m).Ok? && PageOffset(m) != PageOffset(n)
    ensures ReadPageBytes(WritePageBytes(file, n, data).value, m) == ReadPageBytes(file, m)
  {
    var a := PageOffset(n);
    var b := PageOffset(m);
    PageOffsetAligned(n);
    PageOffsetAligned(m);
    AlignedDisjoint(a, b);
    var w := WritePageBytes(file, n, data).value;
    assert w[b .. b + PAGE_SIZE] == file[b .. b + PAGE_SIZE];
  }

  /** Writing page n of a file of exactly n pages appends it: the file grows
      by one page and the page count by one. */
  lemma AppendGrowsFile(file: seq<Byte>, n: nat, data: seq<Byte>)
    requires |data| == PAGE_SIZE && |file| == PAGE_SIZE * n && PAGE_SIZE * (n + 1) <= INT_MAX
    ensures WritePageBytes(file, n, data).Ok?
    ensures var w := WritePageBytes(file, n, data).value;
            |w| == |file| + PAGE_SIZE && w[..|file|] == file
            && NumPagesOf(|w|) == NumPagesOf(|file|) + 1
  {
    PageOffsetExact(n);
    var w := WritePageBytes(file, n, data).value;
    assert w == file + data;
  }

  /** The files of all tables, keyed by table id (`Catalog.getDatabaseFile`
      then the file's own reads and writes). */
  class FileStore {
    var files: map<int, seq<Byte>>

    constructor (files: map<int, seq<Byte>>)
      ensures this.files == files
    {
      this.files := files;
    }

    /** The table's file read at the page's offset; an unknown table is a
        missing catalog entry. */
    function ReadPage(pid: HeapPageId): (r: Result<seq<Byte>>)
      reads this
      ensures pid.tableId !in files ==> r == Err(NoSuchElement)
      ensures r.Ok? ==> |r.value| == PAGE_SIZE
      ensures r.Ok? <==> pid.tableId in files && ReadPageBytes(files[pid.tableId], pid.pageNumber).Ok?
    {
      if pid.tableId !in files then Err(NoSuchElement)
      else ReadPageBytes(files[pid.tableId], pid.pageNumber)
    }

    /** Write a page's bytes into its table's file; no other file changes. */
    method WritePage(pid: HeapPageId, data: seq<Byte>) returns (r: Result<()>)
      modifies this
      ensures pid.tableId !in old(files) ==> r == Err(NoSuchElement) && files == old(files)
      ensures pid.tableId in old(files) ==>
        match WritePageBytes(old(files)[pid.tableId], pid.pageNumber, data)
        case Ok(w) => r == Ok(()) && files == old(files)[pid.tableId := w]
        case Err(e) => r == Err(e) && files == old(files)
    {
      if pid.tableId !in files {
        return Err(NoSuchElement);
      }
      var w := WritePageBytes(files[pid.tableId], pid.pageNumber, data);
      if w.Err? {
        return Err(w.error);
      }
      files := files[pid.tableId := w.value];
      return Ok(());
    }
  }
}
