/** The heap file (HeapFile.java): a table stored as fixed-size pages in one
    backing file, its page arithmetic, raw page reads, and the cursor over all
    of its tuples. */
module Heap {
  import opened Java
  import opened Identity
  import Schema

  /** The buffer pool's process-wide page size, a positive `int`. */
  type PageSize = n: int | 0 < n <= 0x7fff_ffff witness 4096

  /** A heap file: the bytes of its backing file, its table id (a stable
      hash of the file's absolute path, computed outside this model) and its
      schema. */
  datatype HeapFile = HeapFile(file: seq<bv8>, id: Int32, td: Schema.TupleDesc)

  /** A page as read from disk: its identity and its raw bytes. Parsing the
      bytes into slots is not part of this model. */
  datatype HeapPage = HeapPage(pid: PageId, data: seq<bv8>)

  /** `getId()`: the table id the heap file was given, the same value on
      every call. */
  function GetId(hf: HeapFile): (id: Int32)
    ensures HeapFile(hf.file, id, hf.td) == hf
  {
    hf.id
  }

  /** `getTupleDesc()`: the schema the heap file was constructed with. */
  function GetTupleDesc(hf: HeapFile): (td: Schema.TupleDesc)
    ensures HeapFile(hf.file, hf.id, td) == hf
  {
    hf.td
  }

  /** `numPages()`: the file length divided by the page size, rounded up,
      then narrowed to `int` (which saturates at `Integer.MAX_VALUE`). */
  function NumPages(hf: HeapFile, pageSize: PageSize): (n: Int32)
    ensures 0 <= n
    ensures n < INT_MAX ==> (n - 1) * pageSize < |hf.file| <= n * pageSize
    ensures n == INT_MAX ==> (n - 1) * pageSize < |hf.file|
  {
    CeilingDivision(|hf.file|, pageSize);
    var c := (|hf.file| + pageSize - 1) / pageSize;
    if c <= INT_MAX then c else INT_MAX
  }

  /** `(len + d - 1) / d` is the least `c` with `len <= c * d`. */
  lemma CeilingDivision(len: nat, d: PageSize)
    ensures var c := (len + d - 1) / d;
      0 <= c && (c - 1) * d < len <= c * d
  {
    var c := (len + d - 1) / d;
    var m := (len + d - 1) % d;
    assert len + d - 1 == c * d + m;
    assert (c - 1) * d == c * d - d;
  }

  /** The boundary cases of the ceiling: an empty file has no pages, one
      page's worth of bytes is one page, one byte more is two. */
  lemma NumPagesBoundaries(hf: HeapFile, pageSize: PageSize)
    ensures |hf.file| == 0 ==> NumPages(hf, pageSize) == 0
    ensures |hf.file| == pageSize ==> NumPages(hf, pageSize) == 1
    ensures |hf.file| == pageSize + 1 ==> NumPages(hf, pageSize) == 2
  {
    if |hf.file| == 0 {
      NumPagesOfWholePages(hf, pageSize, 0);
    } else if |hf.file| == pageSize {
      NumPagesOfWholePages(hf, pageSize, 1);
    } else if |hf.file| == pageSize + 1 {
      var n := NumPages(hf, pageSize);
      if n <= 1 {
        MultiplyMonotone(n, 1, pageSize);
      } else if n >= 3 {
        MultiplyMonotone(2, n - 1, pageSize);
      }
    }
  }

  /** The bytes of page `pageNumber`: the file's bytes from
      `pageNumber * pageSize` on, `pageSize` of them, with zeros past the end
      of the file. */
  function PageBytes(file: seq<bv8>, pageNumber: nat, pageSize: PageSize): seq<bv8>
  {
    seq(pageSize, k requires 0 <= k < pageSize =>
      if pageNumber * pageSize + k < |file| then file[pageNumber * pageSize + k] else 0)
  }

  /** `readPage(pid)`: IllegalArgumentException when the page belongs to
      another table or lies at or past `numPages()`; a negative page number
      passes that guard but makes the seek fail, and that failure is
      rethrown as IllegalArgumentException too. Otherwise a fresh zeroed
      buffer of `pageSize` bytes receives the bytes at offset
      `pageNumber * pageSize`, as many as the file still holds. */
  method ReadPage(hf: HeapFile, pageSize: PageSize, pid: PageId) returns (r: Result<HeapPage>)
    ensures r.Err? <==> pid.tableId != GetId(hf) || pid.pageNumber < 0 || pid.pageNumber >= NumPages(hf, pageSize)
    ensures r.Err? ==> r.error == IllegalArgument
    ensures r.Ok? ==> r.value.pid == pid && r.value.data == PageBytes(hf.file, pid.pageNumber, pageSize)
  {
    if pid.tableId != GetId(hf) || pid.pageNumber >= NumPages(hf, pageSize) {
      return Err(IllegalArgument);
    }
    var bytes := new bv8[pageSize](_ => 0);
    var offset := pid.pageNumber * pageSize;
    SignOfOffset(pid.pageNumber, pageSize);
    if offset < 0 {
      return Err(IllegalArgument);
    }
    PageStartsInFile(hf, pageSize, pid.pageNumber);
    var count := if |hf.file| - offset < pageSize then |hf.file| - offset else pageSize;
    for k := 0 to count
      invariant forall j :: 0 <= j < k ==> bytes[j] == hf.file[offset + j]
      invariant forall j :: k <= j < pageSize ==> bytes[j] == 0
    {
      bytes[k] := hf.file[offset + k];
    }
    r := Ok(HeapPage(pid, bytes[..]));
  }

  /** A page's byte offset is negative exactly when its number is. */
  lemma SignOfOffset(pageNumber: int, pageSize: PageSize)
    ensures pageNumber * pageSize < 0 <==> pageNumber < 0
  {
    if pageNumber >= 0 {
      assert pageNumber * pageSize >= 0;
    }
  }

  lemma MultiplyMonotone(a: int, b: int, d: PageSize)
    requires a <= b
    ensures a * d <= b * d
  {
  }

  /** A page number below `numPages()` starts inside the file. */
  lemma PageStartsInFile(hf: HeapFile, pageSize: PageSize, pageNumber: int)
    requires 0 <= pageNumber < NumPages(hf, pageSize)
    ensures pageNumber * pageSize < |hf.file|
  {
    MultiplyMonotone(pageNumber, NumPages(hf, pageSize) - 1, pageSize);
  }

  /** A file of exactly `c` pages' worth of bytes has `c` pages. */
  lemma NumPagesOfWholePages(hf: HeapFile, pageSize: PageSize, c: nat)
    requires |hf.file| == c * pageSize && c < INT_MAX
    ensures NumPages(hf, pageSize) == c
  {
    var n := NumPages(hf, pageSize);
    if n < c {
      MultiplyMonotone(n, c - 1, pageSize);
    } else if n > c {
      MultiplyMonotone(c, n - 1, pageSize);
    }
  }

  /** A file laid out as whole pages, one after another. */
  function Flatten(pages: seq<seq<bv8>>): seq<bv8>
  {
    if pages == [] then [] else pages[0] + Flatten(pages[1..])
  }

  /** In a file of whole pages, byte `k` of page `n` sits at offset
      `n * pageSize + k`. */
  lemma {:induction false} FlattenAt(pages: seq<seq<bv8>>, pageSize: PageSize, n: nat, k: nat)
    requires forall i :: 0 <= i < |pages| ==> |pages[i]| == pageSize
    requires n < |pages| && k < pageSize
    ensures n * pageSize + k < |Flatten(pages)| && Flatten(pages)[n * pageSize + k] == pages[n][k]
  {
    var rest := Flatten(pages[1..]);
    assert Flatten(pages) == pages[0] + rest;
    if n == 0 {
      assert Flatten(pages)[k] == pages[0][k];
    } else {
      FlattenAt(pages[1..], pageSize, n - 1, k);
      var offset := (n - 1) * pageSize + k;
      assert n * pageSize + k == pageSize + offset;
      assert Flatten(pages)[pageSize + offset] == rest[offset];
      assert pages[1..][n - 1] == pages[n];
    }
  }

  lemma {:induction false} FlattenLength(pages: seq<seq<bv8>>, pageSize: PageSize)
    requires forall i :: 0 <= i < |pages| ==> |pages[i]| == pageSize
    ensures |Flatten(pages)| == |pages| * pageSize
  {
    if pages != [] {
      FlattenLength(pages[1..], pageSize);
    }
  }

  /** On a file made of whole pages, `numPages()` counts them and
      `readPage` of page `n` returns exactly the bytes written as page `n`:
      page `n` occupies the byte range `[n * pageSize, (n + 1) * pageSize)`. */
  lemma ReadPageOfLayout(pages: seq<seq<bv8>>, pageSize: PageSize, id: Int32, td: Schema.TupleDesc, n: nat)
    requires forall i :: 0 <= i < |pages| ==> |pages[i]| == pageSize
    requires |pages| < INT_MAX
    requires n < |pages|
    ensures NumPages(HeapFile(Flatten(pages), id, td), pageSize) == |pages|
    ensures PageBytes(Flatten(pages), n, pageSize) == pages[n]
  {
    FlattenLength(pages, pageSize);
    NumPagesOfWholePages(HeapFile(Flatten(pages), id, td), pageSize, |pages|);
    forall k | 0 <= k < pageSize
      ensures PageBytes(Flatten(pages), n, pageSize)[k] == pages[n][k]
    {
      FlattenAt(pages, pageSize, n, k);
    }
  }

  /** The tuples a `while (hasNext()) next()` loop collects from the pages
      `lo .. hi - 1` of table `tableId`: page by page, in page order, up to
      the first empty page, which ends the scan. */
  ghost function ScanFrom<T>(pages: PageId -> seq<T>, tableId: Int32, lo: int, hi: int): seq<T>
    requires 0 <= lo && hi <= INT_MAX
    decreases hi - lo
  {
    if lo >= hi then []
    else
      var page := pages(PageId(tableId, lo));
      if page == [] then [] else page + ScanFrom(pages, tableId, lo + 1, hi)
  }

  /** All tuples of the pages `lo .. hi - 1`, concatenated in page order. */
  ghost function AllTuples<T>(pages: PageId -> seq<T>, tableId: Int32, lo: int, hi: int): seq<T>
    requires 0 <= lo && hi <= INT_MAX
    decreases hi - lo
  {
    if lo >= hi then [] else pages(PageId(tableId, lo)) + AllTuples(pages, tableId, lo + 1, hi)
  }

  /** When none of the pages is empty, the scan returns every tuple of
      every page, in page order. */
  lemma {:induction false} ScanOfNonEmptyPages<T>(pages: PageId -> seq<T>, tableId: Int32, lo: int, hi: int)
    requires 0 <= lo && hi <= INT_MAX
    requires forall p :: lo <= p < hi ==> pages(PageId(tableId, p)) != []
    ensures ScanFrom(pages, tableId, lo, hi) == AllTuples(pages, tableId, lo, hi)
    decreases hi - lo
  {
    if lo < hi {
      ScanOfNonEmptyPages(pages, tableId, lo + 1, hi);
    }
  }

  /** An empty page ends the scan even when later pages hold tuples: the
      cursor advances at most one page per call. */
  lemma EmptyPageEndsScan<T>(pages: PageId -> seq<T>, tableId: Int32, t: T)
    requires pages(PageId(tableId, 0)) == [] && pages(PageId(tableId, 1)) == [t]
    ensures ScanFrom(pages, tableId, 0, 2) == []
    ensures AllTuples(pages, tableId, 0, 2) == [t]
  {
    assert AllTuples(pages, tableId, 2, 2) == [];
    assert AllTuples(pages, tableId, 1, 2) == [t];
  }

  /** The cursor `iterator(tid)` returns. The buffer pool and the pages'
      own tuple iterators are not part of this model: `pages(pid)` stands for
      the tuples of the page that `getPage(tid, pid)` returns, and
      `pageIterator` holds the tuples its iterator has not yet returned
      (`None` for a null iterator). */
  class HeapFileIterator<T> {
    var isOpen: bool  // the source's `opened`
    var pageIndex: int
    var totalPages: int
    var tableId: Int32
    var pageIterator: Option<seq<T>>

    ghost predicate Valid()
      reads this
    {
      -1 <= pageIndex && 0 <= totalPages <= INT_MAX
    }

    /** `pageIterator != null && pageIterator.hasNext()`. */
    predicate HasTuple()
      reads this
    {
      pageIterator.Some? && pageIterator.value != []
    }

    /** The tuples left in the page iterator in hand. */
    ghost function Current(): seq<T>
      reads this
    {
      if pageIterator.Some? then pageIterator.value else []
    }

    /** The tuples a `while (hasNext()) next()` loop still returns, in
        order. Calls past the first `false` from `hasNext()` may go on to
        later pages; this is what the loop sees. */
    ghost function Remaining(pages: PageId -> seq<T>): seq<T>
      reads this
      requires Valid()
    {
      Current() + ScanFrom(pages, tableId, pageIndex + 1, totalPages)
    }

    /** The field initialisers of the anonymous iterator class. */
    constructor ()
      ensures Valid()
      ensures !isOpen && pageIndex == -1 && totalPages == 0 && tableId == 0 && pageIterator == None
    {
      isOpen, pageIndex, totalPages, tableId, pageIterator := false, -1, 0, 0, None;
    }

    /** `open()`: snapshots the page count and the table id of the file as it
        is now; the page iterator in hand is kept. */
    method Open(hf: HeapFile, pageSize: PageSize)
      modifies this
      ensures Valid()
      ensures isOpen && pageIndex == -1 && pageIterator == old(pageIterator)
      ensures totalPages == NumPages(hf, pageSize) && tableId == GetId(hf)
    {
      isOpen := true;
      pageIndex := -1;
      totalPages := NumPages(hf, pageSize);
      tableId := GetId(hf);
    }

    /** `hasNext()`: false when not open. When the page iterator in hand is
        null or exhausted, moves to the next page index, once; past the
        snapshotted page count it reports false, otherwise it takes that
        page's tuples. Then reports whether a tuple is in hand. */
    method HasNext(pages: PageId -> seq<T>) returns (b: bool)
      requires Valid()
      modifies this
      ensures Valid()
      ensures isOpen == old(isOpen) && totalPages == old(totalPages) && tableId == old(tableId)
      ensures b == (isOpen && HasTuple())
      ensures !old(isOpen) || old(HasTuple()) ==> pageIndex == old(pageIndex) && pageIterator == old(pageIterator)
      ensures old(isOpen) && !old(HasTuple()) ==>
        && pageIndex == old(pageIndex) + 1
        && pageIterator == (if pageIndex < totalPages then Some(pages(PageId(tableId, pageIndex))) else old(pageIterator))
      ensures old(isOpen) ==> (b <==> old(Remaining(pages)) != [])
      ensures b ==> Remaining(pages) == old(Remaining(pages))
    {
      if !isOpen {
        return false;
      }
      if pageIterator.None? || pageIterator.value == [] {
        pageIndex := pageIndex + 1;
        if pageIndex >= totalPages {
          return false;
        }
        pageIterator := Some(pages(PageId(tableId, pageIndex)));
      }
      b := pageIterator.value != [];
    }

    /** `next()`: NoSuchElementException when not open. Advances like
        `hasNext()`, at most one page; NoSuchElementException past the
        snapshotted page count, or when the page just taken is empty;
        otherwise returns and consumes the first tuple in hand. */
    method Next(pages: PageId -> seq<T>) returns (r: Result<T>)
      requires Valid()
      modifies this
      ensures Valid()
      ensures isOpen == old(isOpen) && totalPages == old(totalPages) && tableId == old(tableId)
      ensures !old(isOpen) ==> r == Err(NoSuchElement) && pageIndex == old(pageIndex) && pageIterator == old(pageIterator)
      ensures old(isOpen) && old(HasTuple()) ==>
        && r == Ok(old(pageIterator).value[0])
        && pageIndex == old(pageIndex)
        && pageIterator == Some(old(pageIterator).value[1..])
      ensures old(isOpen) && !old(HasTuple()) ==>
        && pageIndex == old(pageIndex) + 1
        && (pageIndex >= totalPages ==> r == Err(NoSuchElement) && pageIterator == old(pageIterator))
        && (pageIndex < totalPages ==>
              var page := pages(PageId(tableId, pageIndex));
              if page == [] then r == Err(NoSuchElement) && pageIterator == Some([])
              else r == Ok(page[0]) && pageIterator == Some(page[1..]))
      ensures r.Err? ==> r.error == NoSuchElement
      ensures old(isOpen) ==> (r.Ok? <==> old(Remaining(pages)) != [])
      ensures r.Ok? ==> r.value == old(Remaining(pages))[0] && Remaining(pages) == old(Remaining(pages))[1..]
    {
      if !isOpen {
        return Err(NoSuchElement);
      }
      if pageIterator.None? || pageIterator.value == [] {
        pageIndex := pageIndex + 1;
        if pageIndex >= totalPages {
          return Err(NoSuchElement);
        }
        pageIterator := Some(pages(PageId(tableId, pageIndex)));
      }
      var tuples := pageIterator.value;
      if tuples == [] {
        return Err(NoSuchElement);
      }
      r := Ok(tuples[0]);
      pageIterator := Some(tuples[1..]);
    }

    /** `rewind()`: back to before the first page, with no iterator in hand;
        neither reopens nor re-snapshots the page count. */
    method Rewind()
      requires Valid()
      modifies this
      ensures Valid()
      ensures pageIndex == -1 && pageIterator == None
      ensures isOpen == old(isOpen) && totalPages == old(totalPages) && tableId == old(tableId)
    {
      pageIndex := -1;
      pageIterator := None;
    }

    /** `close()`: only marks the cursor closed. */
    method Close()
      requires Valid()
      modifies this
      ensures Valid()
      ensures !isOpen
      ensures pageIndex == old(pageIndex) && totalPages == old(totalPages)
      ensures tableId == old(tableId) && pageIterator == old(pageIterator)
    {
      isOpen := false;
    }
  }

  /** A caller's `while (it.hasNext()) { it.next(); }` loop: it collects
      exactly the tuples the cursor had remaining. */
  method DrainCursor<T>(it: HeapFileIterator<T>, pages: PageId -> seq<T>) returns (tuples: seq<T>)
    requires it.Valid() && it.isOpen
    modifies it
    ensures it.Valid() && it.isOpen
    ensures it.totalPages == old(it.totalPages) && it.tableId == old(it.tableId)
    ensures tuples == old(it.Remaining(pages))
  {
    tuples := [];
    ghost var goal := it.Remaining(pages);
    while true
      invariant it.Valid() && it.isOpen
      invariant it.totalPages == old(it.totalPages) && it.tableId == old(it.tableId)
      invariant tuples + it.Remaining(pages) == goal
      decreases |it.Remaining(pages)|
    {
      ghost var before := it.Remaining(pages);
      var more := it.HasNext(pages);
      if !more {
        assert before == [];
        break;
      }
      assert it.Remaining(pages) == before != [];
      var r := it.Next(pages);
      assert before == [r.value] + it.Remaining(pages);
      tuples := tuples + [r.value];
    }
  }

  /** A fresh cursor over `hf`, opened, drained, rewound and drained again:
      both passes return the tuples of the pages in page order, from page 0
      up to the first empty page or to `numPages()` as counted at `open()`,
      and when no page is empty that is every tuple of
      every page in page order. */
  method ScanTwice<T>(hf: HeapFile, pageSize: PageSize, pages: PageId -> seq<T>) returns (first: seq<T>, second: seq<T>)
    ensures first == ScanFrom(pages, GetId(hf), 0, NumPages(hf, pageSize))
    ensures second == first
    ensures (forall p :: 0 <= p < NumPages(hf, pageSize) ==> pages(PageId(GetId(hf), p)) != []) ==>
      first == AllTuples(pages, GetId(hf), 0, NumPages(hf, pageSize))
  {
    var it := new HeapFileIterator<T>();
    it.Open(hf, pageSize);
    first := DrainCursor(it, pages);
    it.Rewind();
    second := DrainCursor(it, pages);
    if forall p :: 0 <= p < NumPages(hf, pageSize) ==> pages(PageId(GetId(hf), p)) != [] {
      ScanOfNonEmptyPages(pages, GetId(hf), 0, NumPages(hf, pageSize));
    }
  }

  /** `open()` keeps the page iterator in hand: a cursor that returned one
      tuple of page 0, was closed and opened again returns the rest of page 0
      first, then scans from page 0 afresh. */
  method ReopenAfterOneTuple<T>(hf: HeapFile, pageSize: PageSize, pages: PageId -> seq<T>) returns (first: Result<T>, rest: seq<T>)
    ensures var page0 := pages(PageId(GetId(hf), 0));
      NumPages(hf, pageSize) > 0 && page0 != [] ==>
        && first == Ok(page0[0])
        && rest == page0[1..] + ScanFrom(pages, GetId(hf), 0, NumPages(hf, pageSize))
  {
    var it := new HeapFileIterator<T>();
    it.Open(hf, pageSize);
    first := it.Next(pages);
    it.Close();
    it.Open(hf, pageSize);
    rest := DrainCursor(it, pages);
  }

  /** `hasNext()` returning false does not end the cursor: after an empty
      page 0, a second `hasNext()` moves on to page 1 and `next()` returns its
      tuple. A `while (hasNext()) next()` loop stops at the first call. */
  method ResumeAfterEmptyPage<T>(hf: HeapFile, pageSize: PageSize, pages: PageId -> seq<T>, t: T) returns (first: bool, second: bool, r: Result<T>)
    requires NumPages(hf, pageSize) >= 2
    requires pages(PageId(GetId(hf), 0)) == [] && pages(PageId(GetId(hf), 1)) == [t]
    ensures !first && second && r == Ok(t)
  {
    var it := new HeapFileIterator<T>();
    it.Open(hf, pageSize);
    first := it.HasNext(pages);
    second := it.HasNext(pages);
    r := it.Next(pages);
  }
}
