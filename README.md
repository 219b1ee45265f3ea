# Heap storage layer of SimpleDB, in Dafny

This project models the heap storage layer of SimpleDB, a teaching relational
engine. The layer stores a table's tuples as fixed-size pages in one backing
file. The model covers three classes:

- `TupleDesc`, the schema descriptor. It is an immutable ordered list of
  (field type, field name or null) items: module `Schema`, file `schema.dfy`.
- `RecordId`, the identity of one tuple slot on one page, and the page
  identity it contains: module `Identity`, file `identity.dfy`.
- `HeapFile`, the file of pages. The model covers its page count, its raw page
  read and its cursor over every tuple: module `Heap`, file `heap.dfy`.

Module `Java` (`java.dfy`) holds the Java semantics these classes rely on:
- exceptions, modelled as error values;
- `null`, and `Object` arguments of another class, modelled as `Option`;
- 32-bit `int` wrap-around;
- `java.util.Arrays.hashCode`.

How the source is modelled:

- `TupleDesc` never changes after construction, so it is a datatype. Its loops
  are methods: both constructors, `getSize`, `fieldNameToIndex`, `merge` (which
  fills two arrays with a running index) and `equals`. Each method is proved
  against what the source promises. `getSize` is tied to a sum function,
  `SizeOf`, and lemmas about that sum give the size of a merged descriptor.
- The backing file is a byte sequence. `readPage` fills a fresh zeroed
  `pageSize`-byte array with the bytes at offset `pageNumber * pageSize`. The
  model proves this gives page `n` back on a file laid out as whole pages.
- The cursor is a class with the fields of the source's anonymous iterator
  class and methods that update them. Its sixth field, `bufferPool`
  (HeapFile.java:125), is folded into `pages: PageId -> seq<T>`, which stands
  for fetching a page through the buffer pool and listing the tuples its
  iterator returns. A caller's `while (hasNext()) next()` loop (`DrainCursor`)
  is proved to return exactly `Remaining()`: the tuples in hand, then the
  snapshotted pages in order, up to the first empty page.

Facts about the code that the model follows:

- `TupleDesc.equals` compares field names as well as types, and a null name
  equals only a null name (TupleDesc.java:204-212). Its own javadoc
  (TupleDesc.java:185-188) says only the number of items and the types are
  compared.
- `hasNext()` and `next()` move forward at most one page per call: the page
  advance is an `if`, not a loop (HeapFile.java:139 and :151). So a
  `while (hasNext()) next()` loop stops at an empty page even when later
  pages hold tuples (`Heap.EmptyPageEndsScan`), although calling `hasNext()`
  again moves on to the next page (`Heap.ResumeAfterEmptyPage`).
- `open()` keeps the page iterator in hand (HeapFile.java:128-134). So a cursor
  that is closed and reopened first returns what was left of its old page
  (`Heap.ReopenAfterOneTuple`).
- `numPages()` rounds up (HeapFile.java:96-98), so a final partial page is
  counted, and `readPage()` reads it with its missing bytes as zeros
  (HeapFile.java:78-80).
- Neither constructor rejects an empty type array, although their javadoc
  (TupleDesc.java:58 and :78) asks for at least one entry.

## Model

| member | source | states |
|---|---|---|
| `Schema.Create` | src/java/simpledb/storage/TupleDesc.java:63-70 | IllegalArgumentException exactly when the type and name arrays differ in length; otherwise the descriptor has one field per type, and field i is (typeAr[i], fieldAr[i]) |
| `Schema.CreateAnonymous` | src/java/simpledb/storage/TupleDesc.java:80-85 | numFields equals the number of types; field i has type typeAr[i] and a null name |
| `Schema.NumFields` | src/java/simpledb/storage/TupleDesc.java:90-92 | the number of (type, name) items in the descriptor |
| `Schema.GetFieldName` | src/java/simpledb/storage/TupleDesc.java:103-106 | NoSuchElementException exactly when i >= numFields; otherwise field i's name, which may be null |
| `Schema.GetFieldType` | src/java/simpledb/storage/TupleDesc.java:118-121 | NoSuchElementException exactly when i >= numFields; otherwise field i's type |
| `Schema.FieldNameToIndex` | src/java/simpledb/storage/TupleDesc.java:132-139 | returns the smallest index whose non-null name equals the argument; a null argument matches nothing; NoSuchElementException exactly when no field matches |
| `Schema.GetSize` | src/java/simpledb/storage/TupleDesc.java:145-151 | the result is the sum of the byte lengths of all field types, and is at least the number of fields |
| `Schema.SizeAtLeastFieldCount` | src/java/simpledb/storage/TupleDesc.java:145-151 | every field type has a positive length, so the tuple size is at least the field count |
| `Schema.SizeOfConcat` | src/java/simpledb/storage/TupleDesc.java:145-151 | the size of a concatenation of field lists is the sum of their sizes |
| `Schema.Merge` | src/java/simpledb/storage/TupleDesc.java:163-183 | numFields is the sum of both inputs' counts; the first positions carry td1's types and names in order, the rest carry td2's; getSize of the result is the sum of both sizes |
| `Schema.MergedSize` | src/java/simpledb/storage/TupleDesc.java:163-183 | what Merge guarantees fixes the result as the concatenation of the field lists, and its size as the sum of both sizes |
| `Schema.MergedAccessors` | src/java/simpledb/storage/TupleDesc.java:163-183 | on a merged descriptor, getFieldName and getFieldType below td1's count answer as td1 does, and above it as td2 does at the shifted index |
| `Schema.Equals` | src/java/simpledb/storage/TupleDesc.java:196-217 | true exactly when the other object is a TupleDesc with the same field count, the same type at each position and the same name at each position, where null equals only null |
| `Schema.SameFieldsIsEquality` | src/java/simpledb/storage/TupleDesc.java:196-217 | field-by-field equality as equals tests it is exactly equality of descriptor values |
| `Schema.EqualsReflexive` | src/java/simpledb/storage/TupleDesc.java:196-217 | every descriptor equals itself |
| `Schema.EqualsSymmetric` | src/java/simpledb/storage/TupleDesc.java:196-217 | a equals b exactly when b equals a |
| `Identity.GetPageId` | src/java/simpledb/storage/RecordId.java:38-40 | the page id, which with the tuple number rebuilds the record |
| `Identity.GetTupleNumber` | src/java/simpledb/storage/RecordId.java:31-33 | the tuple number, which with the page id rebuilds the record |
| `Identity.AccessorsReturnArguments` | src/java/simpledb/storage/RecordId.java:23-40 | getPageId and getTupleNumber return the constructor's arguments unchanged |
| `Identity.Equals` | src/java/simpledb/storage/RecordId.java:49-54 | true exactly when the other object is a RecordId with an equal page id and an equal tuple number, and false for any other kind of object; this is structural equality |
| `Identity.HashCode` | src/java/simpledb/storage/RecordId.java:63-65 | the hash is 31*(31*(31*1 + pageNumber) + tableId) + tupleNumber, reduced to a 32-bit int |
| `Java.ArraysHashCodeOfThree` | src/java/simpledb/storage/RecordId.java:63-65 | Arrays.hashCode of a three-int array, computed with wrap-around at every step, equals the documented closed form wrapped once |
| `Java.WrapStep` | src/java/simpledb/storage/RecordId.java:63-65 | wrapping the running hash before the step 31*h + e does not change the wrapped result |
| `Identity.EqualsReflexive` | src/java/simpledb/storage/RecordId.java:49-54 | every RecordId equals itself |
| `Identity.EqualsSymmetric` | src/java/simpledb/storage/RecordId.java:49-54 | a equals b exactly when b equals a |
| `Identity.EqualsImpliesSameHash` | src/java/simpledb/storage/RecordId.java:49-65 | equal RecordIds have equal hash codes |
| `Heap.GetId` | src/java/simpledb/storage/HeapFile.java:58-60 | the heap file's table id, a fixed value of the file, so every call returns the same id |
| `Heap.GetTupleDesc` | src/java/simpledb/storage/HeapFile.java:67-69 | the schema the heap file holds |
| `Heap.NumPages` | src/java/simpledb/storage/HeapFile.java:96-98 | the page count is the least n with fileLength <= n * pageSize (ceiling division), saturated at Integer.MAX_VALUE |
| `Heap.NumPagesBoundaries` | src/java/simpledb/storage/HeapFile.java:96-98 | an empty file has 0 pages, pageSize bytes make 1 page, and pageSize + 1 bytes make 2 |
| `Heap.NumPagesOfWholePages` | src/java/simpledb/storage/HeapFile.java:96-98 | a file of exactly c pages' worth of bytes has c pages |
| `Heap.ReadPage` | src/java/simpledb/storage/HeapFile.java:72-85 | IllegalArgumentException exactly when the table id differs from getId(), the page number is >= numPages(), or it is negative (the failed seek is rethrown); otherwise a page with that id whose bytes are file[n*ps .. n*ps+ps), zero-padded past end of file |
| `Heap.PageStartsInFile` | src/java/simpledb/storage/HeapFile.java:73-80 | a page number in [0, numPages()) starts inside the file, so the read offset is within the file |
| `Heap.FlattenAt` | src/java/simpledb/storage/HeapFile.java:76-81 | in a file of whole pages, byte k of page n is at offset n * pageSize + k |
| `Heap.ReadPageOfLayout` | src/java/simpledb/storage/HeapFile.java:76-81 | on a file made of whole pages, numPages() counts them and readPage of page n returns exactly page n's bytes |
| `Heap.ScanOfNonEmptyPages` | src/java/simpledb/storage/HeapFile.java:137-158 | when no page in range is empty, what the cursor scans is every tuple of every page, concatenated in page order |
| `Heap.EmptyPageEndsScan` | src/java/simpledb/storage/HeapFile.java:139-145 | with an empty page 0 and a one-tuple page 1, the scan returns nothing although the pages hold a tuple |
| `Heap.HeapFileIterator.constructor` | src/java/simpledb/storage/HeapFile.java:120-124 | a new cursor is not open, is before the first page, has no page iterator, and has a zero page count and table id |
| `Heap.HeapFileIterator.Open` | src/java/simpledb/storage/HeapFile.java:128-134 | sets opened and pageIndex := -1, snapshots totalPages := numPages() and tableId := getId(), and keeps the page iterator; HasNext and Next never read the file again, so pages appended after open() are never visited |
| `Heap.HeapFileIterator.HasNext` | src/java/simpledb/storage/HeapFile.java:137-146 | false when not open; when the page iterator is null or exhausted, increments pageIndex exactly once and, below totalPages, takes that page's tuples; the result is whether a tuple is in hand, which on an open cursor is exactly whether a `while (hasNext()) next()` loop still returns a tuple; when true, what that loop returns is unchanged |
| `Heap.HeapFileIterator.Next` | src/java/simpledb/storage/HeapFile.java:149-158 | NoSuchElementException when not open, past totalPages, or when the page just taken is empty; otherwise returns and consumes the first remaining tuple; advances at most one page |
| `Heap.HeapFileIterator.Rewind` | src/java/simpledb/storage/HeapFile.java:161-164 | pageIndex := -1 and page iterator := null; opened, totalPages and tableId are unchanged |
| `Heap.HeapFileIterator.Close` | src/java/simpledb/storage/HeapFile.java:167-169 | clears opened and changes nothing else |
| `Heap.DrainCursor` | src/java/simpledb/storage/HeapFile.java:137-158 | a while (hasNext()) next() loop on an open cursor returns exactly its remaining tuples and leaves the snapshot unchanged |
| `Heap.ScanTwice` | src/java/simpledb/storage/HeapFile.java:128-164 | a fresh cursor's while (hasNext()) next() loop returns the tuples of the pages in page order, from page 0 up to the first empty page or to numPages() as counted at open(); after rewind() the same loop returns the identical sequence; with no empty page that is every tuple of every page |
| `Heap.ResumeAfterEmptyPage` | src/java/simpledb/storage/HeapFile.java:137-158 | with an empty page 0 and a one-tuple page 1, the first hasNext() is false, a second hasNext() is true, and next() returns page 1's tuple |
| `Heap.ReopenAfterOneTuple` | src/java/simpledb/storage/HeapFile.java:128-169 | after one next(), close() and open(), the cursor first returns the rest of page 0, then scans from page 0 again |

## Left out

- `writePage`, `insertTuple` and `deleteTuple` (HeapFile.java:88-114) are empty placeholders in the source. No write or insert policy is modelled.
- File I/O is not modelled: `RandomAccessFile`, `File.length()`, and the file handle `readPage` never closes. The backing file is a byte sequence. The model assumes `read` fills the buffer up to end of file, as it does for a regular file.
- `getId()` hashes the file's absolute path with a library call. The id is a constant field of the heap file.
- `getFile()`, the `HeapFile` constructor and `iterator(tid)` only store or pass their arguments. The transaction id reaches only the buffer pool, which is not modelled.
- The buffer pool, page parsing and page iterators are not modelled: `Database.getBufferPool()`, `BufferPool.getPage`, `HeapPage` construction and its iterator. So are transactions, locking, and the `DbException`/`TransactionAbortedException` a page fetch may throw. A pure function `pages` from page id to tuples stands for them. The model assumes an exhausted page iterator's `next()` throws NoSuchElementException.
- The `Type` enumeration is not part of this model. A field type is an opaque value with a positive byte length. `PageId`/`HeapPageId` are also not part of this model. A page id is assumed to be a value with structural equality over (tableId, pageNumber).
- `TupleDesc.hashCode()` only throws UnsupportedOperationException. `toString()`, `TDItem.toString()` and `iterator()` are formatting or plain delegation. Serialization is not modelled.
- Null references that make the source throw NullPointerException are not modelled: null `typeAr`/`fieldAr` arrays; null entries of `typeAr`, on which `getSize` (TupleDesc.java:148) and `equals` (TupleDesc.java:204) throw; null `merge` arguments; and a null page id given to `new RecordId`, on which `equals` (RecordId.java:51) and `hashCode` (RecordId.java:64) throw. Every type, descriptor and page id in the model is a value.
- Heap.NumPages: the source divides as `double` and uses `Math.ceil`. The model uses exact integer ceiling division, then Java's saturating narrowing to `int`. The two agree whenever the quotient is below 2^31 and the page size is at most 2^20.
- Heap.HeapFileIterator.HasNext: `pageIndex` is an unbounded integer. In the source it is an `int`, and it would wrap after about 2^31 calls past the last page.
- Heap.HeapFileIterator.Next: `pageIndex` is an unbounded integer, as for `HasNext`.
- Schema.GetFieldName: requires `i >= 0`. For a negative index the source's list lookup throws IndexOutOfBoundsException, which is not modelled.
- Schema.GetFieldType: requires `i >= 0`, for the same reason as `GetFieldName`.
- Schema.GetSize: the sum is an unbounded integer. The source's `int` accumulator would wrap only beyond 2^31 - 1 bytes per tuple.
