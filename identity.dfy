/** Value identities of the storage layer: the page identity and the record
    identity built on it (RecordId.java). */
module Identity {
  import opened Java

  /** The identity of one heap page: the owning table and the page's number in
      the table's file. The page-identity class itself is not part of this
      model; its equality is assumed structural over these two fields, which
      is what Dafny's datatype equality gives. */
  datatype PageId = PageId(tableId: Int32, pageNumber: Int32)

  /** A reference to one tuple slot on one page. Both fields are fixed by the
      constructor and never change. */
  datatype RecordId = RecordId(pageId: PageId, tupleNumber: Int32)

  /** `getPageId()`: together with the tuple number it rebuilds the record. */
  function GetPageId(rid: RecordId): (pid: PageId)
    ensures RecordId(pid, rid.tupleNumber) == rid
  {
    rid.pageId
  }

  /** `getTupleNumber()`: together with the page id it rebuilds the record. */
  function GetTupleNumber(rid: RecordId): (n: Int32)
    ensures RecordId(rid.pageId, n) == rid
  {
    rid.tupleNumber
  }

  /** The accessors hand back exactly what the constructor was given. */
  lemma AccessorsReturnArguments(pid: PageId, tupleNumber: Int32)
    ensures GetPageId(RecordId(pid, tupleNumber)) == pid
    ensures GetTupleNumber(RecordId(pid, tupleNumber)) == tupleNumber
  {
  }

  /** `equals(Object o)`; `o` is `None` when it is not a RecordId (null or an
      object of another class). The other record's page id is compared with
      its own `equals`, then the tuple numbers. */
  function Equals(rid: RecordId, o: Option<RecordId>): (b: bool)
    ensures b <==> o.Some? && o.value.pageId == rid.pageId && o.value.tupleNumber == rid.tupleNumber
    ensures b <==> o == Some(rid)
  {
    match o
    case None => false
    case Some(other) => GetPageId(other) == rid.pageId && other.tupleNumber == rid.tupleNumber
  }

  /** `hashCode()`: `Arrays.hashCode` of `[pageNumber, tableId, tupleNumber]`. */
  function HashCode(rid: RecordId): (h: Int32)
    ensures h == Wrap(31 * (31 * (31 * 1 + rid.pageId.pageNumber) + rid.pageId.tableId) + rid.tupleNumber)
  {
    ArraysHashCodeOfThree(rid.pageId.pageNumber, rid.pageId.tableId, rid.tupleNumber);
    ArraysHashCode([rid.pageId.pageNumber, rid.pageId.tableId, rid.tupleNumber])
  }

  lemma EqualsReflexive(rid: RecordId)
    ensures Equals(rid, Some(rid))
  {
  }

  lemma EqualsSymmetric(a: RecordId, b: RecordId)
    ensures Equals(a, Some(b)) == Equals(b, Some(a))
  {
  }

  /** Equal records hash alike, so a RecordId can key a hash map. */
  lemma EqualsImpliesSameHash(a: RecordId, b: RecordId)
    requires Equals(a, Some(b))
    ensures HashCode(a) == HashCode(b)
  {
  }
}
