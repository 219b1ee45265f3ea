/** The schema descriptor of a table (TupleDesc.java): an ordered, immutable
    list of (field type, field name or null) items. */
module Schema {
  import opened Java

  /** A positive byte length. */
  type Length = n: int | 0 < n witness 1

  /** A field type. The type enumeration itself is not part of this model: a
      type is an opaque constant, identified by its ordinal, with the fixed
      positive byte length `getLen()` reports for it. */
  datatype FieldType = FieldType(ordinal: nat, len: Length)

  /** One field: its type and its (possibly null) name. */
  datatype TDItem = TDItem(fieldType: FieldType, name: Option<string>)

  datatype TupleDesc = TupleDesc(items: seq<TDItem>)

  /** The sum of the byte lengths of the field types of `items`. */
  function SizeOf(items: seq<TDItem>): int
  {
    if items == [] then 0 else SizeOf(items[..|items| - 1]) + items[|items| - 1].fieldType.len
  }

  /** Field `i` carries the name `name`. A null name never matches, and a
      null argument matches nothing. */
  predicate NameMatches(item: TDItem, name: Option<string>)
  {
    item.name.Some? && item.name == name
  }

  /** `a` and `b` have the same number of fields and agree, position by
      position, on type and on name, where a null name equals only a null
      name. */
  ghost predicate SameFields(a: TupleDesc, b: TupleDesc)
  {
    && |a.items| == |b.items|
    && (forall i :: 0 <= i < |a.items| ==> a.items[i].fieldType == b.items[i].fieldType)
    && (forall i :: 0 <= i < |a.items| ==> a.items[i].name == b.items[i].name)
  }

  /** `new TupleDesc(typeAr, fieldAr)`: throws IllegalArgumentException when
      the arrays differ in length; otherwise field `i` is
      `(typeAr[i], fieldAr[i])`. */
  method Create(typeAr: seq<FieldType>, fieldAr: seq<Option<string>>) returns (r: Result<TupleDesc>)
    ensures r.Err? <==> |typeAr| != |fieldAr|
    ensures r.Err? ==> r.error == IllegalArgument
    ensures r.Ok? ==> |r.value.items| == |typeAr|
    ensures r.Ok? ==> forall i :: 0 <= i < |typeAr| ==> r.value.items[i] == TDItem(typeAr[i], fieldAr[i])
  {
    if |typeAr| != |fieldAr| {
      return Err(IllegalArgument);
    }
    var list: seq<TDItem> := [];
    var i := 0;
    while i < |typeAr|
      invariant 0 <= i <= |typeAr|
      invariant |list| == i
      invariant forall k :: 0 <= k < i ==> list[k] == TDItem(typeAr[k], fieldAr[k])
    {
      list := list + [TDItem(typeAr[i], fieldAr[i])];
      i := i + 1;
    }
    r := Ok(TupleDesc(list));
  }

  /** `new TupleDesc(typeAr)`: one anonymous field per type, in order. */
  method CreateAnonymous(typeAr: seq<FieldType>) returns (td: TupleDesc)
    ensures NumFields(td) == |typeAr|
    ensures forall i :: 0 <= i < |typeAr| ==> td.items[i] == TDItem(typeAr[i], None)
  {
    var list: seq<TDItem> := [];
    for i := 0 to |typeAr|
      invariant |list| == i
      invariant forall k :: 0 <= k < i ==> list[k] == TDItem(typeAr[k], None)
    {
      list := list + [TDItem(typeAr[i], None)];
    }
    td := TupleDesc(list);
  }

  /** `numFields()`: the number of (type, name) items. */
  function NumFields(td: TupleDesc): (n: nat)
    ensures n == |td.items|
  {
    |td.items|
  }

  /** `getFieldName(i)`: NoSuchElementException past the last field. Negative
      indexes are not checked by the source and are excluded here. */
  function GetFieldName(td: TupleDesc, i: int): (r: Result<Option<string>>)
    requires 0 <= i
    ensures r.Err? <==> i >= NumFields(td)
    ensures r.Err? ==> r.error == NoSuchElement
    ensures r.Ok? ==> r.value == td.items[i].name
  {
    if i > NumFields(td) - 1 then Err(NoSuchElement) else Ok(td.items[i].name)
  }

  /** `getFieldType(i)`: NoSuchElementException past the last field. */
  function GetFieldType(td: TupleDesc, i: int): (r: Result<FieldType>)
    requires 0 <= i
    ensures r.Err? <==> i >= NumFields(td)
    ensures r.Err? ==> r.error == NoSuchElement
    ensures r.Ok? ==> r.value == td.items[i].fieldType
  {
    if i > NumFields(td) - 1 then Err(NoSuchElement) else Ok(td.items[i].fieldType)
  }

  /** `fieldNameToIndex(name)`: the first field whose non-null name equals
      `name`; NoSuchElementException when there is none. */
  method FieldNameToIndex(td: TupleDesc, name: Option<string>) returns (r: Result<nat>)
    ensures r.Ok? ==> r.value < NumFields(td) && NameMatches(td.items[r.value], name)
    ensures r.Ok? ==> forall j :: 0 <= j < r.value ==> !NameMatches(td.items[j], name)
    ensures r.Err? <==> forall j :: 0 <= j < NumFields(td) ==> !NameMatches(td.items[j], name)
    ensures r.Err? ==> r.error == NoSuchElement
  {
    var i := 0;
    while i < |td.items|
      invariant 0 <= i <= |td.items|
      invariant forall j :: 0 <= j < i ==> !NameMatches(td.items[j], name)
    {
      var fieldName := td.items[i].name;
      if fieldName.Some? && Some(fieldName.value) == name {
        return Ok(i);
      }
      i := i + 1;
    }
    r := Err(NoSuchElement);
  }

  /** `getSize()`: the byte size of one tuple of this schema. */
  method GetSize(td: TupleDesc) returns (size: int)
    ensures size == SizeOf(td.items)
    ensures size >= NumFields(td)
  {
    size := 0;
    for i := 0 to |td.items|
      invariant size == SizeOf(td.items[..i])
    {
      assert td.items[..i + 1][..i] == td.items[..i];
      size := size + td.items[i].fieldType.len;
    }
    assert td.items[..|td.items|] == td.items;
    SizeAtLeastFieldCount(td.items);
  }

  /** Every field occupies at least one byte. */
  lemma {:induction false} SizeAtLeastFieldCount(items: seq<TDItem>)
    ensures SizeOf(items) >= |items|
  {
    if items != [] {
      SizeAtLeastFieldCount(items[..|items| - 1]);
    }
  }

  /** The size of a concatenation is the sum of the sizes. */
  lemma {:induction false} SizeOfConcat(a: seq<TDItem>, b: seq<TDItem>)
    ensures SizeOf(a + b) == SizeOf(a) + SizeOf(b)
  {
    if b == [] {
      assert a + b == a;
    } else {
      var b' := b[..|b| - 1];
      assert (a + b)[..|a + b| - 1] == a + b';
      SizeOfConcat(a, b');
    }
  }

  /** `merge(td1, td2)`: a new descriptor holding td1's fields followed by
      td2's. The inputs are values and so are left unchanged. */
  method Merge(td1: TupleDesc, td2: TupleDesc) returns (td: TupleDesc)
    ensures NumFields(td) == NumFields(td1) + NumFields(td2)
    ensures forall i :: 0 <= i < NumFields(td1) ==> td.items[i] == td1.items[i]
    ensures forall i :: 0 <= i < NumFields(td2) ==> td.items[NumFields(td1) + i] == td2.items[i]
    ensures SizeOf(td.items) == SizeOf(td1.items) + SizeOf(td2.items)
  {
    var len := NumFields(td1) + NumFields(td2);
    var typeAr := new FieldType[len];
    var fieldAr := new Option<string>[len];
    var index := 0;
    for k := 0 to |td1.items|
      invariant index == k
      invariant forall j :: 0 <= j < index ==> typeAr[j] == td1.items[j].fieldType && fieldAr[j] == td1.items[j].name
    {
      var item := td1.items[k];
      typeAr[index] := item.fieldType;
      fieldAr[index] := item.name;
      index := index + 1;
    }
    for k := 0 to |td2.items|
      invariant index == |td1.items| + k
      invariant forall j :: 0 <= j < |td1.items| ==> typeAr[j] == td1.items[j].fieldType && fieldAr[j] == td1.items[j].name
      invariant forall j :: 0 <= j < k ==> typeAr[|td1.items| + j] == td2.items[j].fieldType && fieldAr[|td1.items| + j] == td2.items[j].name
    {
      var item := td2.items[k];
      typeAr[index] := item.fieldType;
      fieldAr[index] := item.name;
      index := index + 1;
    }
    var r := Create(typeAr[..], fieldAr[..]);
    td := r.value;
    MergedSize(td1, td2, td);
  }

  /** What `Merge` guarantees pins the result down: it is the concatenation
      of the two field lists, so its size is the sum of the two sizes. */
  lemma MergedSize(td1: TupleDesc, td2: TupleDesc, td: TupleDesc)
    requires NumFields(td) == NumFields(td1) + NumFields(td2)
    requires forall i :: 0 <= i < NumFields(td1) ==> td.items[i] == td1.items[i]
    requires forall i :: 0 <= i < NumFields(td2) ==> td.items[NumFields(td1) + i] == td2.items[i]
    ensures td.items == td1.items + td2.items
    ensures SizeOf(td.items) == SizeOf(td1.items) + SizeOf(td2.items)
  {
    assert td.items == td1.items + td2.items;
    SizeOfConcat(td1.items, td2.items);
  }

  /** The accessors on a merged descriptor: positions before `NumFields(td1)`
      answer as td1 does, the rest as td2 does at the shifted position. */
  lemma MergedAccessors(td1: TupleDesc, td2: TupleDesc, i: nat)
    ensures var td := TupleDesc(td1.items + td2.items);
      && GetFieldName(td, i) == (if i < NumFields(td1) then GetFieldName(td1, i) else GetFieldName(td2, i - NumFields(td1)))
      && GetFieldType(td, i) == (if i < NumFields(td1) then GetFieldType(td1, i) else GetFieldType(td2, i - NumFields(td1)))
  {
  }

  /** `equals(Object o)`; `o` is `None` when it is not a TupleDesc. Types
      are compared first, then names, with null equal only to null. */
  method Equals(td: TupleDesc, o: Option<TupleDesc>) returns (b: bool)
    ensures b <==> o.Some? && SameFields(td, o.value)
  {
    if o.None? || NumFields(o.value) != NumFields(td) {
      return false;
    }
    var other := o.value;
    var index := 0;
    while index < |other.items|
      invariant 0 <= index <= |other.items|
      invariant forall i :: 0 <= i < index ==> other.items[i].fieldType == td.items[i].fieldType
      invariant forall i :: 0 <= i < index ==> other.items[i].name == td.items[i].name
    {
      var item := other.items[index];
      if item.fieldType != GetFieldType(td, index).value {
        return false;
      }
      var name := GetFieldName(td, index).value;
      if name.None? {
        if item.name.Some? {
          return false;
        }
      } else {
        if item.name.None? {
          return false;
        }
        if item.name.value != name.value {
          return false;
        }
      }
      index := index + 1;
    }
    return true;
  }

  /** Field-by-field equality is exactly equality of descriptor values. */
  lemma SameFieldsIsEquality(a: TupleDesc, b: TupleDesc)
    ensures SameFields(a, b) <==> a == b
  {
    if SameFields(a, b) {
      assert forall i :: 0 <= i < |a.items| ==> a.items[i] == b.items[i];
      assert a.items == b.items;
    }
  }

  lemma EqualsReflexive(td: TupleDesc)
    ensures SameFields(td, td)
  {
  }

  lemma EqualsSymmetric(a: TupleDesc, b: TupleDesc)
    ensures SameFields(a, b) <==> SameFields(b, a)
  {
  }
}
