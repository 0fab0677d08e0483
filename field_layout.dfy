/**
 * A type's native field layout: one entry per field with its byte offset,
 * kept in ascending offset order.
 */
module FieldLayout {
  import opened Types

  /**
   * One entry of a type's layout list. `declaringType` is the handle of
   * the managed type and `definition` the field's position in it.
   */
  datatype FieldInType = FieldInType(
    name: string,
    fieldType: TypeRef,
    offset: u64,
    isStatic: bool,
    constant: Option<Literal>,
    declaringType: nat,
    definition: nat)

  const TwoTo64: int := 0x1_0000_0000_0000_0000

  /** The C# conversion `(ulong)` of an `int`: negative values wrap around. */
  function ToULong(x: i32): (r: u64)
  {
    if x >= 0 then x as int as u64 else (x as int + TwoTo64) as u64
  }

  /** The conversion back: the `int` that a widened offset came from. */
  function FromULong(u: u64): int
  {
    if u as int < 0x8000_0000 then u as int else u as int - TwoTo64
  }

  /** Widening loses nothing: every offset can be recovered from its entry. */
  lemma ToULongRoundTrip(x: i32)
    ensures FromULong(ToULong(x)) == x as int
    ensures x >= 0 ==> ToULong(x) as int == x as int
    ensures x < 0 ==> ToULong(x) as int >= TwoTo64 - 0x8000_0000
  {
  }

  /** Widening keeps the order of non-negative offsets and puts every negative one after them. */
  lemma ToULongOrder(x: i32, y: i32)
    ensures 0 <= x < y ==> ToULong(x) < ToULong(y)
    ensures 0 <= x && y < 0 ==> ToULong(x) < ToULong(y)
    ensures x < y < 0 ==> ToULong(x) < ToULong(y)
  {
  }

  /**
   * The layout entry for a field. The one correction: the character field
   * of `System.String` is laid out as a `char[]`, since the characters
   * follow the length directly in memory.
   */
  function GetFieldInType(fieldType: TypeRef, fieldOffset: i32, fieldName: string, declaringTypeName: string,
                          declaringType: nat, definition: nat, isStatic: bool, constant: Option<Literal>): (f: FieldInType)
  {
    var layoutType := if declaringTypeName == StringName && FullName(fieldType) == CharName then ArrayOf(fieldType) else fieldType;
    FieldInType(fieldName, layoutType, ToULong(fieldOffset), isStatic, constant, declaringType, definition)
  }

  /**
   * The layout type differs from the field's own type exactly for a
   * `System.Char` field of `System.String`, where it is `System.Char[]`;
   * every other part of the entry comes from the field unchanged.
   */
  lemma StringCharCorrection(fieldType: TypeRef, fieldOffset: i32, fieldName: string, declaringTypeName: string,
                             declaringType: nat, definition: nat, isStatic: bool, constant: Option<Literal>)
    ensures var f := GetFieldInType(fieldType, fieldOffset, fieldName, declaringTypeName, declaringType, definition, isStatic, constant);
            && (f.fieldType != fieldType <==> declaringTypeName == StringName && FullName(fieldType) == CharName)
            && (f.fieldType != fieldType ==> FullName(f.fieldType) == CharName + "[]")
            && FromULong(f.offset) == fieldOffset as int
            && f.name == fieldName && f.isStatic == isStatic && f.constant == constant
            && f.declaringType == declaringType && f.definition == definition
  {
    ToULongRoundTrip(fieldOffset);
  }

  /** Each entry's offset is at most the next one's. */
  predicate SortedByOffset(xs: seq<FieldInType>)
  {
    forall i | 0 < i < |xs| :: xs[i - 1].offset <= xs[i].offset
  }

  /** A sorted list is in order between any two positions, not only neighbouring ones. */
  lemma {:induction false} SortedAllPairs(xs: seq<FieldInType>, i: nat, j: nat)
    requires SortedByOffset(xs) && i <= j < |xs|
    ensures xs[i].offset <= xs[j].offset
    decreases j - i
  {
    if i < j {
      SortedAllPairs(xs, i, j - 1);
    }
  }

  /** Inserts an entry into an offset-sorted list, before the first larger offset. */
  function Insert(x: FieldInType, xs: seq<FieldInType>): (r: seq<FieldInType>)
    requires SortedByOffset(xs)
    ensures SortedByOffset(r)
    ensures |r| == |xs| + 1
    ensures r[0] == x || (xs != [] && r[0] == xs[0])
  {
    if xs == [] then [x]
    else if x.offset <= xs[0].offset then [x] + xs
    else
      var rest := Insert(x, xs[1..]);
      assert xs[0].offset <= rest[0].offset by {
        if rest[0] != x { assert rest[0] == xs[1]; }
      }
      [xs[0]] + rest
  }

  /** Insertion adds the entry and keeps every other one. */
  lemma {:induction false} InsertPermutes(x: FieldInType, xs: seq<FieldInType>)
    requires SortedByOffset(xs)
    ensures multiset(Insert(x, xs)) == multiset(xs) + multiset{x}
  {
    if xs != [] && x.offset > xs[0].offset {
      InsertPermutes(x, xs[1..]);
      assert xs == [xs[0]] + xs[1..];
    }
  }

  /**
   * `List.Sort` by offset. The library sort is unstable, so entries sharing
   * an offset may come out in any order; this is one of the orders it may
   * produce.
   */
  function SortByOffset(xs: seq<FieldInType>): (r: seq<FieldInType>)
    ensures SortedByOffset(r)
    ensures |r| == |xs|
  {
    if xs == [] then [] else Insert(xs[0], SortByOffset(xs[1..]))
  }

  /** The sorted list holds exactly the entries given. */
  lemma {:induction false} SortPermutes(xs: seq<FieldInType>)
    ensures multiset(SortByOffset(xs)) == multiset(xs)
  {
    if xs != [] {
      SortPermutes(xs[1..]);
      InsertPermutes(xs[0], SortByOffset(xs[1..]));
      assert xs == [xs[0]] + xs[1..];
    }
  }

  /** Sorting an already sorted list with distinct offsets changes nothing. */
  lemma {:induction false} SortSortedDistinct(xs: seq<FieldInType>)
    requires forall i, j | 0 <= i < j < |xs| :: xs[i].offset < xs[j].offset
    ensures SortByOffset(xs) == xs
  {
    if xs != [] {
      SortSortedDistinct(xs[1..]);
      assert SortByOffset(xs[1..]) == xs[1..];
    }
  }

  /**
   * Fields at native offsets 8, 0 and 16 come out in the order 0, 8, 16.
   */
  lemma LayoutExample(a: FieldInType, b: FieldInType, c: FieldInType)
    requires a.offset == 8 && b.offset == 0 && c.offset == 16
    ensures SortByOffset([a, b, c]) == [b, a, c]
  {
    assert [a, b, c][1..] == [b, c] && [b, c][1..] == [c] && [c][1..] == [];
    assert SortByOffset([c]) == Insert(c, []) == [c];
    assert SortByOffset([b, c]) == Insert(b, [c]) == [b, c];
    assert Insert(a, [c]) == [a, c];
    assert [b, c][1..] == [c];
    assert Insert(a, [b, c]) == [b] + Insert(a, [c]);
  }
}
