/**
 * Shared vocabulary of the model: optional values, fixed-width integers,
 * managed type references and the few string and list operations the
 * reconstruction code relies on.
 */
module Types {

  datatype Option<+T> = None | Some(value: T)

  datatype Result<+T, +E> = Ok(value: T) | Err(error: E)

  /** C# `int`. */
  newtype i32 = x: int | -0x8000_0000 <= x < 0x8000_0000

  /** C# `ushort`. */
  newtype u16 = x: int | 0 <= x < 0x1_0000

  /** C# `ulong`. */
  newtype u64 = x: int | 0 <= x < 0x1_0000_0000_0000_0000

  const UShortMaxValue: u16 := 0xFFFF

  /** A constant value carried by a field or a parameter, in its rendered form. */
  datatype Literal = Literal(repr: string)

  /**
   * A managed type reference as the reconstruction sees it: a named type
   * (possibly a generic instance, when it has generic arguments), an array
   * type or a by-reference type.
   */
  datatype TypeRef =
    | Named(ns: string, name: string, valueType: bool, primitive: bool, genericArgs: seq<TypeRef>)
    | ArrayOf(element: TypeRef)
    | ByRef(element: TypeRef)
  {
    /** Array and by-reference types are never value types nor primitive. */
    predicate IsValueType() { Named? && valueType }
    predicate IsPrimitive() { Named? && primitive }
    /** A generic instance type with at least one argument. */
    predicate HasGenericArguments() { Named? && |genericArgs| > 0 }
  }

  /** The full name the way the metadata library renders it. */
  function FullName(t: TypeRef): string
    decreases t
  {
    match t
    case Named(ns, name, _, _, args) =>
      (if ns == "" then name else ns + "." + name)
      + (if args == [] then "" else "<" + JoinNames(seq(|args|, i requires 0 <= i < |args| => FullName(args[i]))) + ">")
    case ArrayOf(e) => FullName(e) + "[]"
    case ByRef(e) => FullName(e) + "&"
  }

  function JoinNames(names: seq<string>): string
  {
    if |names| == 0 then ""
    else if |names| == 1 then names[0]
    else names[0] + "," + JoinNames(names[1..])
  }

  /** `System.Void`, the return type of a method that returns nothing. */
  const VoidType := Named("System", "Void", true, false, [])
  const VoidName := FullName(VoidType)
  const BooleanName := "System.Boolean"
  const StringName := "System.String"
  const CharName := "System.Char"
  const MulticastDelegateName := "System.MulticastDelegate"

  // ---------------------------------------------------------------------
  // Strings (ordinal comparison)

  predicate StartsWith(s: string, prefix: string)
  {
    |prefix| <= |s| && s[..|prefix|] == prefix
  }

  /** `s.LastIndexOf(c)`: the last position holding `c`, or -1. */
  function LastIndexOf(s: string, c: char): (r: int)
    ensures -1 <= r < |s|
    ensures r >= 0 ==> s[r] == c
    ensures forall k | r < k < |s| :: s[k] != c
  {
    if |s| == 0 then -1
    else if s[|s| - 1] == c then |s| - 1
    else LastIndexOf(s[..|s| - 1], c)
  }

  /** `s[(s.LastIndexOf(c) + 1)..]`: what follows the last `c`, or all of `s`. */
  function AfterLast(s: string, c: char): (r: string)
    ensures c !in r
    ensures |r| <= |s| && r == s[|s| - |r|..]
  {
    s[LastIndexOf(s, c) + 1..]
  }

  // ---------------------------------------------------------------------
  // Lists without duplicates

  predicate NoDup<T(==)>(xs: seq<T>)
  {
    forall i, j | 0 <= i < j < |xs| :: xs[i] != xs[j]
  }

  /** `if (!list.Contains(x)) list.Add(x)` */
  function AppendIfAbsent<T(==)>(xs: seq<T>, x: T): (r: seq<T>)
    ensures x in r
    ensures |xs| <= |r| <= |xs| + 1 && r[..|xs|] == xs
    ensures NoDup(xs) ==> NoDup(r)
  {
    if x in xs then xs else xs + [x]
  }

  /** The reversal of a list, as `List.Reverse` leaves it. */
  function Reversed<T>(xs: seq<T>): (r: seq<T>)
    ensures |r| == |xs|
    ensures forall i | 0 <= i < |xs| :: r[i] == xs[|xs| - 1 - i]
  {
    seq(|xs|, i requires 0 <= i < |xs| => xs[|xs| - 1 - i])
  }

  lemma ReversedAppend<T>(xs: seq<T>, x: T)
    ensures Reversed(xs + [x]) == [x] + Reversed(xs)
  {
  }

  lemma ReversedConcat<T>(xs: seq<T>, ys: seq<T>)
    ensures Reversed(xs + ys) == Reversed(ys) + Reversed(xs)
  {
  }

  function Sum(xs: seq<nat>): nat
  {
    if xs == [] then 0 else Sum(xs[..|xs| - 1]) + xs[|xs| - 1]
  }
}
