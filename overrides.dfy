/**
 * The explicit-override fixup of `AssemblyPopulator`: the fixed name rules
 * for compiler-generated iterator and async types, and the general pass
 * that reads the base type and member out of a qualified method name and
 * looks them up by name. Everything here is a function of the method and
 * of the name-based lookups; the fixup itself, which appends the edges to
 * the methods, is in `AssemblyPopulator`.
 */
module Overrides {
  import opened Types
  import opened Metadata

  // ---------------------------------------------------------------------
  // The name-based services the fixup calls but that are not part of this model

  /** What a lookup of a type by its name returns. */
  datatype TypeLookup =
    | NotFound
    | Found(typeRef: TypeRef, methods: seq<MethodInfo>, genericParamNames: seq<string>, isArray: bool)

  datatype Resolver = Resolver(
    /** Looks a type definition up by its full name, splitting off generic argument names and an array marker. */
    lookupTypeByName: string -> TypeLookup,
    /** Resolves a name as a generic parameter of a base type, in the scope of the type being fixed; `None` for null. */
    resolveGenericParameter: (string, TypeRef, nat) -> Option<TypeRef>,
    /** The methods of the definition a reference resolves to, or `None` when it does not resolve. */
    methodsOf: TypeRef -> Option<seq<MethodInfo>>)

  // ---------------------------------------------------------------------
  // Type reference names as the metadata library reports them

  function Namespace(t: TypeRef): string
  {
    match t
    case Named(ns, _, _, _, _) => ns
    case ArrayOf(e) => Namespace(e)
    case ByRef(e) => Namespace(e)
  }

  function SimpleName(t: TypeRef): string
  {
    match t
    case Named(_, name, _, _, _) => name
    case ArrayOf(e) => SimpleName(e) + "[]"
    case ByRef(e) => SimpleName(e) + "&"
  }

  const GenericCollectionsNamespace := "System.Collections.Generic"
  const GenericEnumeratorName := "IEnumerator`1"
  const GenericEnumerableName := "IEnumerable`1"
  const EnumeratorFullName := "System.Collections.IEnumerator"
  const EnumerableFullName := "System.Collections.IEnumerable"
  const DisposableFullName := "System.IDisposable"
  const AsyncStateMachineFullName := "System.Runtime.CompilerServices.IAsyncStateMachine"

  // ---------------------------------------------------------------------
  // Interface classification of a compiler-generated type

  /** The interfaces of a compiler-generated type the name rules look at. */
  datatype Interfaces = Interfaces(
    enumeratorGeneric: Option<TypeRef>, enumerableGeneric: Option<TypeRef>,
    enumerator: Option<TypeRef>, enumerable: Option<TypeRef>, disposable: Option<TypeRef>)

  const NoInterfaces := Interfaces(None, None, None, None, None)

  /**
   * One interface of the classification loop. In the generic collections
   * namespace only the simple name counts, and the interface must then be
   * a generic instance (the cast otherwise throws); elsewhere the full name
   * counts. A later interface of the same kind replaces an earlier one.
   */
  function Classify(c: Interfaces, i: TypeRef): Result<Interfaces, Error>
  {
    if Namespace(i) == GenericCollectionsNamespace then
      if SimpleName(i) == GenericEnumeratorName then
        if i.HasGenericArguments() then Ok(c.(enumeratorGeneric := Some(i))) else Err(NotGenericInstance(FullName(i)))
      else if SimpleName(i) == GenericEnumerableName then
        if i.HasGenericArguments() then Ok(c.(enumerableGeneric := Some(i))) else Err(NotGenericInstance(FullName(i)))
      else Ok(c)
    else if FullName(i) == EnumeratorFullName then Ok(c.(enumerator := Some(i)))
    else if FullName(i) == EnumerableFullName then Ok(c.(enumerable := Some(i)))
    else if FullName(i) == DisposableFullName then Ok(c.(disposable := Some(i)))
    else Ok(c)
  }

  /** The classification of the first `n` interfaces, stopping at the first that throws. */
  function ClassifyAll(ifaces: seq<TypeRef>, n: nat): Result<Interfaces, Error>
    requires n <= |ifaces|
  {
    if n == 0 then Ok(NoInterfaces)
    else
      match ClassifyAll(ifaces, n - 1)
      case Err(e) => Err(e)
      case Ok(c) => Classify(c, ifaces[n - 1])
  }

  predicate IsGenericEnumerator(i: TypeRef)
  {
    Namespace(i) == GenericCollectionsNamespace && SimpleName(i) == GenericEnumeratorName
  }

  predicate IsGenericEnumerable(i: TypeRef)
  {
    Namespace(i) == GenericCollectionsNamespace && SimpleName(i) == GenericEnumerableName
  }

  predicate IsEnumerator(i: TypeRef)
  {
    Namespace(i) != GenericCollectionsNamespace && FullName(i) == EnumeratorFullName
  }

  predicate IsEnumerable(i: TypeRef)
  {
    Namespace(i) != GenericCollectionsNamespace && FullName(i) == EnumerableFullName
  }

  predicate IsDisposable(i: TypeRef)
  {
    Namespace(i) != GenericCollectionsNamespace && FullName(i) == DisposableFullName
  }

  /** An interface the cast to a generic instance fails on. */
  predicate CastFails(i: TypeRef)
  {
    (IsGenericEnumerator(i) || IsGenericEnumerable(i)) && !i.HasGenericArguments()
  }

  /** The last of the first `n` interfaces that satisfies `p`. */
  function LastWhere(ifaces: seq<TypeRef>, n: nat, p: TypeRef -> bool): (r: Option<TypeRef>)
    requires n <= |ifaces|
    ensures r.None? <==> forall k | 0 <= k < n :: !p(ifaces[k])
    ensures r.Some? ==> exists k | 0 <= k < n :: r.value == ifaces[k] && p(ifaces[k]) && forall j | k < j < n :: !p(ifaces[j])
  {
    if n == 0 then None
    else if p(ifaces[n - 1]) then Some(ifaces[n - 1])
    else LastWhere(ifaces, n - 1, p)
  }

  /** The first of the first `n` interfaces that satisfies `p`. */
  function FirstWhere(ifaces: seq<TypeRef>, n: nat, p: TypeRef -> bool): (r: Option<TypeRef>)
    requires n <= |ifaces|
    ensures r.None? <==> forall k | 0 <= k < n :: !p(ifaces[k])
    ensures r.Some? ==> exists k | 0 <= k < n :: r.value == ifaces[k] && p(ifaces[k]) && forall j | 0 <= j < k :: !p(ifaces[j])
  {
    if n == 0 then None
    else
      match FirstWhere(ifaces, n - 1, p)
      case Some(i) => Some(i)
      case None => if p(ifaces[n - 1]) then Some(ifaces[n - 1]) else None
  }

  /** One interface: the cast fails exactly on an open generic enumerator or enumerable, and each kind is recorded when met. */
  lemma ClassifyStep(c: Interfaces, i: TypeRef)
    ensures Classify(c, i).Err? <==> CastFails(i)
    ensures Classify(c, i).Err? ==> Classify(c, i).error == NotGenericInstance(FullName(i))
    ensures Classify(c, i).Ok? ==>
              Classify(c, i).value == Interfaces(
                if IsGenericEnumerator(i) then Some(i) else c.enumeratorGeneric,
                if IsGenericEnumerable(i) then Some(i) else c.enumerableGeneric,
                if IsEnumerator(i) then Some(i) else c.enumerator,
                if IsEnumerable(i) then Some(i) else c.enumerable,
                if IsDisposable(i) then Some(i) else c.disposable)
  {
  }

  /** The classification fails exactly when some interface fails the cast, and then on the first such. */
  lemma {:induction false} ClassifyAllFails(ifaces: seq<TypeRef>, n: nat)
    requires n <= |ifaces|
    ensures ClassifyAll(ifaces, n).Err? <==> FirstWhere(ifaces, n, CastFails).Some?
    ensures ClassifyAll(ifaces, n).Err? ==>
              ClassifyAll(ifaces, n).error == NotGenericInstance(FullName(FirstWhere(ifaces, n, CastFails).value))
  {
    if n > 0 {
      ClassifyAllFails(ifaces, n - 1);
      var prior := ClassifyAll(ifaces, n - 1);
      if prior.Ok? {
        var i := ifaces[n - 1];
        ClassifyStep(prior.value, i);
        assert ClassifyAll(ifaces, n) == Classify(prior.value, i);
        assert FirstWhere(ifaces, n, CastFails) == if CastFails(i) then Some(i) else None;
      } else {
        assert ClassifyAll(ifaces, n) == prior;
        assert FirstWhere(ifaces, n, CastFails) == FirstWhere(ifaces, n - 1, CastFails);
      }
    }
  }

  /** When the classification succeeds, each kind of interface it finds is the last interface of that kind. */
  lemma {:induction false} ClassifyAllFinds(ifaces: seq<TypeRef>, n: nat)
    requires n <= |ifaces|
    ensures ClassifyAll(ifaces, n).Ok? ==>
              ClassifyAll(ifaces, n).value == Interfaces(
                LastWhere(ifaces, n, IsGenericEnumerator), LastWhere(ifaces, n, IsGenericEnumerable),
                LastWhere(ifaces, n, IsEnumerator), LastWhere(ifaces, n, IsEnumerable), LastWhere(ifaces, n, IsDisposable))
  {
    if n > 0 {
      ClassifyAllFinds(ifaces, n - 1);
      var prior := ClassifyAll(ifaces, n - 1);
      if prior.Ok? {
        ClassifyStep(prior.value, ifaces[n - 1]);
        assert ClassifyAll(ifaces, n) == Classify(prior.value, ifaces[n - 1]);
      }
    }
  }

  // ---------------------------------------------------------------------
  // Method lookups on a base type

  /** Which base methods a lookup accepts. */
  datatype Criterion =
    | ByName(name: string)
    | ByArity(name: string, arity: nat)
    | BySignature(name: string, parameterTypeNames: seq<string>, returnTypeName: string)

  predicate Meets(m: MethodInfo, c: Criterion)
  {
    match c
    case ByName(name) => m.name == name
    case ByArity(name, arity) => m.name == name && |m.parameterTypeNames| == arity
    case BySignature(name, ps, rt) =>
      m.name == name && |m.parameterTypeNames| == |ps| && m.returnTypeName == rt && m.parameterTypeNames == ps
  }

  /** The positions of the methods the criterion accepts, in order. */
  function Candidates(ms: seq<MethodInfo>, c: Criterion): (ks: seq<nat>)
    ensures forall i | 0 <= i < |ks| :: ks[i] < |ms|
  {
    if ms == [] then []
    else Candidates(ms[..|ms| - 1], c) + (if Meets(ms[|ms| - 1], c) then [|ms| - 1] else [])
  }

  /** A position is a candidate exactly when the method there meets the criterion; candidates are in increasing order. */
  lemma {:induction false} CandidatesFacts(ms: seq<MethodInfo>, c: Criterion)
    ensures forall k: nat :: k in Candidates(ms, c) <==> k < |ms| && Meets(ms[k], c)
    ensures forall i, j | 0 <= i < j < |Candidates(ms, c)| :: Candidates(ms, c)[i] < Candidates(ms, c)[j]
  {
    if ms != [] {
      var init := ms[..|ms| - 1];
      CandidatesFacts(init, c);
      forall k: nat
        ensures k in Candidates(ms, c) <==> k < |ms| && Meets(ms[k], c)
      {
        if k < |init| {
          assert ms[k] == init[k];
        }
      }

    }
  }

  /** With no method meeting the criterion there is no candidate. */
  lemma {:induction false} CandidatesNone(ms: seq<MethodInfo>, c: Criterion)
    requires forall j | 0 <= j < |ms| :: !Meets(ms[j], c)
    ensures Candidates(ms, c) == []
  {
    if ms != [] {
      CandidatesNone(ms[..|ms| - 1], c);
    }
  }

  /** With exactly one method meeting the criterion, its position is the only candidate. */
  lemma {:induction false} CandidatesOnly(ms: seq<MethodInfo>, c: Criterion, k: nat)
    requires k < |ms| && Meets(ms[k], c) && forall j | 0 <= j < |ms| && j != k :: !Meets(ms[j], c)
    ensures Candidates(ms, c) == [k]
  {
    var init := ms[..|ms| - 1];
    if k == |ms| - 1 {
      CandidatesNone(init, c);
    } else {
      assert init[k] == ms[k];
      CandidatesOnly(init, c, k);
    }
  }

  /** `Single`: the one accepted method, or `None` when none or several are accepted. */
  function Single(ms: seq<MethodInfo>, c: Criterion): (r: Option<nat>)
  {
    var ks := Candidates(ms, c);
    if |ks| == 1 then Some(ks[0]) else None
  }

  /** `Single` finds a method exactly when one position, and no other, meets the criterion. */
  lemma SingleFacts(ms: seq<MethodInfo>, c: Criterion)
    ensures Single(ms, c).Some? ==> var k := Single(ms, c).value;
              k < |ms| && Meets(ms[k], c) && forall j | 0 <= j < |ms| && j != k :: !Meets(ms[j], c)
    ensures (exists k | 0 <= k < |ms| :: Meets(ms[k], c) && forall j | 0 <= j < |ms| && j != k :: !Meets(ms[j], c))
            ==> Single(ms, c).Some?
  {
    var ks := Candidates(ms, c);
    if |ks| == 1 {
      CandidatesFacts(ms, c);
      var k := ks[0];
      assert k in ks;
      forall j | 0 <= j < |ms| && j != k
        ensures !Meets(ms[j], c)
      {
        assert Meets(ms[j], c) ==> j in ks;
      }
    }
    if exists k | 0 <= k < |ms| :: Meets(ms[k], c) && forall j | 0 <= j < |ms| && j != k :: !Meets(ms[j], c) {
      var k :| 0 <= k < |ms| && Meets(ms[k], c) && forall j | 0 <= j < |ms| && j != k :: !Meets(ms[j], c);
      CandidatesOnly(ms, c, k);
    }
  }

  /** `FindMethod`: the first method with the name, if any. */
  function FindMethod(ms: seq<MethodInfo>, name: string): (r: Option<nat>)
    ensures r.Some? ==> r.value < |ms| && ms[r.value].name == name && forall j | 0 <= j < r.value :: ms[j].name != name
    ensures r.None? ==> forall j | 0 <= j < |ms| :: ms[j].name != name
  {
    if ms == [] then None
    else
      match FindMethod(ms[..|ms| - 1], name)
      case Some(k) => Some(k)
      case None => if ms[|ms| - 1].name == name then Some(|ms| - 1) else None
  }

  // ---------------------------------------------------------------------
  // The fixed name rules for compiler-generated types

  /** `AddOverride`: the base method of that name on the interface, which must resolve and have exactly one. */
  function OverrideOn(rs: Resolver, base: TypeRef, name: string, generic: bool): (r: Result<OverrideRef, Error>)
    ensures r.Ok? ==> r.value.declaringType == base && r.value.name == name
                      && r.value.typeArgs == (if generic && base.Named? then base.genericArgs else [])
  {
    match rs.methodsOf(base)
    case None => Err(UnresolvedType(FullName(base)))
    case Some(ms) =>
      match Single(ms, ByName(name))
      case None => Err(NoSingleMethod(FullName(base), name))
      case Some(k) => Ok(OverrideRef(base, k, name, if generic && base.Named? then base.genericArgs else []))
  }

  /**
   * The else-if chain of the iterator rules for one method name: the
   * enumerator rule first, then disposal, the non-generic enumerable, and
   * the generic enumerator and enumerable. `None` when no rule applies.
   */
  function EnumeratorRule(c: Interfaces, rs: Resolver, name: string): Result<Option<OverrideRef>, Error>
  {
    var r: Option<Result<OverrideRef, Error>> :=
      if c.enumerator.Some? && (StartsWith(name, "System.Collections.IEnumerator") || name == "MoveNext") then
        Some(OverrideOn(rs, c.enumerator.value, AfterLast(name, '.'), false))
      else if c.disposable.Some? && name == "System.IDisposable.Dispose" then
        Some(OverrideOn(rs, c.disposable.value, "Dispose", false))
      else if c.enumerable.Some? && name == "System.Collections.IEnumerable.GetEnumerator" then
        Some(OverrideOn(rs, c.enumerable.value, "GetEnumerator", false))
      else if c.enumeratorGeneric.Some? && StartsWith(name, "System.Collections.Generic.IEnumerator") then
        Some(OverrideOn(rs, c.enumeratorGeneric.value, AfterLast(name, '.'), true))
      else if c.enumerableGeneric.Some? && StartsWith(name, "System.Collections.Generic.IEnumerable") then
        Some(OverrideOn(rs, c.enumerableGeneric.value, AfterLast(name, '.'), true))
      else None;
    match r
    case None => Ok(None)
    case Some(Err(e)) => Err(e)
    case Some(Ok(o)) => Ok(Some(o))
  }

  /**
   * The enumerator rule wins whenever it applies, whatever other
   * interfaces are present: the edge goes to the enumerator interface's
   * method named by what follows the last `.`; and the rules never add more
   * than that one edge.
   */
  lemma EnumeratorRuleFirst(c: Interfaces, rs: Resolver, name: string)
    requires c.enumerator.Some? && (StartsWith(name, "System.Collections.IEnumerator") || name == "MoveNext")
    ensures EnumeratorRule(c, rs, name).Ok? && EnumeratorRule(c, rs, name).value.Some? ==>
              var o := EnumeratorRule(c, rs, name).value.value;
              o.declaringType == c.enumerator.value && o.name == AfterLast(name, '.') && o.typeArgs == []
    ensures EnumeratorRule(c, rs, name).Ok? ==> EnumeratorRule(c, rs, name).value.Some?
  {
  }

  /**
   * The generic rules instantiate the interface's method with the
   * interface's own generic arguments; the non-generic ones never
   * instantiate.
   */
  lemma EnumeratorRuleGeneric(c: Interfaces, rs: Resolver, name: string)
    requires EnumeratorRule(c, rs, name).Ok? && EnumeratorRule(c, rs, name).value.Some?
    ensures var o := EnumeratorRule(c, rs, name).value.value;
            || ((Some(o.declaringType) == c.enumerator || Some(o.declaringType) == c.disposable
                 || Some(o.declaringType) == c.enumerable) && o.typeArgs == [])
            || ((Some(o.declaringType) == c.enumeratorGeneric || Some(o.declaringType) == c.enumerableGeneric)
                && o.typeArgs == (if o.declaringType.Named? then o.declaringType.genericArgs else []))
  {
    var o := EnumeratorRule(c, rs, name).value.value;
    if c.enumerator.Some? && (StartsWith(name, "System.Collections.IEnumerator") || name == "MoveNext") {
      assert o.declaringType == c.enumerator.value;
    } else if c.disposable.Some? && name == "System.IDisposable.Dispose" {
      assert o.declaringType == c.disposable.value;
    } else if c.enumerable.Some? && name == "System.Collections.IEnumerable.GetEnumerator" {
      assert o.declaringType == c.enumerable.value;
    } else if c.enumeratorGeneric.Some? && StartsWith(name, "System.Collections.Generic.IEnumerator") {
      assert o.declaringType == c.enumeratorGeneric.value;
    } else {
      assert o.declaringType == c.enumerableGeneric.value;
    }
  }

  /** The async rule: a method named `MoveNext` or `SetStateMachine` overrides it on every async state machine interface, in order. */
  function AsyncRule(ifaces: seq<TypeRef>, rs: Resolver, name: string): Result<seq<OverrideRef>, Error>
  {
    if name != "MoveNext" && name != "SetStateMachine" then Ok([])
    else AsyncEdges(ifaces, rs, name)
  }

  function AsyncEdges(ifaces: seq<TypeRef>, rs: Resolver, name: string): Result<seq<OverrideRef>, Error>
  {
    if ifaces == [] then Ok([])
    else
      match AsyncEdges(ifaces[..|ifaces| - 1], rs, name)
      case Err(e) => Err(e)
      case Ok(es) =>
        var i := ifaces[|ifaces| - 1];
        if FullName(i) != AsyncStateMachineFullName then Ok(es)
        else
          match rs.methodsOf(i)
          case None => Err(UnresolvedType(FullName(i)))
          case Some(ms) =>
            match FindMethod(ms, name)
            case None => Err(MethodNotFound(FullName(i), name))
            case Some(k) => Ok(es + [OverrideRef(i, k, name, [])])
  }

  /**
   * When it succeeds, the async rule adds one edge per async state machine
   * interface, each to that interface's first method of the name.
   */
  lemma {:induction false} AsyncEdgesFacts(ifaces: seq<TypeRef>, rs: Resolver, name: string)
    ensures AsyncEdges(ifaces, rs, name).Ok? ==>
              var es := AsyncEdges(ifaces, rs, name).value;
              && |es| == |AsyncInterfaces(ifaces)|
              && forall k | 0 <= k < |es| :: es[k].declaringType == AsyncInterfaces(ifaces)[k] && es[k].name == name
                                             && es[k].typeArgs == []
  {
    if ifaces != [] {
      AsyncEdgesFacts(ifaces[..|ifaces| - 1], rs, name);
    }
  }

  /** The async state machine interfaces among `ifaces`, in order. */
  function AsyncInterfaces(ifaces: seq<TypeRef>): seq<TypeRef>
  {
    if ifaces == [] then []
    else AsyncInterfaces(ifaces[..|ifaces| - 1]) + (if FullName(ifaces[|ifaces| - 1]) == AsyncStateMachineFullName then [ifaces[|ifaces| - 1]] else [])
  }

  // ---------------------------------------------------------------------
  // The general pass

  /** Constructors, and compiler-generated or unqualified names, are skipped. */
  predicate Skipped(name: string)
  {
    '.' !in name || StartsWith(name, ".") || StartsWith(name, "<")
  }

  /** The split at the last `.`: the qualified base type and the member. */
  function SplitName(name: string): (r: (string, string))
    requires '.' in name
  {
    var i := LastIndexOf(name, '.');
    (name[..i], name[i + 1..])
  }

  /** The split puts the name back together, and the member holds no `.`. */
  lemma SplitNameRoundTrip(name: string)
    requires '.' in name
    ensures SplitName(name).0 + "." + SplitName(name).1 == name
    ensures '.' !in SplitName(name).1
    ensures |SplitName(name).0| < |name|
  {
    var i := LastIndexOf(name, '.');
    assert name == name[..i] + [name[i]] + name[i + 1..];
  }

  /** `ResolveGenericParameter`: a name, looked up as a type, with its own generic arguments and array marker. */
  function ResolveGenericParameter(rs: Resolver, base: TypeRef, t: nat, name: string): Option<TypeRef>
    decreases |name|, 1
  {
    match rs.lookupTypeByName(name)
    case NotFound => rs.resolveGenericParameter(name, base, t)
    case Found(typeRef, _, gps, isArray) =>
      var withGenerics :=
        if |gps| == 0 then Some(typeRef)
        else
          match ResolveAll(rs, base, t, gps, |name|)
          case None => None
          case Some(args) => Some(Instantiate(typeRef, args));
      match withGenerics
      case None => None
      case Some(w) => Some(if isArray then ArrayOf(w) else w)
  }

  /**
   * Each name resolved in turn; `None` as soon as one does not resolve.
   * The generic argument names a lookup splits off are parts of the name
   * looked up, so each is shorter than `bound`; one that is not does not
   * resolve.
   */
  function ResolveAll(rs: Resolver, base: TypeRef, t: nat, names: seq<string>, bound: nat): (r: Option<seq<TypeRef>>)
    ensures r.Some? ==> |r.value| == |names|
    decreases bound, 0, |names|
  {
    if names == [] then Some([])
    else
      match ResolveAll(rs, base, t, names[..|names| - 1], bound)
      case None => None
      case Some(prefix) =>
        var name := names[|names| - 1];
        if |name| >= bound then None
        else
          match ResolveGenericParameter(rs, base, t, name)
          case None => None
          case Some(a) => Some(prefix + [a])
  }

  /** `ResolveAll` succeeds exactly when every name resolves, and then lists their resolutions in order. */
  lemma {:induction false} ResolveAllFacts(rs: Resolver, base: TypeRef, t: nat, names: seq<string>, bound: nat)
    ensures ResolveAll(rs, base, t, names, bound).Some?
            <==> forall k | 0 <= k < |names| :: |names[k]| < bound && ResolveGenericParameter(rs, base, t, names[k]).Some?
    ensures ResolveAll(rs, base, t, names, bound).Some? ==>
              forall k | 0 <= k < |names| ::
                ResolveAll(rs, base, t, names, bound).value[k] == ResolveGenericParameter(rs, base, t, names[k]).value
  {
    if names != [] {
      var init := names[..|names| - 1];
      ResolveAllFacts(rs, base, t, init, bound);
      forall k | 0 <= k < |init|
        ensures init[k] == names[k]
      {
      }
    }
  }

  /** `MakeGenericInstanceType` on a definition found by name. */
  function Instantiate(t: TypeRef, args: seq<TypeRef>): TypeRef
  {
    match t
    case Named(ns, name, vt, prim, _) => Named(ns, name, vt, prim, args)
    case _ => t
  }

  function ParameterTypeNames(ps: seq<ParameterDef>): (names: seq<string>)
    ensures |names| == |ps|
  {
    if ps == [] then [] else ParameterTypeNames(ps[..|ps| - 1]) + [FullName(ps[|ps| - 1].parameterType)]
  }

  /**
   * The general pass for one method of the type at handle `t`: skip
   * constructors and unqualified or compiler-generated names, look the
   * base type up by name, and find the one base method; for a generic base
   * type, by name and arity only, and every generic parameter name must
   * resolve. `None` is a skip with a diagnostic.
   */
  function GeneralRule(rs: Resolver, t: nat, m: ManagedMethod): Option<OverrideRef>
  {
    if Skipped(m.name) then None
    else
      var (baseTypeName, member) := SplitName(m.name);
      match rs.lookupTypeByName(baseTypeName)
      case NotFound => None
      case Found(typeRef, infos, gps, _) =>
        if |gps| == 0 then
          match Single(infos, BySignature(member, ParameterTypeNames(m.parameters), FullName(m.returnType)))
          case None => None
          case Some(k) => Some(OverrideRef(typeRef, k, member, []))
        else
          match Single(infos, ByArity(member, |m.parameters|))
          case None => None
          case Some(k) =>
            match ResolveAll(rs, typeRef, t, gps, |baseTypeName|)
            case None => None
            case Some(args) => Some(OverrideRef(typeRef, k, member, args))
  }

  /**
   * The general pass adds an edge exactly when the name is not skipped, its
   * qualifier resolves, exactly one base method matches (the full signature
   * for a non-generic base, name and arity for a generic one), and for a
   * generic base every generic parameter name resolves. The edge is to that
   * method, under the member name after the last `.`, instantiated with the
   * resolved names in order.
   */
  lemma GeneralRuleFacts(rs: Resolver, t: nat, m: ManagedMethod)
    ensures GeneralRule(rs, t, m).Some? <==>
              && !Skipped(m.name)
              && var (baseTypeName, member) := SplitName(m.name);
                 var found := rs.lookupTypeByName(baseTypeName);
                 && found.Found?
                 && (if |found.genericParamNames| == 0
                     then Single(found.methods, BySignature(member, ParameterTypeNames(m.parameters), FullName(m.returnType))).Some?
                     else Single(found.methods, ByArity(member, |m.parameters|)).Some?
                          && forall k | 0 <= k < |found.genericParamNames| ::
                               |found.genericParamNames[k]| < |baseTypeName| && ResolveGenericParameter(rs, found.typeRef, t, found.genericParamNames[k]).Some?)
    ensures GeneralRule(rs, t, m).Some? ==>
              var o := GeneralRule(rs, t, m).value;
              var found := rs.lookupTypeByName(SplitName(m.name).0);
              && SplitName(m.name).0 + "." + o.name == m.name && '.' !in o.name
              && o.declaringType == found.typeRef && o.index < |found.methods| && found.methods[o.index].name == o.name
              && |o.typeArgs| == |found.genericParamNames|
              && (forall k | 0 <= k < |o.typeArgs| ::
                    o.typeArgs[k] == ResolveGenericParameter(rs, found.typeRef, t, found.genericParamNames[k]).value)
  {
    if !Skipped(m.name) {
      var (baseTypeName, member) := SplitName(m.name);
      SplitNameRoundTrip(m.name);
      var found := rs.lookupTypeByName(baseTypeName);
      if found.Found? {
        SingleFacts(found.methods, BySignature(member, ParameterTypeNames(m.parameters), FullName(m.returnType)));
        SingleFacts(found.methods, ByArity(member, |m.parameters|));
        if |found.genericParamNames| > 0 {
          ResolveAllFacts(rs, found.typeRef, t, found.genericParamNames, |baseTypeName|);
        }
      }
    }
  }

  // ---------------------------------------------------------------------
  // The fixup of one type

  /** One pass over the methods of a type: the iterator rules, or the async and general rules. */
  datatype Pass =
    | IteratorPass(c: Interfaces)
    | GeneralPass(generated: bool, interfaces: seq<TypeRef>)

  /** The edges one pass adds to a method, in order, or the exception that stops the fixup. */
  function EdgesFor(rs: Resolver, t: nat, p: Pass, m: ManagedMethod): Result<seq<OverrideRef>, Error>
  {
    match p
    case IteratorPass(c) =>
      (match EnumeratorRule(c, rs, m.name)
       case Err(e) => Err(e)
       case Ok(None) => Ok([])
       case Ok(Some(o)) => Ok([o]))
    case GeneralPass(generated, ifaces) =>
      var asyncEdges := if generated then AsyncRule(ifaces, rs, m.name) else Ok([]);
      match asyncEdges
      case Err(e) => Err(e)
      case Ok(a) => Ok(a + match GeneralRule(rs, t, m) case None => [] case Some(o) => [o])
  }

  /** A pass reads a method's name and signature, never the edges earlier passes gave it. */
  lemma EdgesForIgnoresOverrides(rs: Resolver, t: nat, p: Pass, m: ManagedMethod, os: seq<OverrideRef>)
    ensures EdgesFor(rs, t, p, m.(overrides := os)) == EdgesFor(rs, t, p, m)
  {
    var m' := m.(overrides := os);
    assert m'.name == m.name && m'.parameters == m.parameters && m'.returnType == m.returnType;
    if p.GeneralPass? && !Skipped(m.name) {
      assert ParameterTypeNames(m'.parameters) == ParameterTypeNames(m.parameters);
    }
  }

  /** The edges of one pass, as a function of the method alone. */
  function PassEdges(rs: Resolver, t: nat, p: Pass): ManagedMethod -> Result<seq<OverrideRef>, Error>
  {
    m => EdgesFor(rs, t, p, m)
  }

  /** The edges a pass computes do not depend on the edges a method already has. */
  ghost predicate IgnoresOverrides(edges: ManagedMethod -> Result<seq<OverrideRef>, Error>)
  {
    forall m: ManagedMethod, os: seq<OverrideRef> :: edges(m.(overrides := os)) == edges(m)
  }

  lemma PassEdgesIgnoresOverrides(rs: Resolver, t: nat, p: Pass)
    ensures IgnoresOverrides(PassEdges(rs, t, p))
  {
    forall m: ManagedMethod, os: seq<OverrideRef>
      ensures PassEdges(rs, t, p)(m.(overrides := os)) == PassEdges(rs, t, p)(m)
    {
      EdgesForIgnoresOverrides(rs, t, p, m, os);
    }
  }

  /**
   * A pass over the methods at handles `hs`, in order: each gets its edges
   * appended, and the first exception stops the pass with the methods
   * before it already updated.
   */
  function Apply(edges: ManagedMethod -> Result<seq<OverrideRef>, Error>, methods: seq<ManagedMethod>, hs: seq<nat>)
    : (r: (seq<ManagedMethod>, Option<Error>))
    requires forall k | 0 <= k < |hs| :: hs[k] < |methods|
    ensures |r.0| == |methods|
  {
    if hs == [] then (methods, None)
    else
      var prior := Apply(edges, methods, hs[..|hs| - 1]);
      if prior.1.Some? then prior
      else
        var ms := prior.0;
        var h := hs[|hs| - 1];
        match edges(ms[h])
        case Err(e) => (ms, Some(e))
        case Ok(es) => (ms[h := ms[h].(overrides := ms[h].overrides + es)], None)
  }

  /** A pass changes only edges: every method keeps its name, signature and everything else. */
  lemma {:induction false} ApplyKeepsSignatures(edges: ManagedMethod -> Result<seq<OverrideRef>, Error>, methods: seq<ManagedMethod>, hs: seq<nat>)
    requires forall k | 0 <= k < |hs| :: hs[k] < |methods|
    ensures forall h | 0 <= h < |methods| ::
              Apply(edges, methods, hs).0[h] == methods[h].(overrides := Apply(edges, methods, hs).0[h].overrides)
  {
    if hs != [] {
      ApplyKeepsSignatures(edges, methods, hs[..|hs| - 1]);
    }
  }

  /** Once a pass has thrown, the handles after that point are never visited. */
  lemma {:induction false} ApplySticks(edges: ManagedMethod -> Result<seq<OverrideRef>, Error>, methods: seq<ManagedMethod>, hs: seq<nat>, n: nat)
    requires forall k | 0 <= k < |hs| :: hs[k] < |methods|
    requires n <= |hs| && Apply(edges, methods, hs[..n]).1.Some?
    ensures Apply(edges, methods, hs) == Apply(edges, methods, hs[..n])
  {
    if n < |hs| {
      var init := hs[..|hs| - 1];
      assert init[..n] == hs[..n];
      ApplySticks(edges, methods, init, n);
    } else {
      assert hs[..n] == hs;
    }
  }

  /**
   * A pass throws exactly when some method's edges throw, and then with
   * the exception of the first such method in handle order.
   */
  lemma {:induction false} ApplyFails(edges: ManagedMethod -> Result<seq<OverrideRef>, Error>, methods: seq<ManagedMethod>, hs: seq<nat>)
    requires forall k | 0 <= k < |hs| :: hs[k] < |methods|
    requires IgnoresOverrides(edges)
    ensures Apply(edges, methods, hs).1.Some? <==> exists k | 0 <= k < |hs| :: edges(methods[hs[k]]).Err?
    ensures Apply(edges, methods, hs).1.Some? ==>
              exists k | 0 <= k < |hs| :: && edges(methods[hs[k]]) == Err(Apply(edges, methods, hs).1.value)
                                         && forall j | 0 <= j < k :: edges(methods[hs[j]]).Ok?
  {
    if hs != [] {
      var init := hs[..|hs| - 1];
      var h := hs[|hs| - 1];
      ApplyFails(edges, methods, init);
      var prior := Apply(edges, methods, init);
      if prior.1.None? {
        ApplyKeepsSignatures(edges, methods, init);
        assert edges(prior.0[h]) == edges(methods[h]) by {
          assert prior.0[h] == methods[h].(overrides := prior.0[h].overrides);
        }
        if edges(methods[h]).Err? {
          forall j | 0 <= j < |init|
            ensures edges(methods[hs[j]]).Ok?
          {
            assert init[j] == hs[j];
          }
        }
      } else {
        var k :| 0 <= k < |init| && edges(methods[init[k]]) == Err(prior.1.value)
                 && forall j | 0 <= j < k :: edges(methods[init[j]]).Ok?;
        assert init[k] == hs[k];
        forall j | 0 <= j < k
          ensures edges(methods[hs[j]]).Ok?
        {
          assert init[j] == hs[j];
        }
      }
    }
  }

  /**
   * A pass over distinct handles that completes gives every method at one
   * of the handles its own edges and leaves every other method unchanged.
   */
  lemma {:induction false} ApplyUpdates(edges: ManagedMethod -> Result<seq<OverrideRef>, Error>, methods: seq<ManagedMethod>, hs: seq<nat>)
    requires forall k | 0 <= k < |hs| :: hs[k] < |methods|
    requires NoDup(hs) && Apply(edges, methods, hs).1.None?
    ensures forall k | 0 <= k < |hs| ::
              && edges(methods[hs[k]]).Ok?
              && Apply(edges, methods, hs).0[hs[k]] == methods[hs[k]].(overrides := methods[hs[k]].overrides + edges(methods[hs[k]]).value)
    ensures forall h | 0 <= h < |methods| && h !in hs :: Apply(edges, methods, hs).0[h] == methods[h]
  {
    if hs != [] {
      var init := hs[..|hs| - 1];
      var h := hs[|hs| - 1];
      assert NoDup(init) by {
        forall i, j | 0 <= i < j < |init|
          ensures init[i] != init[j]
        {
          assert init[i] == hs[i] && init[j] == hs[j];
        }
      }
      ApplyUpdates(edges, methods, init);
      var prior := Apply(edges, methods, init);
      assert h !in init;
      assert prior.0[h] == methods[h];
      forall k | 0 <= k < |hs|
        ensures && edges(methods[hs[k]]).Ok?
                && Apply(edges, methods, hs).0[hs[k]] == methods[hs[k]].(overrides := methods[hs[k]].overrides + edges(methods[hs[k]]).value)
      {
        if k < |init| {
          assert init[k] == hs[k];
        }
      }
      forall h' | 0 <= h' < |methods| && h' !in hs
        ensures Apply(edges, methods, hs).0[h'] == methods[h']
      {
        assert h' !in init;
      }
    }
  }

  /**
   * The explicit-override fixup of the type at handle `t`. For a
   * compiler-generated type (its name starts with `<`) the interfaces are
   * classified and the iterator rules run over its methods; a generic
   * enumerator interface then ends the fixup. Otherwise the async rules, for
   * a compiler-generated type, and the general rule run over its methods.
   * The first exception stops the fixup with what was done before it kept.
   */
  function Fixup(m: Model, t: nat, rs: Resolver): (Model, Option<Error>)
    requires t < |m.arena.types|
    requires forall k | 0 <= k < |m.arena.types[t].methods| :: m.arena.types[t].methods[k] < |m.arena.methods|
  {
    var ty := m.arena.types[t];
    var generated := StartsWith(ty.name, "<");
    var general := GeneralPass(generated, ty.interfaces);
    if generated then
      match ClassifyAll(ty.interfaces, |ty.interfaces|)
      case Err(e) => (m, Some(e))
      case Ok(c) =>
        var (ms, err) := Apply(PassEdges(rs, t, IteratorPass(c)), m.arena.methods, ty.methods);
        if err.Some? || c.enumeratorGeneric.Some? then (m.(arena := m.arena.(methods := ms)), err)
        else
          var (ms', err') := Apply(PassEdges(rs, t, general), ms, ty.methods);
          (m.(arena := m.arena.(methods := ms')), err')
    else
      var (ms, err) := Apply(PassEdges(rs, t, general), m.arena.methods, ty.methods);
      (m.(arena := m.arena.(methods := ms)), err)
  }

  /** The edges the whole fixup adds to one method: iterator edges, then, unless skipped, async and general edges. */
  function FixupEdges(rs: Resolver, t: nat, ty: ManagedType, c: Interfaces, m: ManagedMethod): Result<seq<OverrideRef>, Error>
  {
    var generated := StartsWith(ty.name, "<");
    var first := if generated then EdgesFor(rs, t, IteratorPass(c), m) else Ok([]);
    match first
    case Err(e) => Err(e)
    case Ok(es) =>
      if generated && c.enumeratorGeneric.Some? then Ok(es)
      else
        match EdgesFor(rs, t, GeneralPass(generated, ty.interfaces), m)
        case Err(e) => Err(e)
        case Ok(es') => Ok(es + es')
  }

  /**
   * Two passes over distinct handles, the second blind to the edges of the
   * first, give every method at the handles its first-pass edges followed
   * by its second-pass edges.
   */
  lemma TwoPasses(first: ManagedMethod -> Result<seq<OverrideRef>, Error>, second: ManagedMethod -> Result<seq<OverrideRef>, Error>,
                  methods: seq<ManagedMethod>, hs: seq<nat>)
    requires forall k | 0 <= k < |hs| :: hs[k] < |methods|
    requires NoDup(hs) && IgnoresOverrides(second)
    requires Apply(first, methods, hs).1.None? && Apply(second, Apply(first, methods, hs).0, hs).1.None?
    ensures forall k | 0 <= k < |hs| ::
              var before := methods[hs[k]];
              && first(before).Ok? && second(before).Ok?
              && Apply(second, Apply(first, methods, hs).0, hs).0[hs[k]]
                 == before.(overrides := before.overrides + (first(before).value + second(before).value))
    ensures forall h | 0 <= h < |methods| && h !in hs :: Apply(second, Apply(first, methods, hs).0, hs).0[h] == methods[h]
  {
    var ms := Apply(first, methods, hs).0;
    var ms' := Apply(second, ms, hs).0;
    ApplyUpdates(first, methods, hs);
    ApplyUpdates(second, ms, hs);
    forall k | 0 <= k < |hs|
      ensures var before := methods[hs[k]];
              && first(before).Ok? && second(before).Ok?
              && ms'[hs[k]] == before.(overrides := before.overrides + (first(before).value + second(before).value))
    {
      SecondPassAt(first, second, methods[hs[k]], ms[hs[k]], ms'[hs[k]]);
    }
  }

  lemma SecondPassAt(first: ManagedMethod -> Result<seq<OverrideRef>, Error>, second: ManagedMethod -> Result<seq<OverrideRef>, Error>,
                     before: ManagedMethod, middle: ManagedMethod, after: ManagedMethod)
    requires IgnoresOverrides(second)
    requires first(before).Ok? && middle == before.(overrides := before.overrides + first(before).value)
    requires second(middle).Ok? && after == middle.(overrides := middle.overrides + second(middle).value)
    ensures second(before).Ok? && after == before.(overrides := before.overrides + (first(before).value + second(before).value))
  {
    assert second(middle) == second(before);
  }

  /** The fixup leaves the types, the generic parameters, the tables and the maps alone, and keeps the number of methods. */
  lemma FixupFrame(m: Model, t: nat, rs: Resolver)
    requires t < |m.arena.types|
    requires forall k | 0 <= k < |m.arena.types[t].methods| :: m.arena.types[t].methods[k] < |m.arena.methods|
    ensures var m' := Fixup(m, t, rs).0;
            && m'.arena.types == m.arena.types && m'.registry == m.registry && m'.tables == m.tables
            && m'.maps == m.maps && m'.fieldsByType == m.fieldsByType && |m'.arena.methods| == |m.arena.methods|
  {
  }

  /**
   * When the fixup completes, every method of the type gets exactly its own
   * edges appended and every other method is unchanged. On a
   * compiler-generated type the classification succeeded, and with a
   * generic enumerator interface no async or general edge is added.
   */
  lemma FixupFacts(m: Model, t: nat, rs: Resolver)
    requires t < |m.arena.types|
    requires forall k | 0 <= k < |m.arena.types[t].methods| :: m.arena.types[t].methods[k] < |m.arena.methods|
    requires NoDup(m.arena.types[t].methods)
    requires Fixup(m, t, rs).1.None?
    ensures StartsWith(m.arena.types[t].name, "<") ==> ClassifyAll(m.arena.types[t].interfaces, |m.arena.types[t].interfaces|).Ok?
    ensures forall h | 0 <= h < |m.arena.methods| && h !in m.arena.types[t].methods ::
              Fixup(m, t, rs).0.arena.methods[h] == m.arena.methods[h]
    ensures var ty := m.arena.types[t];
            var c := ClassifyAll(ty.interfaces, |ty.interfaces|);
            var c' := if c.Ok? then c.value else NoInterfaces;
            forall k | 0 <= k < |ty.methods| ::
              var before := m.arena.methods[ty.methods[k]];
              && FixupEdges(rs, t, ty, c', before).Ok?
              && Fixup(m, t, rs).0.arena.methods[ty.methods[k]] == before.(overrides := before.overrides + FixupEdges(rs, t, ty, c', before).value)
  {
    var ty := m.arena.types[t];
    var hs := ty.methods;
    var generated := StartsWith(ty.name, "<");
    var general := PassEdges(rs, t, GeneralPass(generated, ty.interfaces));
    if generated {
      var c := ClassifyAll(ty.interfaces, |ty.interfaces|).value;
      var iteratorEdges := PassEdges(rs, t, IteratorPass(c));
      if c.enumeratorGeneric.None? {
        PassEdgesIgnoresOverrides(rs, t, GeneralPass(generated, ty.interfaces));
        TwoPasses(iteratorEdges, general, m.arena.methods, hs);
      } else {
        ApplyUpdates(iteratorEdges, m.arena.methods, hs);
      }
    } else {
      ApplyUpdates(general, m.arena.methods, hs);
      forall k | 0 <= k < |hs|
        ensures FixupEdges(rs, t, ty, NoInterfaces, m.arena.methods[hs[k]]) == general(m.arena.methods[hs[k]])
      {
        var before := m.arena.methods[hs[k]];
        if general(before).Ok? {
          assert [] + general(before).value == general(before).value;
        }
      }
    }
  }

  /** The fixup changes only edges: every method keeps its name, signature, generic parameters and declaring type. */
  lemma FixupKeepsSignatures(m: Model, t: nat, rs: Resolver)
    requires t < |m.arena.types|
    requires forall k | 0 <= k < |m.arena.types[t].methods| :: m.arena.types[t].methods[k] < |m.arena.methods|
    ensures var ms := Fixup(m, t, rs).0.arena.methods;
            |ms| == |m.arena.methods| &&
            forall h | 0 <= h < |ms| :: ms[h] == m.arena.methods[h].(overrides := ms[h].overrides)
  {
    var ty := m.arena.types[t];
    var generated := StartsWith(ty.name, "<");
    var general := PassEdges(rs, t, GeneralPass(generated, ty.interfaces));
    if generated {
      match ClassifyAll(ty.interfaces, |ty.interfaces|)
      case Err(_) =>
      case Ok(c) =>
        var iteratorEdges := PassEdges(rs, t, IteratorPass(c));
        var ms := Apply(iteratorEdges, m.arena.methods, ty.methods).0;
        ApplyKeepsSignatures(iteratorEdges, m.arena.methods, ty.methods);
        ApplyKeepsSignatures(general, ms, ty.methods);
    } else {
      ApplyKeepsSignatures(general, m.arena.methods, ty.methods);
    }
  }

  /** The fixup keeps the state well formed: it touches neither generic parameters nor any handle. */
  lemma FixupWellFormed(m: Model, t: nat, rs: Resolver)
    requires t < |m.arena.types| && WellFormed(m)
    requires forall k | 0 <= k < |m.arena.types[t].methods| :: m.arena.types[t].methods[k] < |m.arena.methods|
    ensures WellFormed(Fixup(m, t, rs).0)
  {
    var m' := Fixup(m, t, rs).0;
    FixupFrame(m, t, rs);
    FixupKeepsSignatures(m, t, rs);
    forall h | 0 <= h < |m'.arena.methods|
      ensures m'.arena.methods[h].genericParams == m.arena.methods[h].genericParams
      ensures m'.arena.methods[h].declaringType == m.arena.methods[h].declaringType
    {
    }
  }

  // ---------------------------------------------------------------------
  // The loops of the fixup

  /** Once the classification has thrown, later interfaces are never looked at. */
  lemma {:induction false} ClassifyAllSticks(ifaces: seq<TypeRef>, i: nat, n: nat)
    requires i <= n <= |ifaces| && ClassifyAll(ifaces, i).Err?
    ensures ClassifyAll(ifaces, n) == ClassifyAll(ifaces, i)
  {
    if i < n {
      ClassifyAllSticks(ifaces, i, n - 1);
    }
  }

  /** The classification loop over a type's interfaces. */
  method ClassifyInterfaces(ifaces: seq<TypeRef>) returns (r: Result<Interfaces, Error>)
    ensures r == ClassifyAll(ifaces, |ifaces|)
  {
    var c := NoInterfaces;
    var i := 0;
    while i < |ifaces|
      invariant 0 <= i <= |ifaces|
      invariant ClassifyAll(ifaces, i) == Ok(c)
    {
      var next := Classify(c, ifaces[i]);
      if next.Err? {
        ClassifyAllSticks(ifaces, i + 1, |ifaces|);
        return next;
      }
      c := next.value;
      i := i + 1;
    }
    return Ok(c);
  }

  /** One pass over a type's methods, appending each method's edges until one throws. */
  method ApplyPass(edges: ManagedMethod -> Result<seq<OverrideRef>, Error>, methods: seq<ManagedMethod>, hs: seq<nat>)
    returns (ms: seq<ManagedMethod>, err: Option<Error>)
    requires forall k | 0 <= k < |hs| :: hs[k] < |methods|
    ensures (ms, err) == Apply(edges, methods, hs)
  {
    ms := methods;
    var i := 0;
    while i < |hs|
      invariant 0 <= i <= |hs|
      invariant (ms, None) == Apply(edges, methods, hs[..i])
    {
      assert hs[..i + 1][..i] == hs[..i];
      var h := hs[i];
      var found := edges(ms[h]);
      if found.Err? {
        ApplySticks(edges, methods, hs, i + 1);
        return ms, Some(found.error);
      }
      ms := ms[h := ms[h].(overrides := ms[h].overrides + found.value)];
      i := i + 1;
    }
    assert hs[..i] == hs;
    err := None;
  }
}
