/**
 * Property reconstruction: each native property is bound to the managed
 * methods already made for its accessors, its type is taken from them, and
 * it is appended to its managed type and recorded by native id.
 */
module Properties {
  import opened Types
  import opened Metadata
  import opened Tables
  import TypeContents

  /** `AsManaged` on an optional accessor: the managed method made for that native method, which must exist. */
  function Accessor(methodMap: map<nat, nat>, id: Option<nat>): (r: Result<Option<nat>, Error>)
  {
    match id
    case None => Ok(None)
    case Some(x) => if x in methodMap then Ok(Some(methodMap[x])) else Err(UnmappedMethod(x))
  }

  /**
   * The property type: the getter's return type, else the setter's first
   * parameter type. A setter without parameters throws on the index, and
   * a property with neither accessor has no type to import.
   */
  function PropertyType(methods: seq<ManagedMethod>, name: string, getter: Option<nat>, setter: Option<nat>): Result<TypeRef, Error>
    requires getter.Some? ==> getter.value < |methods|
    requires setter.Some? ==> setter.value < |methods|
  {
    match getter
    case Some(g) => Ok(methods[g].returnType)
    case None =>
      match setter
      case None => Err(PropertyWithoutType(name))
      case Some(s) =>
        if |methods[s].parameters| == 0 then Err(SetterWithoutParameter(name))
        else Ok(methods[s].parameters[0].parameterType)
  }

  /** The managed property for a native one, or the exception its accessors or its type raise. */
  function PropertyOf(methods: seq<ManagedMethod>, methodMap: map<nat, nat>, p: NativeProperty): Result<PropertyDef, Error>
    requires ValuesBelow(methodMap, |methods|)
  {
    match Accessor(methodMap, p.getter)
    case Err(e) => Err(e)
    case Ok(getter) =>
      match Accessor(methodMap, p.setter)
      case Err(e) => Err(e)
      case Ok(setter) =>
        match PropertyType(methods, p.name, getter, setter)
        case Err(e) => Err(e)
        case Ok(ty) => Ok(PropertyDef(p.name, p.attrs, ty, getter, setter))
  }

  /**
   * The type choice, in both directions: the getter's return type whenever
   * there is a getter; with only a setter, its first parameter type, or an
   * exception when it has none; with neither, an exception.
   */
  lemma PropertyTypeChoice(methods: seq<ManagedMethod>, name: string, getter: Option<nat>, setter: Option<nat>)
    requires getter.Some? ==> getter.value < |methods|
    requires setter.Some? ==> setter.value < |methods|
    ensures PropertyType(methods, name, getter, setter).Err? <==>
              getter.None? && (setter.None? || |methods[setter.value].parameters| == 0)
    ensures getter.Some? ==> PropertyType(methods, name, getter, setter) == Ok(methods[getter.value].returnType)
    ensures getter.None? && setter.Some? && |methods[setter.value].parameters| > 0 ==>
              PropertyType(methods, name, getter, setter) == Ok(methods[setter.value].parameters[0].parameterType)
    ensures getter.None? && setter.None? ==> PropertyType(methods, name, getter, setter) == Err(PropertyWithoutType(name))
  {
  }

  /**
   * A property is made exactly when both accessors are mapped and a type is
   * found; it keeps the native name and attributes and is bound to the
   * managed methods made for its accessors. An unmapped getter is reported
   * before an unmapped setter.
   */
  lemma PropertyOfFacts(methods: seq<ManagedMethod>, methodMap: map<nat, nat>, p: NativeProperty)
    requires ValuesBelow(methodMap, |methods|)
    ensures p.getter.Some? && p.getter.value !in methodMap ==>
              PropertyOf(methods, methodMap, p) == Err(UnmappedMethod(p.getter.value))
    ensures (p.getter.None? || p.getter.value in methodMap) && p.setter.Some? && p.setter.value !in methodMap ==>
              PropertyOf(methods, methodMap, p) == Err(UnmappedMethod(p.setter.value))
    ensures PropertyOf(methods, methodMap, p).Ok? ==>
              var pd := PropertyOf(methods, methodMap, p).value;
              && pd.name == p.name && pd.attrs == p.attrs
              && (pd.getter.Some? <==> p.getter.Some?) && (pd.setter.Some? <==> p.setter.Some?)
              && (p.getter.Some? ==> p.getter.value in methodMap && pd.getter.value == methodMap[p.getter.value])
              && (p.setter.Some? ==> p.setter.value in methodMap && pd.setter.value == methodMap[p.setter.value])
              && Ok(pd.propertyType) == PropertyType(methods, p.name, pd.getter, pd.setter)
  {
  }

  /** Appends a property to type `t` and records it under its native id. */
  function AddProperty(m: Model, t: nat, id: nat, pd: PropertyDef): (r: Model)
    requires t < |m.arena.types|
  {
    var ty := m.arena.types[t];
    m.(arena := m.arena.(types := m.arena.types[t := ty.(properties := ty.properties + [pd])]),
       maps := m.maps.(properties := m.maps.properties[id := PropertyHandle(t, |ty.properties|)]))
  }

  /**
   * `ProcessPropertiesInType` over the first `n` native properties: each is
   * made and added in order, and the first exception stops the pass with
   * the properties before it already added.
   */
  function AddProperties(m: Model, t: nat, ps: seq<NativeProperty>, n: nat): (r: (Model, Option<Error>))
    requires t < |m.arena.types| && ValuesBelow(m.maps.methods, |m.arena.methods|) && n <= |ps|
    ensures r.0.arena.methods == m.arena.methods && r.0.maps.methods == m.maps.methods
    ensures |r.0.arena.types| == |m.arena.types|
  {
    if n == 0 then (m, None)
    else
      var prior := AddProperties(m, t, ps, n - 1);
      if prior.1.Some? then prior
      else
        match PropertyOf(prior.0.arena.methods, prior.0.maps.methods, ps[n - 1])
        case Err(e) => (prior.0, Some(e))
        case Ok(pd) => (AddProperty(prior.0, t, ps[n - 1].id, pd), None)
  }

  /** Once a property has thrown, the properties after it are never looked at. */
  lemma {:induction false} AddPropertiesSticks(m: Model, t: nat, ps: seq<NativeProperty>, i: nat, n: nat)
    requires t < |m.arena.types| && ValuesBelow(m.maps.methods, |m.arena.methods|)
    requires i <= n <= |ps| && AddProperties(m, t, ps, i).1.Some?
    ensures AddProperties(m, t, ps, n) == AddProperties(m, t, ps, i)
  {
    if i < n {
      AddPropertiesSticks(m, t, ps, i, n - 1);
    }
  }

  /** The state `m'` after the first `i` native properties of type `t`, all of which were made. */
  ghost predicate PropertiesThrough(m: Model, t: nat, ps: seq<NativeProperty>, i: nat, m': Model)
  {
    t < |m.arena.types| && ValuesBelow(m.maps.methods, |m.arena.methods|) && i <= |ps|
    && (m', None) == AddProperties(m, t, ps, i)
  }

  /**
   * One more native property: made from the methods the pass started
   * with, it is added and the pass goes on, or it cannot be made and the
   * whole pass ends there with its exception.
   */
  lemma AddPropertiesNext(m: Model, t: nat, ps: seq<NativeProperty>, i: nat, before: Model)
    requires PropertiesThrough(m, t, ps, i, before) && i < |ps|
    ensures t < |before.arena.types| && before.arena.methods == m.arena.methods && before.maps.methods == m.maps.methods
    ensures PropertyOf(m.arena.methods, m.maps.methods, ps[i]).Err? ==>
              (before, Some(PropertyOf(m.arena.methods, m.maps.methods, ps[i]).error)) == AddProperties(m, t, ps, |ps|)
    ensures PropertyOf(m.arena.methods, m.maps.methods, ps[i]).Ok? ==>
              PropertiesThrough(m, t, ps, i + 1, AddProperty(before, t, ps[i].id, PropertyOf(m.arena.methods, m.maps.methods, ps[i]).value))
  {
    if PropertyOf(before.arena.methods, before.maps.methods, ps[i]).Err? {
      AddPropertiesSticks(m, t, ps, i + 1, |ps|);
    }
  }

  /** The pass throws exactly when some property cannot be made. */
  lemma {:induction false} AddPropertiesFails(m: Model, t: nat, ps: seq<NativeProperty>, n: nat)
    requires t < |m.arena.types| && ValuesBelow(m.maps.methods, |m.arena.methods|) && n <= |ps|
    ensures AddProperties(m, t, ps, n).1.Some? <==>
              exists k | 0 <= k < n :: PropertyOf(m.arena.methods, m.maps.methods, ps[k]).Err?
  {
    if n > 0 {
      AddPropertiesFails(m, t, ps, n - 1);
    }
  }

  /** A pass that throws throws the exception of the first property that cannot be made. */
  lemma {:induction false} AddPropertiesFirstError(m: Model, t: nat, ps: seq<NativeProperty>, n: nat)
    requires t < |m.arena.types| && ValuesBelow(m.maps.methods, |m.arena.methods|) && n <= |ps|
    ensures AddProperties(m, t, ps, n).1.Some? ==>
              exists k | 0 <= k < n :: && PropertyOf(m.arena.methods, m.maps.methods, ps[k]) == Err(AddProperties(m, t, ps, n).1.value)
                                       && forall j | 0 <= j < k :: PropertyOf(m.arena.methods, m.maps.methods, ps[j]).Ok?
  {
    if n > 0 {
      AddPropertiesFirstError(m, t, ps, n - 1);
      AddPropertiesFails(m, t, ps, n - 1);
    }
  }

  /**
   * When the pass completes, type `t` lists the new properties after its
   * old ones, in native order; no other type, no method and no other
   * table changes.
   */
  lemma {:induction false} AddPropertiesListed(m: Model, t: nat, ps: seq<NativeProperty>, n: nat)
    requires t < |m.arena.types| && ValuesBelow(m.maps.methods, |m.arena.methods|) && n <= |ps|
    requires AddProperties(m, t, ps, n).1.None?
    ensures var m' := AddProperties(m, t, ps, n).0;
            && m'.registry == m.registry && m'.tables == m.tables && m'.fieldsByType == m.fieldsByType
            && m'.maps.types == m.maps.types && m'.maps.fields == m.maps.fields
            && (forall u | 0 <= u < |m.arena.types| && u != t :: m'.arena.types[u] == m.arena.types[u])
            && m'.arena.types[t] == m.arena.types[t].(properties := m'.arena.types[t].properties)
            && |m'.arena.types[t].properties| == |m.arena.types[t].properties| + n
            && m'.arena.types[t].properties[..|m.arena.types[t].properties|] == m.arena.types[t].properties
            && forall k | 0 <= k < n ::
                 PropertyOf(m.arena.methods, m.maps.methods, ps[k]).Ok?
                 && m'.arena.types[t].properties[|m.arena.types[t].properties| + k] == PropertyOf(m.arena.methods, m.maps.methods, ps[k]).value
  {
    if n > 0 {
      AddPropertiesListed(m, t, ps, n - 1);
      var prior := AddProperties(m, t, ps, n - 1).0;
      assert prior.arena.types[t].properties[..|m.arena.types[t].properties|] == m.arena.types[t].properties;
    }
  }

  /** The table of properties by native id after a completed pass: one write per new property, in order. */
  lemma {:induction false} AddPropertiesTable(m: Model, t: nat, ps: seq<NativeProperty>, n: nat)
    requires t < |m.arena.types| && ValuesBelow(m.maps.methods, |m.arena.methods|) && n <= |ps|
    requires AddProperties(m, t, ps, n).1.None?
    ensures AddProperties(m, t, ps, n).0.maps.properties == Written(m.maps.properties, t, |m.arena.types[t].properties|, ps, n)
  {
    if n > 0 {
      AddPropertiesTable(m, t, ps, n - 1);
      AddPropertiesListed(m, t, ps, n - 1);
    }
  }

  /** The writes of the first `n` properties, the `k`-th at position `base + k` of type `t`. */
  function Written(tbl: map<nat, PropertyHandle>, t: nat, base: nat, ps: seq<NativeProperty>, n: nat): map<nat, PropertyHandle>
    requires n <= |ps|
  {
    if n == 0 then tbl else Written(tbl, t, base, ps, n - 1)[ps[n - 1].id := PropertyHandle(t, base + n - 1)]
  }

  /**
   * Each new property is recorded under its native id at its position in
   * type `t`, unless a later property of the same id replaced it.
   */
  lemma {:induction false} WrittenLast(tbl: map<nat, PropertyHandle>, t: nat, base: nat, ps: seq<NativeProperty>, n: nat)
    requires n <= |ps|
    ensures forall k | 0 <= k < n && (forall j | k < j < n :: ps[j].id != ps[k].id) ::
              ps[k].id in Written(tbl, t, base, ps, n) && Written(tbl, t, base, ps, n)[ps[k].id] == PropertyHandle(t, base + k)
  {
    if n > 0 {
      WrittenLast(tbl, t, base, ps, n - 1);
    }
  }

  /** An id is in the table afterwards exactly when it was before or some new property has it; ids of no new property keep their entries. */
  lemma {:induction false} WrittenKeys(tbl: map<nat, PropertyHandle>, t: nat, base: nat, ps: seq<NativeProperty>, n: nat)
    requires n <= |ps|
    ensures forall id :: id in Written(tbl, t, base, ps, n) <==> id in tbl || exists k | 0 <= k < n :: ps[k].id == id
    ensures forall id | id in tbl && (forall k | 0 <= k < n :: ps[k].id != id) :: Written(tbl, t, base, ps, n)[id] == tbl[id]
  {
    if n > 0 {
      WrittenKeys(tbl, t, base, ps, n - 1);
    }
  }

  /** Adding properties touches neither the generic parameters nor any method handle, so it keeps the state well-formed. */
  lemma AddPropertiesWellFormed(m: Model, t: nat, ps: seq<NativeProperty>, n: nat)
    requires t < |m.arena.types| && WellFormed(m) && n <= |ps|
    ensures WellFormed(AddProperties(m, t, ps, n).0)
  {
    if n > 0 {
      AddPropertiesWellFormed(m, t, ps, n - 1);
      var prior := AddProperties(m, t, ps, n - 1).0;
      TypeContents.SameSkeletonWellFormed(prior, AddProperties(m, t, ps, n).0);
    }
  }

  /**
   * Whatever the outcome, the pass leaves the type map alone and every
   * type keeps its name and scope: only property lists grow.
   */
  lemma {:induction false} AddPropertiesKeeps(m: Model, t: nat, ps: seq<NativeProperty>, n: nat)
    requires t < |m.arena.types| && ValuesBelow(m.maps.methods, |m.arena.methods|) && n <= |ps|
    ensures AddProperties(m, t, ps, n).0.maps.types == m.maps.types
    ensures forall u | 0 <= u < |m.arena.types| :: TypeContents.SameIdentity(AddProperties(m, t, ps, n).0.arena.types[u], m.arena.types[u])
  {
    if n > 0 {
      AddPropertiesKeeps(m, t, ps, n - 1);
    }
  }
}
