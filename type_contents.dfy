/**
 * What reconstruction adds to one managed type: its generic parameters,
 * base type and interfaces, fields and layout, methods (with their generic
 * parameters, return type, stub body, parameters and table entries) and
 * properties. Each step is a function of the shared state.
 */
module TypeContents {
  import opened Types
  import opened MethodBodies
  import opened FieldLayout
  import opened Metadata
  import opened GenericParams
  import opened Tables

  /** The arena grew at the end and the table kept its entries: every owner list stays valid. */
  lemma RegistryGrowthKeepsLists(m: Model, g: Registry)
    requires GenericParamsValid(m) && Grows(m.registry, g)
    ensures forall t | 0 <= t < |m.arena.types| :: ListValid(g, m.arena.types[t].genericParams)
    ensures forall h | 0 <= h < |m.arena.methods| :: ListValid(g, m.arena.methods[h].genericParams)
  {
  }

  /**
   * Well-formedness only looks at the registry, the method arena, the
   * handle tables and each type's generic parameters and methods; a change
   * to anything else keeps it.
   */
  lemma SameSkeletonWellFormed(m: Model, m': Model)
    requires WellFormed(m)
    requires m'.registry == m.registry && m'.arena.methods == m.arena.methods && m'.tables == m.tables
    requires m'.maps.types == m.maps.types && m'.maps.methods == m.maps.methods
    requires |m'.arena.types| == |m.arena.types|
    requires forall u | 0 <= u < |m.arena.types| :: m'.arena.types[u].genericParams == m.arena.types[u].genericParams
                                                 && m'.arena.types[u].methods == m.arena.types[u].methods
    ensures WellFormed(m')
  {
  }

  // ---------------------------------------------------------------------
  // Type hierarchy: generic parameters, base type, interfaces

  /** `PopulateGenericParamsForType`: nothing happens without a generic container. */
  function PopulateGenericParams(m: Model, t: nat, nt: NativeTypeDef, r: Reader): (r': Model)
    requires t < |m.arena.types|
    ensures r'.arena.methods == m.arena.methods && |r'.arena.types| == |m.arena.types|
    ensures r'.tables == m.tables && r'.maps == m.maps && r'.fieldsByType == m.fieldsByType
    ensures forall u | 0 <= u < |m.arena.types| && u != t :: r'.arena.types[u] == m.arena.types[u]
    ensures r'.arena.types[t] == m.arena.types[t].(genericParams := r'.arena.types[t].genericParams)
  {
    match nt.genericContainer
    case None => m
    case Some(ps) =>
      var a := AttachAll(m.registry, m.arena.types[t].genericParams, TypeOwner(t), ps, r);
      UpdateType(m.(registry := a.registry), t, m.arena.types[t].(genericParams := a.list))
  }

  /**
   * The generic parameters of a type after `PopulateGenericParamsForType`:
   * the state stays well formed, every index of the container is in the
   * table with its parameter in the type's list, the table gains exactly
   * the container's indices, and the parameters already in the list stay.
   */
  lemma PopulateGenericParamsFacts(m: Model, t: nat, nt: NativeTypeDef, r: Reader)
    requires t < |m.arena.types| && WellFormed(m)
    ensures var r' := PopulateGenericParams(m, t, nt, r);
            var before := m.arena.types[t].genericParams;
            var after := r'.arena.types[t].genericParams;
            && WellFormed(r')
            && (nt.genericContainer.None? ==> r' == m)
            && (nt.genericContainer.Some? ==>
                  var ps := nt.genericContainer.value;
                  && r'.registry.byIndex.Keys == m.registry.byIndex.Keys + Indices(ps)
                  && (forall k | 0 <= k < |ps| :: ps[k].index in r'.registry.byIndex
                                                && r'.registry.byIndex[ps[k].index] in after))
            && |before| <= |after| && after[..|before|] == before
  {
    if nt.genericContainer.Some? {
      var ps := nt.genericContainer.value;
      var a := AttachAll(m.registry, m.arena.types[t].genericParams, TypeOwner(t), ps, r);
      AttachAllValid(m.registry, m.arena.types[t].genericParams, TypeOwner(t), ps, r);
      AttachAllCovers(m.registry, m.arena.types[t].genericParams, TypeOwner(t), ps, r);
      RegistryGrowthKeepsLists(m, a.registry);
    }
  }

  /** `ConfigureHierarchy` for one type: generic parameters, then the base type if any, then the interfaces. */
  function ConfigureType(m: Model, t: nat, nt: NativeTypeDef, r: Reader): (r': Model)
    requires t < |m.arena.types|
    ensures r'.arena.methods == m.arena.methods && |r'.arena.types| == |m.arena.types|
    ensures r'.tables == m.tables && r'.maps == m.maps && r'.fieldsByType == m.fieldsByType
  {
    var m1 := PopulateGenericParams(m, t, nt, r);
    var ty := m1.arena.types[t];
    var base := if nt.rawBase.Some? then Some(r.importType(TypeOwner(t), nt.rawBase.value)) else ty.baseType;
    UpdateType(m1, t, ty.(baseType := base, interfaces := ty.interfaces + ImportAll(r, TypeOwner(t), nt.rawInterfaces)))
  }

  /** One entry of the managed-to-native type pairing that `ConfigureHierarchy` walks. */
  datatype TypePair = TypePair(handle: nat, native: NativeTypeDef)

  predicate PairsIn(m: Model, pairs: seq<TypePair>)
  {
    forall i | 0 <= i < |pairs| :: pairs[i].handle < |m.arena.types|
  }

  function ConfigureHierarchy(m: Model, pairs: seq<TypePair>, r: Reader): (r': Model)
    requires PairsIn(m, pairs)
    ensures r'.arena.methods == m.arena.methods && |r'.arena.types| == |m.arena.types|
    ensures r'.tables == m.tables && r'.maps == m.maps && r'.fieldsByType == m.fieldsByType
  {
    if pairs == [] then m
    else
      var mid := ConfigureHierarchy(m, pairs[..|pairs| - 1], r);
      ConfigureType(mid, pairs[|pairs| - 1].handle, pairs[|pairs| - 1].native, r)
  }

  /**
   * One type's hierarchy step keeps the state well formed; the interfaces
   * are appended in native order, the base type is replaced only when the
   * native type has one, and no other type changes. The type keeps its
   * name, and whether it is a value type follows the new base type: an
   * imported `System.Enum` makes it one, so does `System.ValueType` unless
   * the type is `System.Enum` itself, and any other base makes it none.
   */
  lemma ConfigureTypeFacts(m: Model, t: nat, nt: NativeTypeDef, r: Reader)
    requires t < |m.arena.types| && WellFormed(m)
    ensures var r' := ConfigureType(m, t, nt, r);
            && WellFormed(r')
            && r'.arena.types[t].interfaces == m.arena.types[t].interfaces + ImportAll(r, TypeOwner(t), nt.rawInterfaces)
            && (nt.rawBase.None? ==> r'.arena.types[t].baseType == m.arena.types[t].baseType)
            && (nt.rawBase.Some? ==> r'.arena.types[t].baseType == Some(r.importType(TypeOwner(t), nt.rawBase.value)))
            && (forall u | 0 <= u < |m.arena.types| && u != t :: r'.arena.types[u] == m.arena.types[u])
    ensures var r' := ConfigureType(m, t, nt, r);
            && r'.arena.types[t].ns == m.arena.types[t].ns && r'.arena.types[t].name == m.arena.types[t].name
            && (nt.rawBase.None? ==> (IsValueTypeDef(r'.arena.types[t]) <==> IsValueTypeDef(m.arena.types[t])))
    ensures var ty := ConfigureType(m, t, nt, r).arena.types[t];
            nt.rawBase.Some? ==>
              var base := r.importType(TypeOwner(t), nt.rawBase.value);
              && (IsTypeOf(base, "System", "Enum") ==> IsValueTypeDef(ty))
              && (IsTypeOf(base, "System", "ValueType") ==>
                    (IsValueTypeDef(ty) <==> !(m.arena.types[t].ns == "System" && m.arena.types[t].name == "Enum")))
              && (!IsTypeOf(base, "System", "Enum") && !IsTypeOf(base, "System", "ValueType") ==> !IsValueTypeDef(ty))
  {
    PopulateGenericParamsFacts(m, t, nt, r);
  }

  lemma {:induction false} ConfigureHierarchyWellFormed(m: Model, pairs: seq<TypePair>, r: Reader)
    requires PairsIn(m, pairs) && WellFormed(m)
    ensures WellFormed(ConfigureHierarchy(m, pairs, r))
  {
    if pairs != [] {
      ConfigureHierarchyWellFormed(m, pairs[..|pairs| - 1], r);
      var mid := ConfigureHierarchy(m, pairs[..|pairs| - 1], r);
      ConfigureTypeFacts(mid, pairs[|pairs| - 1].handle, pairs[|pairs| - 1].native, r);
    }
  }

  // ---------------------------------------------------------------------
  // Fields

  /** The managed field for a native one; its constant and initial value are copied only when the flags say so. */
  function FieldOf(r: Reader, t: nat, nf: NativeField): ManagedField
  {
    var attrs := nf.rawType.attrs;
    ManagedField(nf.name, attrs, r.importType(TypeOwner(t), nf.rawType),
                 if HasDefault(attrs) then nf.defaultValue else None,
                 if HasFieldRva(attrs) then nf.staticArrayInitialValue else None)
  }

  /**
   * The layout entry for the native field with counter `k` of the type
   * named `typeName` at handle `t`, once it is the managed field at `position`.
   */
  function LayoutEntry(typeName: string, isValueType: bool, t: nat, nt: NativeTypeDef, k: nat, position: nat, r: Reader): FieldInType
    requires k < |nt.fields|
  {
    var nf := nt.fields[k];
    var f := FieldOf(r, t, nf);
    var isStatic := IsStaticField(f.attrs);
    GetFieldInType(f.fieldType, r.fieldOffset(nt.typeIndex, k, nf.fieldIndex, isValueType, isStatic),
                   nf.name, typeName, t, position, isStatic, f.constant)
  }

  /** The managed fields for the first `n` natives, in order. */
  function AddedFields(r: Reader, t: nat, nt: NativeTypeDef, n: nat): (fs: seq<ManagedField>)
    requires n <= |nt.fields|
    ensures |fs| == n
  {
    if n == 0 then [] else AddedFields(r, t, nt, n - 1) + [FieldOf(r, t, nt.fields[n - 1])]
  }

  lemma {:induction false} AddedFieldsAt(r: Reader, t: nat, nt: NativeTypeDef, n: nat, k: nat)
    requires k < n <= |nt.fields|
    ensures AddedFields(r, t, nt, n)[k] == FieldOf(r, t, nt.fields[k])
  {
    if k < n - 1 {
      AddedFieldsAt(r, t, nt, n - 1, k);
    }
  }

  /**
   * The field map after the first `n` native fields: each native id is
   * sent to the position after the `base` fields the type already had, a
   * later field overwriting an earlier one with the same id.
   */
  function FieldMapAfter(fieldMap: map<nat, FieldHandle>, t: nat, base: nat, nt: NativeTypeDef, n: nat): map<nat, FieldHandle>
    requires n <= |nt.fields|
  {
    if n == 0 then fieldMap else FieldMapAfter(fieldMap, t, base, nt, n - 1)[nt.fields[n - 1].id := FieldHandle(t, base + n - 1)]
  }

  /** The layout entries of the first `n` native fields in native order, before sorting. */
  function Layout(ty: ManagedType, t: nat, nt: NativeTypeDef, n: nat, r: Reader): (l: seq<FieldInType>)
    requires n <= |nt.fields|
    ensures |l| == n
  {
    if n == 0 then []
    else Layout(ty, t, nt, n - 1, r) + [LayoutEntry(TypeFullName(ty), IsValueTypeDef(ty), t, nt, n - 1, |ty.fields| + n - 1, r)]
  }

  lemma {:induction false} LayoutAt(ty: ManagedType, t: nat, nt: NativeTypeDef, n: nat, k: nat, r: Reader)
    requires k < n <= |nt.fields|
    ensures Layout(ty, t, nt, n, r)[k] == LayoutEntry(TypeFullName(ty), IsValueTypeDef(ty), t, nt, k, |ty.fields| + k, r)
  {
    if k < n - 1 {
      LayoutAt(ty, t, nt, n - 1, k, r);
    }
  }

  /** The layout one field further, with the entry computed from any type of the same name, kind and field count. */
  lemma LayoutStep(ty0: ManagedType, ty: ManagedType, t: nat, nt: NativeTypeDef, n: nat, r: Reader)
    requires n < |nt.fields|
    requires TypeFullName(ty) == TypeFullName(ty0) && IsValueTypeDef(ty) == IsValueTypeDef(ty0) && |ty.fields| == |ty0.fields| + n
    ensures Layout(ty0, t, nt, n + 1, r)
         == Layout(ty0, t, nt, n, r) + [LayoutEntry(TypeFullName(ty), IsValueTypeDef(ty), t, nt, n, |ty.fields|, r)]
  {
  }

  /** The managed fields one native field further. */
  lemma AddedFieldsStep(fields: seq<ManagedField>, r: Reader, t: nat, nt: NativeTypeDef, n: nat)
    requires n < |nt.fields|
    ensures fields + AddedFields(r, t, nt, n + 1) == fields + AddedFields(r, t, nt, n) + [FieldOf(r, t, nt.fields[n])]
  {
  }

  /** `ProcessFieldsInType`: add every field, then store the layout sorted by offset. */
  function ProcessFields(m: Model, t: nat, nt: NativeTypeDef, r: Reader): (r': Model)
    requires t < |m.arena.types|
    ensures r'.arena.methods == m.arena.methods && |r'.arena.types| == |m.arena.types|
    ensures r'.registry == m.registry && r'.tables == m.tables
  {
    var ty := m.arena.types[t];
    var n := |nt.fields|;
    m.(arena := m.arena.(types := m.arena.types[t := ty.(fields := ty.fields + AddedFields(r, t, nt, n))]),
       maps := m.maps.(fields := FieldMapAfter(m.maps.fields, t, |ty.fields|, nt, n)),
       fieldsByType := m.fieldsByType[t := SortByOffset(Layout(m.arena.types[t], t, nt, |nt.fields|, r))])
  }

  /** The entry a layout holds for a managed field agrees with that field. */
  predicate Describes(e: FieldInType, f: ManagedField)
  {
    && e.name == f.name
    && e.isStatic == IsStaticField(f.attrs)
    && e.constant == f.constant
    && (e.fieldType == f.fieldType || e.fieldType == ArrayOf(f.fieldType))
  }

  /**
   * The layout entry for the field at position `k` (the 0-based counter)
   * describes the managed field added for it, carries the offset the
   * reader gave for counter `k`, and differs in type from that field only
   * for the `System.String` character field.
   */
  lemma LayoutEntryFacts(m: Model, t: nat, nt: NativeTypeDef, r: Reader, k: nat)
    requires t < |m.arena.types| && k < |nt.fields|
    ensures var fields := ProcessFields(m, t, nt, r).arena.types[t].fields;
            var n := |m.arena.types[t].fields|;
            var e := Layout(m.arena.types[t], t, nt, |nt.fields|, r)[k];
            && n + k < |fields|
            && e.definition == n + k && e.declaringType == t
            && Describes(e, fields[n + k])
            && FromULong(e.offset) == r.fieldOffset(nt.typeIndex, k, nt.fields[k].fieldIndex, IsValueTypeDef(m.arena.types[t]), e.isStatic) as int
            && (e.fieldType != fields[n + k].fieldType <==>
                  TypeFullName(m.arena.types[t]) == StringName && FullName(fields[n + k].fieldType) == CharName)
  {
    AddedFieldsAt(r, t, nt, |nt.fields|, k);
    LayoutAt(m.arena.types[t], t, nt, |nt.fields|, k, r);
    var f := FieldOf(r, t, nt.fields[k]);
    var isStatic := IsStaticField(f.attrs);
    StringCharCorrection(f.fieldType, r.fieldOffset(nt.typeIndex, k, nt.fields[k].fieldIndex, IsValueTypeDef(m.arena.types[t]), isStatic),
                         nt.fields[k].name, TypeFullName(m.arena.types[t]), t, |m.arena.types[t].fields| + k, isStatic, f.constant);
  }

  /**
   * After `ProcessFieldsInType` the type's stored layout has one entry per
   * native field, is sorted by offset, and is a reordering of the
   * per-field entries (each described by `LayoutEntryFacts`); the type's
   * field list gains one field per native field, after the ones it had.
   */
  lemma ProcessFieldsLayout(m: Model, t: nat, nt: NativeTypeDef, r: Reader)
    requires t < |m.arena.types|
    ensures var r' := ProcessFields(m, t, nt, r);
            && t in r'.fieldsByType
            && |r'.fieldsByType[t]| == |nt.fields|
            && SortedByOffset(r'.fieldsByType[t])
            && multiset(r'.fieldsByType[t]) == multiset(Layout(m.arena.types[t], t, nt, |nt.fields|, r))
            && |r'.arena.types[t].fields| == |m.arena.types[t].fields| + |nt.fields|
            && r'.arena.types[t].fields[..|m.arena.types[t].fields|] == m.arena.types[t].fields
  {
    SortPermutes(Layout(m.arena.types[t], t, nt, |nt.fields|, r));
  }

  /** `ProcessFieldsInType` keeps the state well formed. */
  lemma ProcessFieldsWellFormed(m: Model, t: nat, nt: NativeTypeDef, r: Reader)
    requires t < |m.arena.types| && WellFormed(m)
    ensures WellFormed(ProcessFields(m, t, nt, r))
  {
    var r' := ProcessFields(m, t, nt, r);
    assert r'.maps.types == m.maps.types && r'.maps.methods == m.maps.methods;
    forall u | 0 <= u < |m.arena.types|
      ensures r'.arena.types[u].genericParams == m.arena.types[u].genericParams
      ensures r'.arena.types[u].methods == m.arena.types[u].methods
    {
    }
    SameSkeletonWellFormed(m, r');
  }

  // ---------------------------------------------------------------------
  // Methods

  /** The managed parameter for a native one: by reference exactly when `byref == 1`. */
  function ParameterOf(r: Reader, h: nat, p: NativeParam): ParameterDef
  {
    var imported := r.importType(MethodOwner(h), p.rawType);
    ParameterDef(p.name, p.attributes, if p.rawType.byref == 1 then ByRef(imported) else imported, p.defaultValue)
  }

  function AddedParameters(r: Reader, h: nat, ps: seq<NativeParam>, n: nat): (qs: seq<ParameterDef>)
    requires n <= |ps|
    ensures |qs| == n
  {
    if n == 0 then [] else AddedParameters(r, h, ps, n - 1) + [ParameterOf(r, h, ps[n - 1])]
  }

  lemma {:induction false} AddedParametersAt(r: Reader, h: nat, ps: seq<NativeParam>, n: nat, k: nat)
    requires k < n <= |ps|
    ensures AddedParameters(r, h, ps, n)[k] == ParameterOf(r, h, ps[k])
  {
    if k < n - 1 {
      AddedParametersAt(r, h, ps, n - 1, k);
    }
  }

  /** The first-write-wins tables by method index and by method pointer. */
  function RecordMethod(t: MethodTables, h: nat, nm: NativeMethod): MethodTables
  {
    t.(byIndex := TryAdd(t.byIndex, nm.methodIndex, h), byAddress := TryAdd(t.byAddress, nm.methodPointer, h))
  }

  /** The last-write-wins slot table, written only for a real slot. */
  function RecordSlot(t: MethodTables, h: nat, nm: NativeMethod): MethodTables
  {
    if nm.slot < UShortMaxValue then t.(bySlot := t.bySlot[nm.slot := h]) else t
  }

  /** The stub decision and the stub itself, given the return type already imported. */
  function StubFor(flags: bv16, baseType: Option<TypeRef>, returnType: TypeRef): Option<Body>
  {
    if NeedsStub(flags, baseType) then Some(StubBody(returnType)) else None
  }

  /** The generic parameters a new method gets: its container attached to an empty list, on the method path of the registry. */
  function MethodGenericParams(g: Registry, h: nat, nm: NativeMethod, r: Reader): Attached
  {
    var none: seq<nat> := [];
    match nm.genericContainer
    case None => Attached(g, none)
    case Some(ps) => AttachAllChecked(g, none, MethodOwner(h), ps, r)
  }

  /**
   * The method made at handle `h` for a native method of type `t`, given
   * its generic parameter list and the type's base type.
   */
  function MethodRecord(genericParams: seq<nat>, h: nat, t: nat, nm: NativeMethod, baseType: Option<TypeRef>, r: Reader): ManagedMethod
  {
    var rt := r.importType(MethodOwner(h), nm.rawReturnType);
    ManagedMethod(nm.name, nm.flags, t, rt, genericParams,
                  AddedParameters(r, h, nm.parameters, |nm.parameters|), StubFor(nm.flags, baseType, rt), [])
  }

  /**
   * A method gets a body exactly when `NeedsStub` says so, and that body
   * returns the default value of its return type.
   */
  lemma MethodRecordStub(genericParams: seq<nat>, h: nat, t: nat, nm: NativeMethod, baseType: Option<TypeRef>, r: Reader)
    ensures var mm := MethodRecord(genericParams, h, t, nm, baseType, r);
            && (mm.body.Some? <==> NeedsStub(nm.flags, baseType))
            && (mm.body.Some? ==>
                  Run(mm.body.value.code, mm.body.value.locals, [], {})
                  == if FullName(mm.returnType) == VoidName then Some(None)
                     else if mm.returnType.IsValueType() then Some(Some(Value(mm.returnType)))
                     else Some(Some(NullRef)))
  {
    StubReturnsDefault(r.importType(MethodOwner(h), nm.rawReturnType));
  }

  /**
   * A new method's generic parameters: without a container it has none and
   * the registry is unchanged; with one, the registry grows, gains exactly
   * the container's indices, every index of the container is in it with
   * its parameter in the method's list, and that list has no duplicates
   * and names parameters of the registry.
   */
  lemma MethodGenericParamsFacts(g: Registry, h: nat, nm: NativeMethod, r: Reader)
    requires RegistryValid(g)
    ensures var a := MethodGenericParams(g, h, nm, r);
            && RegistryValid(a.registry) && ListValid(a.registry, a.list) && Grows(g, a.registry)
            && (nm.genericContainer.None? ==> a.list == [] && a.registry == g)
            && (nm.genericContainer.Some? ==>
                  var ps := nm.genericContainer.value;
                  && a.registry.byIndex.Keys == g.byIndex.Keys + Indices(ps)
                  && (forall k | 0 <= k < |ps| :: ps[k].index in a.registry.byIndex
                                                && a.registry.byIndex[ps[k].index] in a.list))
  {
    if nm.genericContainer.Some? {
      var ps := nm.genericContainer.value;
      var none: seq<nat> := [];
      AttachAllCheckedSame(g, none, MethodOwner(h), ps, r);
      AttachAllValid(g, none, MethodOwner(h), ps, r);
      AttachAllCovers(g, none, MethodOwner(h), ps, r);
    } else {
      assert ListValid(g, []);
    }
  }

  /**
   * The state after one iteration of `ProcessMethodsInType`, described
   * part by part: the method `mm` is appended at handle `h` and listed by
   * type `t`, the registry becomes `g`, the tables and the method map
   * record the new handle, and the field layouts stay.
   */
  predicate MethodAppended(m: Model, m': Model, t: nat, nm: NativeMethod, mm: ManagedMethod, g: Registry)
    requires t < |m.arena.types|
  {
    var h := |m.arena.methods|;
    var ty := m.arena.types[t];
    && m'.arena.methods == m.arena.methods + [mm]
    && m'.arena.types == m.arena.types[t := ty.(methods := ty.methods + [h])]
    && m'.registry == g
    && m'.tables == RecordSlot(RecordMethod(m.tables, h, nm), h, nm)
    && m'.maps == m.maps.(methods := m.maps.methods[nm.id := h])
    && m'.fieldsByType == m.fieldsByType
  }

  lemma MethodAppendedGenericParams(m: Model, m': Model, t: nat, nm: NativeMethod, mm: ManagedMethod, g: Registry)
    requires t < |m.arena.types| && GenericParamsValid(m) && MethodAppended(m, m', t, nm, mm, g)
    requires RegistryValid(g) && Grows(m.registry, g) && ListValid(g, mm.genericParams)
    ensures GenericParamsValid(m')
  {
    RegistryGrowthKeepsLists(m, g);
    forall k | 0 <= k < |m'.arena.methods|
      ensures ListValid(g, m'.arena.methods[k].genericParams)
    {
      if k < |m.arena.methods| {
        assert m'.arena.methods[k] == m.arena.methods[k];
      }
    }
  }

  lemma MethodAppendedHandles(m: Model, m': Model, t: nat, nm: NativeMethod, mm: ManagedMethod, g: Registry)
    requires t < |m.arena.types| && HandlesValid(m) && MethodAppended(m, m', t, nm, mm, g)
    requires mm.declaringType == t
    ensures HandlesValid(m')
  {
    forall k | 0 <= k < |m'.arena.methods|
      ensures m'.arena.methods[k].declaringType < |m'.arena.types|
    {
      if k < |m.arena.methods| {
        assert m'.arena.methods[k] == m.arena.methods[k];
      }
    }
  }

  /**
   * One iteration of `ProcessMethodsInType` keeps the state well formed:
   * the method made is `MethodRecord` with the list its generic
   * parameters get, and the registry after it is the one they leave.
   */
  lemma MethodStepWellFormed(m: Model, m': Model, t: nat, nm: NativeMethod, r: Reader)
    requires t < |m.arena.types| && WellFormed(m)
    requires var h := |m.arena.methods|;
             var a := MethodGenericParams(m.registry, h, nm, r);
             MethodAppended(m, m', t, nm, MethodRecord(a.list, h, t, nm, m.arena.types[t].baseType, r), a.registry)
    ensures WellFormed(m')
  {
    var h := |m.arena.methods|;
    var a := MethodGenericParams(m.registry, h, nm, r);
    var mm := MethodRecord(a.list, h, t, nm, m.arena.types[t].baseType, r);
    MethodGenericParamsFacts(m.registry, h, nm, r);
    MethodAppendedGenericParams(m, m', t, nm, mm, a.registry);
    MethodAppendedHandles(m, m', t, nm, mm, a.registry);
  }

  // ---------------------------------------------------------------------
  // The whole method pass, part by part

  /** The handles `lo, lo + 1, ..., lo + n - 1`. */
  function Handles(lo: nat, n: nat): (hs: seq<nat>)
    ensures |hs| == n && HandlesBelow(hs, lo + n)
  {
    if n == 0 then [] else Handles(lo, n - 1) + [lo + n - 1]
  }

  lemma {:induction false} HandlesAt(lo: nat, n: nat, k: nat)
    requires k < n
    ensures Handles(lo, n)[k] == lo + k
  {
    if k < n - 1 {
      HandlesAt(lo, n - 1, k);
    }
  }

  /** The method-map entries of the pass: native method id to new handle, in native order. */
  function IdEntries(nt: NativeTypeDef, lo: nat, n: nat): (es: seq<Entry<nat, nat>>)
    requires n <= |nt.methods|
    ensures |es| == n && EntriesBelow(es, lo + n)
  {
    if n == 0 then [] else IdEntries(nt, lo, n - 1) + [Entry(nt.methods[n - 1].id, lo + n - 1)]
  }

  lemma {:induction false} IdEntriesAt(nt: NativeTypeDef, lo: nat, n: nat, k: nat)
    requires k < n <= |nt.methods|
    ensures IdEntries(nt, lo, n)[k] == Entry(nt.methods[k].id, lo + k)
  {
    if k < n - 1 {
      IdEntriesAt(nt, lo, n - 1, k);
    }
  }

  /** The index-table entries of the pass: native method index to new handle, in native order. */
  function IndexEntries(nt: NativeTypeDef, lo: nat, n: nat): (es: seq<Entry<nat, nat>>)
    requires n <= |nt.methods|
    ensures |es| == n && EntriesBelow(es, lo + n)
  {
    if n == 0 then [] else IndexEntries(nt, lo, n - 1) + [Entry(nt.methods[n - 1].methodIndex, lo + n - 1)]
  }

  lemma {:induction false} IndexEntriesAt(nt: NativeTypeDef, lo: nat, n: nat, k: nat)
    requires k < n <= |nt.methods|
    ensures IndexEntries(nt, lo, n)[k] == Entry(nt.methods[k].methodIndex, lo + k)
  {
    if k < n - 1 {
      IndexEntriesAt(nt, lo, n - 1, k);
    }
  }

  /** The address-table entries of the pass: native method pointer to new handle, in native order. */
  function AddressEntries(nt: NativeTypeDef, lo: nat, n: nat): (es: seq<Entry<u64, nat>>)
    requires n <= |nt.methods|
    ensures |es| == n && EntriesBelow(es, lo + n)
  {
    if n == 0 then [] else AddressEntries(nt, lo, n - 1) + [Entry(nt.methods[n - 1].methodPointer, lo + n - 1)]
  }

  lemma {:induction false} AddressEntriesAt(nt: NativeTypeDef, lo: nat, n: nat, k: nat)
    requires k < n <= |nt.methods|
    ensures AddressEntries(nt, lo, n)[k] == Entry(nt.methods[k].methodPointer, lo + k)
  {
    if k < n - 1 {
      AddressEntriesAt(nt, lo, n - 1, k);
    }
  }

  /** The slots written by the first `n` native methods: never `ushort.MaxValue`. */
  function WrittenSlots(nt: NativeTypeDef, n: nat): (ss: set<u16>)
    requires n <= |nt.methods|
    ensures UShortMaxValue !in ss
    ensures forall k | 0 <= k < n && nt.methods[k].slot < UShortMaxValue :: nt.methods[k].slot in ss
  {
    if n == 0 then {}
    else WrittenSlots(nt, n - 1) + (if nt.methods[n - 1].slot < UShortMaxValue then {nt.methods[n - 1].slot} else {})
  }

  /** The slot table after the first `n` iterations. */
  function SlotsAfter(sl: map<u16, nat>, nt: NativeTypeDef, lo: nat, n: nat): map<u16, nat>
    requires n <= |nt.methods|
  {
    if n == 0 then sl
    else
      var prior := SlotsAfter(sl, nt, lo, n - 1);
      if nt.methods[n - 1].slot < UShortMaxValue then prior[nt.methods[n - 1].slot := lo + n - 1] else prior
  }

  /** The slot table only ever gains handles of the pass. */
  lemma {:induction false} SlotsAfterBelow(sl: map<u16, nat>, nt: NativeTypeDef, lo: nat, n: nat)
    requires n <= |nt.methods| && ValuesBelow(sl, lo)
    ensures ValuesBelow(SlotsAfter(sl, nt, lo, n), lo + n)
  {
    if n > 0 {
      SlotsAfterBelow(sl, nt, lo, n - 1);
    }
  }

  /** Native method `k` is the last of the first `n` to write its slot. */
  predicate LastSlotWriter(nt: NativeTypeDef, n: nat, k: nat)
    requires k < n <= |nt.methods|
  {
    nt.methods[k].slot < UShortMaxValue && forall j | k < j < n :: nt.methods[j].slot != nt.methods[k].slot
  }

  /**
   * The slot table after `n` iterations gains exactly the written slots, a
   * slot nobody writes keeps its method, and a written slot names the
   * method made for its last writer.
   */
  lemma {:induction false} SlotsAfterLastWins(sl: map<u16, nat>, nt: NativeTypeDef, lo: nat, n: nat)
    requires n <= |nt.methods|
    ensures var slots := SlotsAfter(sl, nt, lo, n);
            && slots.Keys == sl.Keys + WrittenSlots(nt, n)
            && (forall s | s in sl && s !in WrittenSlots(nt, n) :: slots[s] == sl[s])
            && (forall k | 0 <= k < n && LastSlotWriter(nt, n, k) :: slots[nt.methods[k].slot] == lo + k)
  {
    if n > 0 {
      SlotsAfterLastWins(sl, nt, lo, n - 1);
      forall k | 0 <= k < n - 1 && LastSlotWriter(nt, n, k)
        ensures LastSlotWriter(nt, n - 1, k)
      {
      }
    }
  }

  /**
   * The index and address tables after the `n` methods of a type, the
   * first made at handle `lo`: the old entries are kept, the new keys are
   * the native indices and pointers, and a key new to a table names the
   * method made for the first native method carrying it.
   */
  lemma MethodTablesFirstWins(byIndex: map<nat, nat>, byAddress: map<u64, nat>, nt: NativeTypeDef, lo: nat)
    ensures var n := |nt.methods|;
            var ix := IndexEntries(nt, lo, n);
            var ad := AddressEntries(nt, lo, n);
            var bi := TryAddAll(byIndex, ix);
            var ba := TryAddAll(byAddress, ad);
            && bi.Keys == byIndex.Keys + Keys(ix)
            && ba.Keys == byAddress.Keys + Keys(ad)
            && (forall i | i in byIndex :: bi[i] == byIndex[i])
            && (forall a | a in byAddress :: ba[a] == byAddress[a])
            && (forall k | 0 <= k < n && nt.methods[k].methodIndex !in byIndex && FirstWithKey(ix, k)
                  :: nt.methods[k].methodIndex in bi && bi[nt.methods[k].methodIndex] == lo + k)
            && (forall k | 0 <= k < n && nt.methods[k].methodPointer !in byAddress && FirstWithKey(ad, k)
                  :: nt.methods[k].methodPointer in ba && ba[nt.methods[k].methodPointer] == lo + k)
  {
    var n := |nt.methods|;
    TryAddAllFirstWins(byIndex, IndexEntries(nt, lo, n));
    TryAddAllFirstWins(byAddress, AddressEntries(nt, lo, n));
    forall k | 0 <= k < n
      ensures IndexEntries(nt, lo, n)[k] == Entry(nt.methods[k].methodIndex, lo + k)
      ensures AddressEntries(nt, lo, n)[k] == Entry(nt.methods[k].methodPointer, lo + k)
    {
      IndexEntriesAt(nt, lo, n, k);
      AddressEntriesAt(nt, lo, n, k);
    }
  }

  /** The registry after the first `n` iterations of `ProcessMethodsInType`, the first method made at handle `lo`. */
  function RegistryAfter(g: Registry, lo: nat, nt: NativeTypeDef, n: nat, r: Reader): Registry
    requires n <= |nt.methods|
  {
    if n == 0 then g
    else MethodGenericParams(RegistryAfter(g, lo, nt, n - 1, r), lo + n - 1, nt.methods[n - 1], r).registry
  }

  /** The method iteration `k` makes: `MethodRecord` with the list its generic parameters get from the registry the first `k` iterations left. */
  function MethodMade(g: Registry, lo: nat, t: nat, nt: NativeTypeDef, baseType: Option<TypeRef>, k: nat, r: Reader): ManagedMethod
    requires k < |nt.methods|
  {
    MethodRecord(MethodGenericParams(RegistryAfter(g, lo, nt, k, r), lo + k, nt.methods[k], r).list, lo + k, t, nt.methods[k], baseType, r)
  }

  /**
   * The methods made by the first `n` iterations: the `k`-th is
   * `MethodRecord` with the list its generic parameters get from the
   * registry the earlier iterations left.
   */
  function MethodsMade(g: Registry, lo: nat, t: nat, nt: NativeTypeDef, baseType: Option<TypeRef>, n: nat, r: Reader): (ms: seq<ManagedMethod>)
    requires n <= |nt.methods|
    ensures |ms| == n
  {
    if n == 0 then []
    else MethodsMade(g, lo, t, nt, baseType, n - 1, r) + [MethodMade(g, lo, t, nt, baseType, n - 1, r)]
  }

  /** The type list after `n` iterations: type `t` lists the handles of the methods made, in order. */
  predicate TypesListed(types0: seq<ManagedType>, t: nat, lo: nat, n: nat, types: seq<ManagedType>)
    requires t < |types0|
  {
    types == types0[t := types0[t].(methods := types0[t].methods + Handles(lo, n))]
  }

  /** The arena after `n` iterations: it gains the methods made, in order. */
  predicate ArenaExtended(methods0: seq<ManagedMethod>, g0: Registry, lo: nat, t: nat, nt: NativeTypeDef,
                          baseType: Option<TypeRef>, n: nat, r: Reader, methods: seq<ManagedMethod>)
    requires n <= |nt.methods|
  {
    methods == methods0 + MethodsMade(g0, lo, t, nt, baseType, n, r)
  }

  /** The tables after `n` iterations: first entry per key by index and by address, last per slot. */
  predicate TablesRecorded(tables0: MethodTables, nt: NativeTypeDef, lo: nat, n: nat, tables: MethodTables)
    requires n <= |nt.methods|
  {
    tables == MethodTables(TryAddAll(tables0.byIndex, IndexEntries(nt, lo, n)),
                           TryAddAll(tables0.byAddress, AddressEntries(nt, lo, n)),
                           SlotsAfter(tables0.bySlot, nt, lo, n))
  }

  /** The native maps after `n` iterations: the method map gains the identifiers, the last write per identifier winning. */
  predicate MapsRecorded(maps0: NativeMaps, nt: NativeTypeDef, lo: nat, n: nat, maps: NativeMaps)
    requires n <= |nt.methods|
  {
    maps == maps0.(methods := SetAll(maps0.methods, IdEntries(nt, lo, n)))
  }

  /** The `k`-th method made is the record for native method `k`, with the list the registry left by the first `k` gives it. */
  lemma {:induction false} MethodsMadeAt(g: Registry, lo: nat, t: nat, nt: NativeTypeDef, baseType: Option<TypeRef>, n: nat, r: Reader, k: nat)
    requires k < n <= |nt.methods|
    ensures MethodsMade(g, lo, t, nt, baseType, n, r)[k] == MethodMade(g, lo, t, nt, baseType, k, r)
  {
    if k < n - 1 {
      MethodsMadeAt(g, lo, t, nt, baseType, n - 1, r, k);
      assert MethodsMade(g, lo, t, nt, baseType, n, r)[k] == MethodsMade(g, lo, t, nt, baseType, n - 1, r)[k];
    }
  }

  /**
   * The state after the first `n` iterations of `ProcessMethodsInType` on
   * type `t`, from the state `m0`: the arena gains the methods made, the
   * type lists their handles in order, the registry is the one they leave,
   * the index and address tables keep their first entry per key, the slot
   * table and the method map their last, and nothing else changes.
   */
  ghost predicate MethodsAdded(m0: Model, t: nat, nt: NativeTypeDef, n: nat, r: Reader, m: Model)
    requires t < |m0.arena.types| && n <= |nt.methods|
  {
    var lo := |m0.arena.methods|;
    && TypesListed(m0.arena.types, t, lo, n, m.arena.types)
    && ArenaExtended(m0.arena.methods, m0.registry, lo, t, nt, m0.arena.types[t].baseType, n, r, m.arena.methods)
    && m.registry == RegistryAfter(m0.registry, lo, nt, n, r)
    && TablesRecorded(m0.tables, nt, lo, n, m.tables)
    && MapsRecorded(m0.maps, nt, lo, n, m.maps)
    && m.fieldsByType == m0.fieldsByType
  }

  /** No iteration yet: the state is the one the pass started from. */
  lemma MethodsAddedStart(m0: Model, t: nat, nt: NativeTypeDef, r: Reader)
    requires t < |m0.arena.types|
    ensures MethodsAdded(m0, t, nt, 0, r, m0)
  {
    var ty := m0.arena.types[t];
    assert ty.(methods := ty.methods + Handles(|m0.arena.methods|, 0)) == ty;
    assert m0.arena.methods + MethodsMade(m0.registry, |m0.arena.methods|, t, nt, ty.baseType, 0, r) == m0.arena.methods;
  }

  /** One more iteration, on the type list: the type lists one more handle. */
  lemma TypesStep(types0: seq<ManagedType>, types: seq<ManagedType>, types': seq<ManagedType>, t: nat, lo: nat, n: nat)
    requires t < |types0| && TypesListed(types0, t, lo, n, types)
    requires types' == types[t := types[t].(methods := types[t].methods + [lo + n])]
    ensures TypesListed(types0, t, lo, n + 1, types')
  {
    assert types0[t].methods + Handles(lo, n + 1) == types0[t].methods + Handles(lo, n) + [lo + n];
  }

  /** One more iteration, on the arena: the method appended is the next one `MethodsMade` lists. */
  lemma MadeStep(methods0: seq<ManagedMethod>, methods: seq<ManagedMethod>, methods': seq<ManagedMethod>,
                 g0: Registry, g: Registry, lo: nat, t: nat, nt: NativeTypeDef, baseType: Option<TypeRef>, n: nat, r: Reader)
    requires n < |nt.methods|
    requires g == RegistryAfter(g0, lo, nt, n, r)
    requires ArenaExtended(methods0, g0, lo, t, nt, baseType, n, r, methods)
    requires methods' == methods + [MethodRecord(MethodGenericParams(g, lo + n, nt.methods[n], r).list, lo + n, t, nt.methods[n], baseType, r)]
    ensures ArenaExtended(methods0, g0, lo, t, nt, baseType, n + 1, r, methods')
  {
    var made := MethodsMade(g0, lo, t, nt, baseType, n, r);
    var mm := MethodRecord(MethodGenericParams(g, lo + n, nt.methods[n], r).list, lo + n, t, nt.methods[n], baseType, r);
    assert MethodsMade(g0, lo, t, nt, baseType, n + 1, r) == made + [mm];
    assert methods0 + made + [mm] == methods0 + (made + [mm]);
  }

  /** One more iteration, on the tables: the index and address tables try one more entry, the slot table may take one. */
  lemma TablesStep(tables0: MethodTables, tables: MethodTables, tables': MethodTables, nt: NativeTypeDef, lo: nat, n: nat)
    requires n < |nt.methods| && TablesRecorded(tables0, nt, lo, n, tables)
    requires tables' == RecordSlot(RecordMethod(tables, lo + n, nt.methods[n]), lo + n, nt.methods[n])
    ensures TablesRecorded(tables0, nt, lo, n + 1, tables')
  {
    var nm := nt.methods[n];
    TryAddAllStep(tables0.byIndex, IndexEntries(nt, lo, n), Entry(nm.methodIndex, lo + n));
    TryAddAllStep(tables0.byAddress, AddressEntries(nt, lo, n), Entry(nm.methodPointer, lo + n));
  }

  /** One more iteration, on the native maps: one more method identifier maps to its handle. */
  lemma MapsStep(maps0: NativeMaps, maps: NativeMaps, maps': NativeMaps, nt: NativeTypeDef, lo: nat, n: nat)
    requires n < |nt.methods| && MapsRecorded(maps0, nt, lo, n, maps)
    requires maps' == maps.(methods := maps.methods[nt.methods[n].id := lo + n])
    ensures MapsRecorded(maps0, nt, lo, n + 1, maps')
  {
    SetAllStep(maps0.methods, IdEntries(nt, lo, n), Entry(nt.methods[n].id, lo + n));
  }

  /** One more iteration: the state `m'` one method past `m` is the state after `n + 1` iterations. */
  lemma MethodsAddedStep(m0: Model, t: nat, nt: NativeTypeDef, n: nat, r: Reader, m: Model, m': Model)
    requires t < |m0.arena.types| && n < |nt.methods| && MethodsAdded(m0, t, nt, n, r, m)
    requires t < |m.arena.types|
    requires var h := |m.arena.methods|;
             var a := MethodGenericParams(m.registry, h, nt.methods[n], r);
             MethodAppended(m, m', t, nt.methods[n], MethodRecord(a.list, h, t, nt.methods[n], m.arena.types[t].baseType, r), a.registry)
    ensures MethodsAdded(m0, t, nt, n + 1, r, m')
  {
    var lo := |m0.arena.methods|;
    var ty := m0.arena.types[t];
    assert |m.arena.methods| == lo + n;
    assert m.arena.types[t].baseType == ty.baseType;
    TypesStep(m0.arena.types, m.arena.types, m'.arena.types, t, lo, n);
    MadeStep(m0.arena.methods, m.arena.methods, m'.arena.methods, m0.registry, m.registry, lo, t, nt, ty.baseType, n, r);
    TablesStep(m0.tables, m.tables, m'.tables, nt, lo, n);
    MapsStep(m0.maps, m.maps, m'.maps, nt, lo, n);
  }

  /**
   * After `n` iterations, the arena keeps its old methods, and native
   * method `k` is the method at handle `lo + k`, built by `MethodRecord`
   * with the generic parameters its container attaches to the registry the
   * first `k` left.
   */
  lemma ExtendedAt(methods0: seq<ManagedMethod>, g0: Registry, t: nat, nt: NativeTypeDef,
                   baseType: Option<TypeRef>, n: nat, r: Reader, methods: seq<ManagedMethod>, k: nat)
    requires k < n <= |nt.methods| && ArenaExtended(methods0, g0, |methods0|, t, nt, baseType, n, r, methods)
    ensures |methods| == |methods0| + n && methods[..|methods0|] == methods0
    ensures methods[|methods0| + k]
            == MethodRecord(MethodGenericParams(RegistryAfter(g0, |methods0|, nt, k, r), |methods0| + k, nt.methods[k], r).list,
                            |methods0| + k, t, nt.methods[k], baseType, r)
  {
    var made := MethodsMade(g0, |methods0|, t, nt, baseType, n, r);
    MethodsMadeAt(g0, |methods0|, t, nt, baseType, n, r, k);
    assert methods[|methods0| + k] == made[k];
    assert methods[..|methods0|] == methods0;
  }

  /** After `n` iterations, type `t` lists the handle `lo + k` of native method `k` after its earlier methods. */
  lemma ListedAt(types0: seq<ManagedType>, t: nat, lo: nat, n: nat, types: seq<ManagedType>, k: nat)
    requires t < |types0| && k < n && TypesListed(types0, t, lo, n, types)
    ensures |types| == |types0| && |types[t].methods| == |types0[t].methods| + n
    ensures types[t].methods[|types0[t].methods| + k] == lo + k
  {
    HandlesAt(lo, n, k);
  }

  /** After the whole pass, the method map sends the id of native method `k` to its handle, unless a later one reuses the id. */
  lemma MethodsAddedMapped(m0: Model, t: nat, nt: NativeTypeDef, r: Reader, m: Model, k: nat)
    requires t < |m0.arena.types| && k < |nt.methods| && MethodsAdded(m0, t, nt, |nt.methods|, r, m)
    requires forall j | k < j < |nt.methods| :: nt.methods[j].id != nt.methods[k].id
    ensures nt.methods[k].id in m.maps.methods && m.maps.methods[nt.methods[k].id] == |m0.arena.methods| + k
  {
    var lo := |m0.arena.methods|;
    var n := |nt.methods|;
    var ids := IdEntries(nt, lo, n);
    SetAllLastWins(m0.maps.methods, ids);
    IdEntriesAt(nt, lo, n, k);
    forall j | k < j < n
      ensures ids[j].key != ids[k].key
    {
      IdEntriesAt(nt, lo, n, j);
    }
    assert LastWithKey(ids, k);
  }

  // ---------------------------------------------------------------------
  // The method pass as a value

  /** The state after the whole of `ProcessMethodsInType` on type `t`, part by part as `MethodsAdded` describes it. */
  function MethodsThrough(m0: Model, t: nat, nt: NativeTypeDef, r: Reader): (m: Model)
    requires t < |m0.arena.types|
    ensures |m.arena.types| == |m0.arena.types| && m.maps.types == m0.maps.types
    ensures |m.arena.methods| == |m0.arena.methods| + |nt.methods|
  {
    var lo := |m0.arena.methods|;
    var n := |nt.methods|;
    var ty := m0.arena.types[t];
    Model(Arena(m0.arena.types[t := ty.(methods := ty.methods + Handles(lo, n))],
                m0.arena.methods + MethodsMade(m0.registry, lo, t, nt, ty.baseType, n, r)),
          RegistryAfter(m0.registry, lo, nt, n, r),
          MethodTables(TryAddAll(m0.tables.byIndex, IndexEntries(nt, lo, n)),
                       TryAddAll(m0.tables.byAddress, AddressEntries(nt, lo, n)),
                       SlotsAfter(m0.tables.bySlot, nt, lo, n)),
          m0.maps.(methods := SetAll(m0.maps.methods, IdEntries(nt, lo, n))),
          m0.fieldsByType)
  }

  /** `MethodsAdded` after the whole pass holds of exactly one state, the one `MethodsThrough` gives. */
  lemma MethodsAddedThrough(m0: Model, t: nat, nt: NativeTypeDef, r: Reader, m: Model)
    requires t < |m0.arena.types|
    ensures MethodsAdded(m0, t, nt, |nt.methods|, r, m) <==> m == MethodsThrough(m0, t, nt, r)
  {
  }

  /** The pass only adds handles of the methods it makes to the method map, so the map keeps pointing into the arena. */
  lemma MethodsThroughMapped(m0: Model, t: nat, nt: NativeTypeDef, r: Reader)
    requires t < |m0.arena.types| && ValuesBelow(m0.maps.methods, |m0.arena.methods|)
    ensures ValuesBelow(MethodsThrough(m0, t, nt, r).maps.methods, |m0.arena.methods| + |nt.methods|)
  {
    var lo := |m0.arena.methods|;
    var n := |nt.methods|;
    SetAllBelow(m0.maps.methods, IdEntries(nt, lo, n), lo + n);
  }

  /** A type's identity: what the exception that wraps a failure names it by. */
  predicate SameIdentity(a: ManagedType, b: ManagedType)
  {
    a.ns == b.ns && a.name == b.name && a.moduleName == b.moduleName && a.declaringType == b.declaringType
  }

  /** The pass changes only the method list of type `t`: every type keeps its name and scope. */
  lemma MethodsThroughKeepsIdentity(m0: Model, t: nat, nt: NativeTypeDef, r: Reader, u: nat)
    requires t < |m0.arena.types| && u < |m0.arena.types|
    ensures SameIdentity(MethodsThrough(m0, t, nt, r).arena.types[u], m0.arena.types[u])
  {
  }
}
