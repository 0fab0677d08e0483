/**
 * The population steps of `AssemblyPopulator`, as methods that update the
 * shared reconstruction state in place. Each step is proved to leave the
 * state the pure step of `TypeContents` describes.
 */
module AssemblyPopulator {
  import opened Types
  import opened MethodBodies
  import opened FieldLayout
  import opened Metadata
  import opened GenericParams
  import opened Tables
  import opened TypeContents
  import opened Properties
  import opened Overrides
  import opened Assembly

  /**
   * The managed definitions being rebuilt and the shared dictionaries:
   * generic parameters by native index, methods by index, pointer and
   * slot, native-to-managed maps and each type's field layout.
   */
  class SharedState {
    var arena: Arena
    var registry: Registry
    var tables: MethodTables
    var maps: NativeMaps
    var fieldsByType: map<nat, seq<FieldInType>>

    /** The state as a value. */
    function Snapshot(): Model
      reads this
    {
      Model(arena, registry, tables, maps, fieldsByType)
    }

    predicate Valid()
      reads this
    {
      WellFormed(Snapshot())
    }

    constructor (m: Model)
      ensures Snapshot() == m
    {
      arena := m.arena;
      registry := m.registry;
      tables := m.tables;
      maps := m.maps;
      fieldsByType := m.fieldsByType;
    }

    // -------------------------------------------------------------------
    // Hierarchy

    /** `PopulateGenericParamsForType`: lookup-or-create per native index, on the type path. */
    method PopulateGenericParamsForType(t: nat, nt: NativeTypeDef, r: Reader)
      requires t < |arena.types|
      modifies this
      ensures Snapshot() == PopulateGenericParams(old(Snapshot()), t, nt, r)
    {
      if nt.genericContainer.None? {
        return;
      }
      var list;
      registry, list := AttachParams(registry, arena.types[t].genericParams, TypeOwner(t), nt.genericContainer.value, r);
      arena := arena.(types := arena.types[t := arena.types[t].(genericParams := list)]);
    }

    /** One type of `ConfigureHierarchy`: generic parameters, base type, interfaces. */
    method ConfigureType(t: nat, nt: NativeTypeDef, r: Reader)
      requires t < |arena.types|
      modifies this
      ensures Snapshot() == TypeContents.ConfigureType(old(Snapshot()), t, nt, r)
    {
      PopulateGenericParamsForType(t, nt, r);
      if nt.rawBase.Some? {
        arena := arena.(types := arena.types[t := arena.types[t].(baseType := Some(r.importType(TypeOwner(t), nt.rawBase.value)))]);
      }
      var ty := AddInterfaces(arena.types[t], t, nt.rawInterfaces, r);
      arena := arena.(types := arena.types[t := ty]);
    }

    /** `ConfigureHierarchy`: every managed type with its native definition, in order. */
    method ConfigureHierarchy(pairs: seq<TypePair>, r: Reader)
      requires PairsIn(Snapshot(), pairs)
      modifies this
      ensures Snapshot() == TypeContents.ConfigureHierarchy(old(Snapshot()), pairs, r)
    {
      var i := 0;
      while i < |pairs|
        invariant 0 <= i <= |pairs| && |arena.types| == old(|arena.types|)
        invariant Snapshot() == TypeContents.ConfigureHierarchy(old(Snapshot()), pairs[..i], r)
      {
        ConfigureType(pairs[i].handle, pairs[i].native, r);
        assert pairs[..i + 1][..i] == pairs[..i];
        i := i + 1;
      }
      assert pairs[..i] == pairs;
    }

    // -------------------------------------------------------------------
    // Fields

    /**
     * `ProcessFieldsInType`: each native field is added to the type and
     * mapped, its layout entry is collected with the 0-based counter, and
     * the collected layout is stored sorted by offset.
     */
    method ProcessFieldsInType(t: nat, nt: NativeTypeDef, r: Reader)
      requires t < |arena.types|
      modifies this
      ensures Snapshot() == ProcessFields(old(Snapshot()), t, nt, r)
    {
      var ty, fieldMap, fields := AddFields(arena.types[t], maps.fields, t, nt, r);
      arena := arena.(types := arena.types[t := ty]);
      maps := maps.(fields := fieldMap);
      fieldsByType := fieldsByType[t := SortByOffset(fields)];
    }

    // -------------------------------------------------------------------
    // Methods

    /**
     * The generic parameters of the new method at handle `h`:
     * lookup-or-create per native index, on the method path. Returns the
     * method's list.
     */
    method AddMethodGenericParams(h: nat, nm: NativeMethod, r: Reader) returns (list: seq<nat>)
      modifies this
      ensures Attached(registry, list) == MethodGenericParams(old(registry), h, nm, r)
      ensures arena == old(arena) && tables == old(tables) && maps == old(maps) && fieldsByType == old(fieldsByType)
    {
      list := [];
      if nm.genericContainer.None? {
        return;
      }
      registry, list := AttachParamsChecked(registry, list, MethodOwner(h), nm.genericContainer.value, r);
    }

    /**
     * One iteration of `ProcessMethodsInType` up to the append, in the
     * order the source takes its steps: the method at handle `h` is mapped,
     * gets its generic parameters, return type, stub body, table entries
     * and parameters. The method being built is a local value; nothing in
     * between reads it from the type.
     */
    method MakeMethod(t: nat, h: nat, nm: NativeMethod, r: Reader) returns (mm: ManagedMethod)
      requires t < |arena.types|
      modifies this
      ensures arena == old(arena) && fieldsByType == old(fieldsByType)
      ensures var a := MethodGenericParams(old(registry), h, nm, r);
              mm == MethodRecord(a.list, h, t, nm, arena.types[t].baseType, r) && registry == a.registry
      ensures tables == RecordSlot(RecordMethod(old(tables), h, nm), h, nm)
      ensures maps == old(maps).(methods := old(maps).methods[nm.id := h])
    {
      var ty := arena.types[t];
      mm := ManagedMethod(nm.name, nm.flags, t, VoidType, [], [], None, []);
      maps := maps.(methods := maps.methods[nm.id := h]);
      var genericParams := AddMethodGenericParams(h, nm, r);
      mm := mm.(genericParams := genericParams);
      var returnType := r.importType(MethodOwner(h), nm.rawReturnType);
      mm := mm.(returnType := returnType);
      if HasBody(nm.flags) && (ty.baseType.None? || FullName(ty.baseType.value) != MulticastDelegateName) {
        mm := FillMethodBodyWithStub(mm);
      }
      assert mm == ManagedMethod(nm.name, nm.flags, t, returnType, genericParams, [], StubFor(nm.flags, ty.baseType, returnType), []);
      tables := tables.(byIndex := TryAdd(tables.byIndex, nm.methodIndex, h),
                        byAddress := TryAdd(tables.byAddress, nm.methodPointer, h));
      mm := HandleMethodParameters(mm, h, nm, r);
      if nm.slot < UShortMaxValue {
        tables := tables.(bySlot := tables.bySlot[nm.slot := h]);
      }
      assert mm == MethodRecord(genericParams, h, t, nm, ty.baseType, r) by {
        assert [] + AddedParameters(r, h, nm.parameters, |nm.parameters|) == AddedParameters(r, h, nm.parameters, |nm.parameters|);
      }
    }

    /** One iteration of `ProcessMethodsInType`: the method made is appended at the next handle and listed by type `t`. */
    method ProcessMethod(t: nat, nm: NativeMethod, r: Reader) returns (h: nat)
      requires t < |arena.types|
      modifies this
      ensures h == old(|arena.methods|)
      ensures var a := MethodGenericParams(old(registry), h, nm, r);
              MethodAppended(old(Snapshot()), Snapshot(), t, nm, MethodRecord(a.list, h, t, nm, old(arena.types[t].baseType), r), a.registry)
      ensures old(Valid()) ==> Valid()
    {
      ghost var m0 := Snapshot();
      h := |arena.methods|;
      var mm := MakeMethod(t, h, nm, r);
      var ty := arena.types[t];
      arena := Arena(arena.types[t := ty.(methods := ty.methods + [h])], arena.methods + [mm]);
      if WellFormed(m0) {
        MethodStepWellFormed(m0, Snapshot(), t, nm, r);
      }
    }

    /**
     * `ProcessMethodsInType`: the native methods in order, each made by
     * `ProcessMethod` at the next handle; the state after them is the one
     * `MethodsAdded` describes.
     */
    method ProcessMethodsInType(t: nat, nt: NativeTypeDef, r: Reader)
      requires t < |arena.types|
      modifies this
      ensures MethodsAdded(old(Snapshot()), t, nt, |nt.methods|, r, Snapshot())
      ensures Snapshot() == MethodsThrough(old(Snapshot()), t, nt, r)
      ensures old(Valid()) ==> Valid()
    {
      ghost var m0 := Snapshot();
      MethodsAddedStart(m0, t, nt, r);
      var i := 0;
      while i < |nt.methods|
        invariant 0 <= i <= |nt.methods| && t < |arena.types|
        invariant MethodsAdded(m0, t, nt, i, r, Snapshot())
        invariant WellFormed(m0) ==> WellFormed(Snapshot())
      {
        ghost var before := Snapshot();
        var h := ProcessMethod(t, nt.methods[i], r);
        MethodsAddedStep(m0, t, nt, i, r, before, Snapshot());
        i := i + 1;
      }
      MethodsAddedThrough(m0, t, nt, r, Snapshot());
    }

    // -------------------------------------------------------------------
    // Properties

    /**
     * `ProcessPropertiesInType`: each native property in turn gets its
     * accessors and type, is added to the type and mapped; the first
     * property that cannot be made throws, with the ones before it kept.
     */
    method ProcessPropertiesInType(t: nat, nt: NativeTypeDef) returns (err: Option<Error>)
      requires t < |arena.types| && ValuesBelow(maps.methods, |arena.methods|)
      modifies this
      ensures (Snapshot(), err) == AddProperties(old(Snapshot()), t, nt.properties, |nt.properties|)
      ensures old(Valid()) ==> Valid()
    {
      ghost var m0 := Snapshot();
      if WellFormed(m0) {
        AddPropertiesWellFormed(m0, t, nt.properties, |nt.properties|);
      }
      var i: nat := 0;
      err := None;
      while i < |nt.properties| && err.None?
        invariant i <= |nt.properties|
        invariant err.None? ==> PropertiesThrough(m0, t, nt.properties, i, Snapshot())
        invariant err.Some? ==> (Snapshot(), err) == AddProperties(m0, t, nt.properties, |nt.properties|)
      {
        var p := nt.properties[i];
        ghost var before := Snapshot();
        AddPropertiesNext(m0, t, nt.properties, i, before);
        var pd := PropertyOf(arena.methods, maps.methods, p);
        if pd.Err? {
          err := Some(pd.error);
        } else {
          var ty := arena.types[t];
          arena := arena.(types := arena.types[t := ty.(properties := ty.properties + [pd.value])]);
          maps := maps.(properties := maps.properties[p.id := PropertyHandle(t, |ty.properties|)]);
          assert Snapshot() == AddProperty(before, t, p.id, pd.value);
        }
        i := i + 1;
      }
    }

    // -------------------------------------------------------------------
    // One type

    /**
     * `CopyIl2CppDataToManagedType`, without attributes and events: the
     * fields, the methods and the properties of the managed type at handle
     * `t`, in that order.
     */
    method CopyIl2CppDataToManagedType(t: nat, nt: NativeTypeDef, r: Reader) returns (err: Option<Error>)
      requires t < |arena.types| && MapsBelow(Snapshot())
      modifies this
      ensures (Snapshot(), err) == CopyData(old(Snapshot()), t, nt, r)
      ensures old(Valid()) ==> Valid()
    {
      ghost var m0 := Snapshot();
      if WellFormed(m0) {
        ProcessFieldsWellFormed(m0, t, nt, r);
      }
      ProcessFieldsInType(t, nt, r);
      ghost var withFields := Snapshot();
      MethodsThroughMapped(withFields, t, nt, r);
      ProcessMethodsInType(t, nt, r);
      assert Snapshot() == MembersAdded(m0, t, nt, r);
      err := ProcessPropertiesInType(t, nt);
    }

    /**
     * `FixupExplicitOverridesInType`: a compiler-generated type has its
     * interfaces classified and the iterator rules run over its
     * methods, and a generic enumerator interface ends the fixup there;
     * otherwise the async and general rules run over the methods.
     */
    method FixupExplicitOverridesInType(t: nat, rs: Resolver) returns (err: Option<Error>)
      requires t < |arena.types|
      requires forall k | 0 <= k < |arena.types[t].methods| :: arena.types[t].methods[k] < |arena.methods|
      modifies this
      ensures (Snapshot(), err) == Fixup(old(Snapshot()), t, rs)
      ensures old(Valid()) ==> Valid()
    {
      ghost var m0 := Snapshot();
      if WellFormed(m0) {
        FixupWellFormed(m0, t, rs);
      }
      var ty := arena.types[t];
      var generated := StartsWith(ty.name, "<");
      if generated {
        var c := ClassifyInterfaces(ty.interfaces);
        if c.Err? {
          return Some(c.error);
        }
        var ms, e := ApplyPass(PassEdges(rs, t, IteratorPass(c.value)), arena.methods, ty.methods);
        arena := arena.(methods := ms);
        if e.Some? || c.value.enumeratorGeneric.Some? {
          return e;
        }
      }
      var ms, e := ApplyPass(PassEdges(rs, t, GeneralPass(generated, ty.interfaces)), arena.methods, ty.methods);
      arena := arena.(methods := ms);
      err := e;
    }

    // -------------------------------------------------------------------
    // One image

    /**
     * One native type of `PopulateStubTypesInAssembly`: its managed type is
     * looked up, and a missing one throws as it is; a failed copy is
     * wrapped with the type's name, module and declaring type and the
     * image's name.
     */
    method PopulateStubType(image: Image, nt: NativeTypeDef, r: Reader) returns (err: Option<Error>)
      requires MapsBelow(Snapshot())
      modifies this
      ensures (Snapshot(), err) == StubStep(old(Snapshot()), image, nt, r)
    {
      if nt.id !in maps.types {
        return Some(UnmappedType(nt.id));
      }
      var t := maps.types[nt.id];
      var e := CopyIl2CppDataToManagedType(t, nt, r);
      if e.Some? {
        var ty := arena.types[t];
        return Some(TypeFailure(TypeFullName(ty), ty.moduleName, ty.declaringType, image.name, e.value));
      }
      err := None;
    }

    /** `PopulateStubTypesInAssembly`: every native type of the image, in order, until one throws. */
    method PopulateStubTypesInAssembly(image: Image, r: Reader) returns (err: Option<Error>)
      requires MapsBelow(Snapshot())
      modifies this
      ensures (Snapshot(), err) == PopulateStubs(old(Snapshot()), image, |image.types|, r)
    {
      ghost var m0 := Snapshot();
      var i: nat := 0;
      err := None;
      while i < |image.types| && err.None?
        invariant i <= |image.types|
        invariant err.None? ==> StubsThrough(m0, image, i, r, Snapshot())
        invariant err.Some? ==> (Snapshot(), err) == PopulateStubs(m0, image, |image.types|, r)
      {
        ghost var before := Snapshot();
        err := PopulateStubType(image, image.types[i], r);
        PopulateStubsNext(m0, image, i, r, before, Snapshot(), err);
        i := i + 1;
      }
    }

    /** One native type of `FixupExplicitOverridesInAssembly`: its managed type is looked up and fixed up, nothing wrapped. */
    method FixupType(nt: NativeTypeDef, rs: Resolver) returns (err: Option<Error>)
      requires FixupReady(Snapshot())
      modifies this
      ensures (Snapshot(), err) == FixupStep(old(Snapshot()), nt, rs)
    {
      if nt.id !in maps.types {
        return Some(UnmappedType(nt.id));
      }
      err := FixupExplicitOverridesInType(maps.types[nt.id], rs);
    }

    /** `FixupExplicitOverridesInAssembly`: every native type of the image, in order, until one throws. */
    method FixupExplicitOverridesInAssembly(image: Image, rs: Resolver) returns (err: Option<Error>)
      requires FixupReady(Snapshot())
      modifies this
      ensures (Snapshot(), err) == FixupAll(old(Snapshot()), image, |image.types|, rs)
      ensures old(Valid()) ==> Valid()
    {
      ghost var m0 := Snapshot();
      FixupAllFrame(m0, image, |image.types|, rs);
      var i := 0;
      err := None;
      while i < |image.types| && err.None?
        invariant 0 <= i <= |image.types|
        invariant err.None? ==> (Snapshot(), None) == FixupAll(m0, image, i, rs)
        invariant err.Some? ==> (Snapshot(), err) == FixupAll(m0, image, |image.types|, rs)
      {
        ghost var before := Snapshot();
        err := FixupType(image.types[i], rs);
        FixupAllNext(m0, image, i, rs, before, Snapshot(), err);
        i := i + 1;
      }
    }
  }

  /** The interface loop of `ConfigureHierarchy`: each native interface, imported in the scope of type `t`, in order. */
  method AddInterfaces(ty0: ManagedType, t: nat, raws: seq<RawType>, r: Reader) returns (ty: ManagedType)
    ensures ty == ty0.(interfaces := ty0.interfaces + ImportAll(r, TypeOwner(t), raws))
  {
    ty := ty0;
    var i := 0;
    while i < |raws|
      invariant 0 <= i <= |raws|
      invariant ty == ty0.(interfaces := ty0.interfaces + ImportAll(r, TypeOwner(t), raws[..i]))
    {
      ty := ty.(interfaces := ty.interfaces + [r.importType(TypeOwner(t), raws[i])]);
      assert raws[..i + 1][..i] == raws[..i];
      i := i + 1;
    }
    assert raws[..i] == raws;
  }

  /**
   * The lookup-or-create loop over a type's generic container: each native
   * index reuses the registered parameter or registers a new one.
   */
  method AttachParams(g: Registry, list: seq<nat>, o: Owner, ps: seq<NativeGenericParam>, r: Reader)
    returns (g': Registry, list': seq<nat>)
    ensures Attached(g', list') == AttachAll(g, list, o, ps, r)
  {
    g', list' := g, list;
    var i := 0;
    while i < |ps|
      invariant 0 <= i <= |ps|
      invariant Attached(g', list') == AttachAll(g, list, o, ps[..i], r)
    {
      g', list' := AttachParam(g', list', o, ps[i], r);
      AttachAllStep(g, list, o, ps, i, r);
      i := i + 1;
    }
    assert ps[..i] == ps;
  }

  /** One index of a type's container: a new parameter joins the list unconditionally. */
  method AttachParam(g: Registry, list: seq<nat>, o: Owner, p: NativeGenericParam, r: Reader)
    returns (g': Registry, list': seq<nat>)
    ensures Attached(g', list') == Attach(g, list, o, p, r)
  {
    g', list' := g, list;
    if p.index !in g.byIndex {
      var h := |g.params|;
      g' := Registry(g.params + [NewParam(o, p, r)], g.byIndex[p.index := h]);
      list' := list + [h];
    } else if g.byIndex[p.index] !in list {
      list' := list + [g.byIndex[p.index]];
    }
  }

  /**
   * The same loop over a method's generic container, where a newly
   * registered parameter is also checked against the list before it is added.
   */
  method AttachParamsChecked(g: Registry, list: seq<nat>, o: Owner, ps: seq<NativeGenericParam>, r: Reader)
    returns (g': Registry, list': seq<nat>)
    ensures Attached(g', list') == AttachAllChecked(g, list, o, ps, r)
  {
    g', list' := g, list;
    var i := 0;
    while i < |ps|
      invariant 0 <= i <= |ps|
      invariant Attached(g', list') == AttachAllChecked(g, list, o, ps[..i], r)
    {
      g', list' := AttachParamChecked(g', list', o, ps[i], r);
      AttachAllStep(g, list, o, ps, i, r);
      i := i + 1;
    }
    assert ps[..i] == ps;
  }

  /** One index of a method's container: every addition to the list is checked. */
  method AttachParamChecked(g: Registry, list: seq<nat>, o: Owner, p: NativeGenericParam, r: Reader)
    returns (g': Registry, list': seq<nat>)
    ensures Attached(g', list') == AttachChecked(g, list, o, p, r)
  {
    g', list' := g, list;
    if p.index in g.byIndex {
      var gp := g.byIndex[p.index];
      if gp !in list {
        list' := list + [gp];
      }
    } else {
      var gp := |g.params|;
      g' := Registry(g.params + [NewParam(o, p, r)], g.byIndex[p.index := gp]);
      if gp !in list {
        list' := list + [gp];
      }
    }
  }

  /**
   * The field loop of `ProcessFieldsInType` on the type `ty0` at handle
   * `t`: each native field in turn is added to the type and mapped, and its
   * layout entry is collected with the 0-based counter.
   */
  method AddFields(ty0: ManagedType, fieldMap0: map<nat, FieldHandle>, t: nat, nt: NativeTypeDef, r: Reader)
    returns (ty: ManagedType, fieldMap: map<nat, FieldHandle>, fields: seq<FieldInType>)
    ensures ty == ty0.(fields := ty0.fields + AddedFields(r, t, nt, |nt.fields|))
    ensures fieldMap == FieldMapAfter(fieldMap0, t, |ty0.fields|, nt, |nt.fields|)
    ensures fields == Layout(ty0, t, nt, |nt.fields|, r)
  {
    ty, fieldMap, fields := ty0, fieldMap0, [];
    var counter := 0;
    assert ty0.fields + AddedFields(r, t, nt, 0) == ty0.fields;
    while counter < |nt.fields|
      invariant 0 <= counter <= |nt.fields|
      invariant FieldsAdded(ty0, fieldMap0, t, nt, counter, r, ty, fieldMap, fields)
    {
      ty, fieldMap, fields := AddField(ty0, fieldMap0, t, nt, counter, r, ty, fieldMap, fields);
      counter := counter + 1;
    }
  }

  /** The state of the field loop once the first `n` native fields are done. */
  ghost predicate FieldsAdded(ty0: ManagedType, fieldMap0: map<nat, FieldHandle>, t: nat, nt: NativeTypeDef, n: nat, r: Reader,
                              ty: ManagedType, fieldMap: map<nat, FieldHandle>, fields: seq<FieldInType>)
    requires n <= |nt.fields|
  {
    && ty == ty0.(fields := ty0.fields + AddedFields(r, t, nt, n))
    && fieldMap == FieldMapAfter(fieldMap0, t, |ty0.fields|, nt, n)
    && fields == Layout(ty0, t, nt, n, r)
  }

  /**
   * One iteration of the field loop, for the native field with counter
   * `k`: the managed field is made and added to the type, the field map
   * sends its native id to its position, and its layout entry is appended.
   */
  method AddField(ghost ty0: ManagedType, ghost fieldMap0: map<nat, FieldHandle>, t: nat, nt: NativeTypeDef, k: nat, r: Reader,
                  ty: ManagedType, fieldMap: map<nat, FieldHandle>, fields: seq<FieldInType>)
    returns (ty': ManagedType, fieldMap': map<nat, FieldHandle>, fields': seq<FieldInType>)
    requires k < |nt.fields| && FieldsAdded(ty0, fieldMap0, t, nt, k, r, ty, fieldMap, fields)
    ensures FieldsAdded(ty0, fieldMap0, t, nt, k + 1, r, ty', fieldMap', fields')
  {
    var nf := nt.fields[k];
    var fieldType := r.importType(TypeOwner(t), nf.rawType);
    var f := ManagedField(nf.name, nf.rawType.attrs, fieldType, None, None);
    if HasDefault(f.attrs) {
      f := f.(constant := nf.defaultValue);
    }
    if HasFieldRva(f.attrs) {
      f := f.(initialValue := nf.staticArrayInitialValue);
    }
    assert f == FieldOf(r, t, nf);
    var position := |ty.fields|;
    ty' := ty.(fields := ty.fields + [f]);
    fieldMap' := fieldMap[nf.id := FieldHandle(t, position)];
    var isStatic := IsStaticField(f.attrs);
    var offset := r.fieldOffset(nt.typeIndex, k, nf.fieldIndex, IsValueTypeDef(ty), isStatic);
    fields' := fields + [GetFieldInType(fieldType, offset, nf.name, TypeFullName(ty), t, position, isStatic, f.constant)];
    AddedFieldsStep(ty0.fields, r, t, nt, k);
    LayoutStep(ty0, ty, t, nt, k, r);
  }

  /** `FillMethodBodyWithStub`: the instructions chosen by the method's return type. */
  method FillMethodBodyWithStub(mm: ManagedMethod) returns (mm': ManagedMethod)
    ensures mm' == mm.(body := Some(StubBody(mm.returnType)))
  {
    var returnType := mm.returnType;
    var locals: seq<TypeRef> := [];
    var code: seq<Opcode> := [];
    if FullName(returnType) == VoidName {
      code := code + [Ret];
      assert code == [Ret];
    } else if returnType.IsValueType() {
      var variable := |locals|;
      locals := locals + [returnType];
      code := code + [LdlocaS(variable)];
      code := code + [Initobj(returnType)];
      code := code + [Ldloc0];
      code := code + [Ret];
      assert locals == [returnType] && code == [LdlocaS(0), Initobj(returnType), Ldloc0, Ret];
    } else {
      code := code + [Ldnull];
      code := code + [Ret];
      assert code == [Ldnull, Ret];
    }
    mm' := mm.(body := Some(Body(locals, code)));
  }

  /** `HandleMethodParameters`: one parameter per native parameter of the method at handle `h`, in native order. */
  method HandleMethodParameters(mm: ManagedMethod, h: nat, nm: NativeMethod, r: Reader) returns (mm': ManagedMethod)
    ensures mm' == mm.(parameters := mm.parameters + AddedParameters(r, h, nm.parameters, |nm.parameters|))
  {
    mm' := mm;
    var i := 0;
    assert mm.parameters + AddedParameters(r, h, nm.parameters, 0) == mm.parameters;
    while i < |nm.parameters|
      invariant 0 <= i <= |nm.parameters|
      invariant mm' == mm.(parameters := mm.parameters + AddedParameters(r, h, nm.parameters, i))
    {
      var p := nm.parameters[i];
      var parameterType := r.importType(MethodOwner(h), p.rawType);
      if p.rawType.byref == 1 {
        parameterType := ByRef(parameterType);
      }
      var param := ParameterDef(p.name, p.attributes, parameterType, None);
      if p.defaultValue.Some? {
        param := param.(constant := p.defaultValue);
      }
      assert param == ParameterOf(r, h, p);
      assert mm.parameters + AddedParameters(r, h, nm.parameters, i + 1) == mm.parameters + AddedParameters(r, h, nm.parameters, i) + [param];
      mm' := mm'.(parameters := mm'.parameters + [param]);
      i := i + 1;
    }
  }
}
