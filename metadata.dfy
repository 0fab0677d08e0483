/**
 * The records on both sides of metadata reconstruction: the native
 * definitions read from the IL2CPP metadata, the managed definitions being
 * rebuilt, and the shared lookup tables that tie them together. Managed
 * types, methods and generic parameters live in arenas and are referred to
 * by their position (a handle).
 */
module Metadata {
  import opened Types
  import opened MethodBodies
  import opened FieldLayout
  import opened Tables

  // ---------------------------------------------------------------------
  // Native side

  /** A type use in the native metadata: which type, its attribute bits, and whether it is by reference. */
  datatype RawType = RawType(typeIndex: nat, attrs: bv16, byref: nat)

  datatype NativeGenericParam = NativeGenericParam(index: nat, name: string, flags: bv16, constraints: seq<RawType>)

  datatype NativeField = NativeField(
    id: nat, name: string, rawType: RawType, fieldIndex: nat,
    defaultValue: Option<Literal>, staticArrayInitialValue: Option<seq<bv8>>)

  datatype NativeParam = NativeParam(name: string, attributes: bv16, rawType: RawType, defaultValue: Option<Literal>)

  datatype NativeMethod = NativeMethod(
    id: nat, name: string, flags: bv16, rawReturnType: RawType,
    genericContainer: Option<seq<NativeGenericParam>>,
    methodIndex: nat, methodPointer: u64, slot: u16, parameters: seq<NativeParam>)

  /** A property; its accessors are native method ids. */
  datatype NativeProperty = NativeProperty(id: nat, name: string, attrs: bv16, getter: Option<nat>, setter: Option<nat>)

  datatype NativeTypeDef = NativeTypeDef(
    id: nat, typeIndex: nat,
    genericContainer: Option<seq<NativeGenericParam>>,
    fields: seq<NativeField>, methods: seq<NativeMethod>, properties: seq<NativeProperty>,
    rawBase: Option<RawType>, rawInterfaces: seq<RawType>)

  /** One image (assembly) of the metadata and the native types it defines. */
  datatype Image = Image(name: string, types: seq<NativeTypeDef>)

  // ---------------------------------------------------------------------
  // Managed side

  /** A generic parameter belongs to a type or to a method (by handle). */
  datatype Owner = TypeOwner(typeHandle: nat) | MethodOwner(methodHandle: nat)

  datatype GenericParamDef = GenericParamDef(name: string, owner: Owner, flags: bv16, constraints: seq<TypeRef>)

  /** `constant` is `None` when no constant is set or the constant is null. */
  datatype ManagedField = ManagedField(
    name: string, attrs: bv16, fieldType: TypeRef,
    constant: Option<Literal>, initialValue: Option<seq<bv8>>)

  datatype ParameterDef = ParameterDef(name: string, attributes: bv16, parameterType: TypeRef, constant: Option<Literal>)

  /** A method of some type, as the name-based lookups see it. */
  datatype MethodInfo = MethodInfo(name: string, parameterTypeNames: seq<string>, returnTypeName: string)

  /**
   * An explicit-override edge: the method at position `index` of the
   * methods of `declaringType`, named `name`, instantiated with `typeArgs`
   * when the base type is generic.
   */
  datatype OverrideRef = OverrideRef(declaringType: TypeRef, index: nat, name: string, typeArgs: seq<TypeRef>)

  datatype ManagedMethod = ManagedMethod(
    name: string, flags: bv16, declaringType: nat, returnType: TypeRef,
    genericParams: seq<nat>, parameters: seq<ParameterDef>,
    body: Option<Body>, overrides: seq<OverrideRef>)

  datatype PropertyDef = PropertyDef(name: string, attrs: bv16, propertyType: TypeRef, getter: Option<nat>, setter: Option<nat>)

  datatype ManagedType = ManagedType(
    ns: string, name: string, moduleName: string, declaringType: Option<string>,
    baseType: Option<TypeRef>, interfaces: seq<TypeRef>,
    genericParams: seq<nat>, fields: seq<ManagedField>, methods: seq<nat>, properties: seq<PropertyDef>)

  /** The metadata library's full name: `Outer/Inner` for nested types, `Namespace.Name` otherwise. */
  function TypeFullName(t: ManagedType): (r: string)
    ensures t.declaringType.None? && t.ns == "" ==> r == t.name
    ensures t.declaringType.Some? ==> StartsWith(r, t.declaringType.value + "/")
  {
    match t.declaringType
    case Some(outer) => outer + "/" + t.name
    case None => if t.ns == "" then t.name else t.ns + "." + t.name
  }

  /** The metadata library's `IsTypeOf`: a type reference with that namespace and name. */
  predicate IsTypeOf(t: TypeRef, ns: string, name: string)
  {
    t.Named? && t.ns == ns && t.name == name
  }

  /**
   * The metadata library's `TypeDefinition.IsValueType`, computed from the
   * base type each time it is read: a type deriving from `System.Enum`, or
   * from `System.ValueType` without being `System.Enum` itself, is a value
   * type; a type without a base type is not.
   */
  predicate IsValueTypeDef(t: ManagedType)
  {
    && t.baseType.Some?
    && (|| IsTypeOf(t.baseType.value, "System", "Enum")
        || (IsTypeOf(t.baseType.value, "System", "ValueType") && !(t.ns == "System" && t.name == "Enum")))
  }

  /** A reference to a managed field: its declaring type and its position there. */
  datatype FieldHandle = FieldHandle(typeHandle: nat, position: nat)

  /** A reference to a managed property: its declaring type and its position there. */
  datatype PropertyHandle = PropertyHandle(typeHandle: nat, position: nat)

  // Field attribute bits.
  const StaticFlag: bv16 := 0x0010
  const HasFieldRvaFlag: bv16 := 0x0100
  const HasDefaultFlag: bv16 := 0x8000

  predicate IsStaticField(attrs: bv16) { attrs & StaticFlag != 0 }
  predicate HasFieldRva(attrs: bv16) { attrs & HasFieldRvaFlag != 0 }
  predicate HasDefault(attrs: bv16) { attrs & HasDefaultFlag != 0 }

  // ---------------------------------------------------------------------
  // The services reconstruction calls but that are not part of this model

  /** The metadata services the reconstruction reads through. */
  datatype Reader = Reader(
    /** Imports a native type use into the scope of a managed type or method. */
    importType: (Owner, RawType) -> TypeRef,
    /** The native field offset for (type index, position, field index, in a value type, static). */
    fieldOffset: (nat, nat, nat, bool, bool) -> i32)

  /** Why a reconstruction step throws. */
  datatype Error =
    | UnmappedMethod(nativeMethod: nat)
    | PropertyWithoutType(property: string)
    | SetterWithoutParameter(property: string)
    | NotGenericInstance(interfaceName: string)
    | UnresolvedType(typeName: string)
    | NoSingleMethod(typeName: string, methodName: string)
    | MethodNotFound(typeName: string, methodName: string)
    | UnmappedType(nativeType: nat)
    | TypeFailure(fullName: string, moduleName: string, declaringType: Option<string>, image: string, inner: Error)

  // ---------------------------------------------------------------------
  // The shared state

  /** The managed types and methods, addressed by position. */
  datatype Arena = Arena(types: seq<ManagedType>, methods: seq<ManagedMethod>)

  /** The arena of generic parameters and the table from native index to arena position. */
  datatype Registry = Registry(params: seq<GenericParamDef>, byIndex: map<nat, nat>)

  /** The method tables: by method index, by method pointer, by virtual slot. */
  datatype MethodTables = MethodTables(byIndex: map<nat, nat>, byAddress: map<u64, nat>, bySlot: map<u16, nat>)

  /** From native definition ids to the managed definitions made for them. */
  datatype NativeMaps = NativeMaps(
    types: map<nat, nat>, fields: map<nat, FieldHandle>,
    methods: map<nat, nat>, properties: map<nat, PropertyHandle>)

  datatype Model = Model(
    arena: Arena,
    registry: Registry,
    tables: MethodTables,
    maps: NativeMaps,
    fieldsByType: map<nat, seq<FieldInType>>)

  predicate HandlesBelow(hs: seq<nat>, n: nat)
  {
    forall h | h in hs :: h < n
  }


  /** Distinct native indices never share a generic parameter. */
  predicate Injective(tbl: map<nat, nat>)
  {
    forall i, j | i in tbl && j in tbl && i != j :: tbl[i] != tbl[j]
  }

  predicate RegistryValid(g: Registry)
  {
    ValuesBelow(g.byIndex, |g.params|) && Injective(g.byIndex)
  }

  /** An owner's list of generic parameters: no duplicates, only live arena positions. */
  predicate ListValid(g: Registry, list: seq<nat>)
  {
    NoDup(list) && HandlesBelow(list, |g.params|)
  }

  /**
   * The generic-parameter bookkeeping is consistent: the index table points
   * into the arena without sharing, and every owner's list is duplicate-free
   * and points into the arena.
   */
  predicate GenericParamsValid(m: Model)
  {
    && RegistryValid(m.registry)
    && (forall t | 0 <= t < |m.arena.types| :: ListValid(m.registry, m.arena.types[t].genericParams))
    && (forall h | 0 <= h < |m.arena.methods| :: ListValid(m.registry, m.arena.methods[h].genericParams))
  }

  /** Every method handle stored in the state is a live arena position. */
  predicate HandlesValid(m: Model)
  {
    var n := |m.arena.methods|;
    && ValuesBelow(m.maps.types, |m.arena.types|)
    && ValuesBelow(m.maps.methods, n)
    && ValuesBelow(m.tables.byIndex, n) && ValuesBelow(m.tables.byAddress, n) && ValuesBelow(m.tables.bySlot, n)
    && (forall t | 0 <= t < |m.arena.types| :: HandlesBelow(m.arena.types[t].methods, n))
    && (forall h | 0 <= h < n :: m.arena.methods[h].declaringType < |m.arena.types|)
  }

  predicate WellFormed(m: Model)
  {
    GenericParamsValid(m) && HandlesValid(m)
  }

  // ---------------------------------------------------------------------
  // Record updates shared by the reconstruction steps

  function UpdateType(m: Model, t: nat, ty: ManagedType): (r: Model)
    requires t < |m.arena.types|
    ensures r.arena.methods == m.arena.methods && |r.arena.types| == |m.arena.types|
    ensures r.registry == m.registry && r.tables == m.tables && r.maps == m.maps && r.fieldsByType == m.fieldsByType
  {
    m.(arena := m.arena.(types := m.arena.types[t := ty]))
  }

  function UpdateMethod(m: Model, h: nat, mm: ManagedMethod): (r: Model)
    requires h < |m.arena.methods|
    ensures r.arena.types == m.arena.types && |r.arena.methods| == |m.arena.methods|
    ensures r.registry == m.registry && r.tables == m.tables && r.maps == m.maps && r.fieldsByType == m.fieldsByType
  {
    m.(arena := m.arena.(methods := m.arena.methods[h := mm]))
  }

  /** Imports each raw type into one scope, in order. */
  function ImportAll(r: Reader, scope: Owner, raws: seq<RawType>): (r': seq<TypeRef>)
    ensures |r'| == |raws|
  {
    if raws == [] then [] else ImportAll(r, scope, raws[..|raws| - 1]) + [r.importType(scope, raws[|raws| - 1])]
  }

  lemma {:induction false} ImportAllAt(r: Reader, scope: Owner, raws: seq<RawType>, i: nat)
    requires i < |raws|
    ensures ImportAll(r, scope, raws)[i] == r.importType(scope, raws[i])
  {
    if i < |raws| - 1 {
      ImportAllAt(r, scope, raws[..|raws| - 1], i);
    }
  }
}
