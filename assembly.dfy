/**
 * The per-image passes of `AssemblyPopulator`, as values: copying the
 * members of every native type of an image into the managed type made for
 * it, with a failure wrapped in an exception that names the type and the
 * image, and the explicit-override fixup of every type of an image.
 */
module Assembly {
  import opened Types
  import opened Metadata
  import opened Tables
  import opened TypeContents
  import opened Properties
  import opened Overrides

  /** What the copy needs between types: the type map and the method map point into the arena. */
  predicate MapsBelow(m: Model)
  {
    ValuesBelow(m.maps.types, |m.arena.types|) && ValuesBelow(m.maps.methods, |m.arena.methods|)
  }

  /** The state after the field and the method passes on type `t`, which never throw. */
  function MembersAdded(m: Model, t: nat, nt: NativeTypeDef, r: Reader): (m': Model)
    requires t < |m.arena.types| && MapsBelow(m)
    ensures MapsBelow(m') && |m'.arena.types| == |m.arena.types| && m'.maps.types == m.maps.types
  {
    var withFields := ProcessFields(m, t, nt, r);
    MethodsThroughMapped(withFields, t, nt, r);
    MethodsThrough(withFields, t, nt, r)
  }

  /**
   * `CopyIl2CppDataToManagedType` on the managed type at handle `t`,
   * without attributes and events: fields, then methods, then properties;
   * the first exception stops it.
   */
  function CopyData(m: Model, t: nat, nt: NativeTypeDef, r: Reader): (res: (Model, Option<Error>))
    requires t < |m.arena.types| && MapsBelow(m)
    ensures MapsBelow(res.0) && |res.0.arena.types| == |m.arena.types| && res.0.maps.types == m.maps.types
  {
    var members := MembersAdded(m, t, nt, r);
    AddPropertiesKeeps(members, t, nt.properties, |nt.properties|);
    AddProperties(members, t, nt.properties, |nt.properties|)
  }

  /**
   * One native type of `PopulateStubTypesInAssembly`. The managed type
   * made for it is looked up outside the handler, so a missing one throws
   * unwrapped; a failure while copying is wrapped with the managed type's
   * full name, module and declaring type and the image's name.
   */
  function StubStep(m: Model, image: Image, nt: NativeTypeDef, r: Reader): (res: (Model, Option<Error>))
    requires MapsBelow(m)
    ensures MapsBelow(res.0) && |res.0.arena.types| == |m.arena.types| && res.0.maps.types == m.maps.types
  {
    if nt.id !in m.maps.types then (m, Some(UnmappedType(nt.id)))
    else
      var t := m.maps.types[nt.id];
      var copied := CopyData(m, t, nt, r);
      match copied.1
      case None => copied
      case Some(e) =>
        var ty := copied.0.arena.types[t];
        (copied.0, Some(TypeFailure(TypeFullName(ty), ty.moduleName, ty.declaringType, image.name, e)))
  }

  // ---------------------------------------------------------------------
  // Properties of the copy

  /** Only the property pass throws: the copy fails exactly when some property cannot be made from the state the fields and methods leave. */
  lemma CopyDataFails(m: Model, t: nat, nt: NativeTypeDef, r: Reader)
    requires t < |m.arena.types| && MapsBelow(m)
    ensures var members := MembersAdded(m, t, nt, r);
            CopyData(m, t, nt, r).1.Some? <==>
              exists k | 0 <= k < |nt.properties| :: PropertyOf(members.arena.methods, members.maps.methods, nt.properties[k]).Err?
  {
    AddPropertiesFails(MembersAdded(m, t, nt, r), t, nt.properties, |nt.properties|);
  }

  /** Whatever the outcome, copying keeps every type's name and scope. */
  lemma CopyDataKeepsIdentity(m: Model, t: nat, nt: NativeTypeDef, r: Reader, u: nat)
    requires t < |m.arena.types| && MapsBelow(m) && u < |m.arena.types|
    ensures SameIdentity(CopyData(m, t, nt, r).0.arena.types[u], m.arena.types[u])
  {
    var withFields := ProcessFields(m, t, nt, r);
    var members := MembersAdded(m, t, nt, r);
    MethodsThroughKeepsIdentity(withFields, t, nt, r, u);
    AddPropertiesKeeps(members, t, nt.properties, |nt.properties|);
    assert SameIdentity(withFields.arena.types[u], m.arena.types[u]);
  }

  /**
   * The exceptions of one type: an unmapped native type throws as is; a
   * failed copy throws the copy's exception wrapped with the identity the
   * managed type had before the copy and the image's name; a successful
   * copy throws nothing.
   */
  lemma StubStepWraps(m: Model, image: Image, nt: NativeTypeDef, r: Reader)
    requires MapsBelow(m)
    ensures nt.id !in m.maps.types ==> StubStep(m, image, nt, r) == (m, Some(UnmappedType(nt.id)))
    ensures nt.id in m.maps.types ==>
              var t := m.maps.types[nt.id];
              var ty := m.arena.types[t];
              var copied := CopyData(m, t, nt, r);
              && StubStep(m, image, nt, r).0 == copied.0
              && (StubStep(m, image, nt, r).1.Some? <==> copied.1.Some?)
              && (copied.1.Some? ==>
                    StubStep(m, image, nt, r).1.value
                    == TypeFailure(TypeFullName(ty), ty.moduleName, ty.declaringType, image.name, copied.1.value))
  {
    if nt.id in m.maps.types {
      var t := m.maps.types[nt.id];
      CopyDataKeepsIdentity(m, t, nt, r, t);
    }
  }

  // ---------------------------------------------------------------------
  // A pass over the native types of an image

  /** What a pass does with one native type: the state after it, and the exception it throws, if any. */
  type Step = (Model, NativeTypeDef) --> (Model, Option<Error>)

  /**
   * A step applies to every state where `inv` holds and keeps `inv`; it
   * never changes the type map, and it gets through a native type only
   * when the type map has it.
   */
  ghost predicate Preserves(step: Step, inv: Model -> bool)
  {
    && (forall m: Model, nt: NativeTypeDef | inv(m) :: step.requires(m, nt))
    && forall m: Model, nt: NativeTypeDef {:trigger step(m, nt)} | inv(m) && step.requires(m, nt) ::
         && inv(step(m, nt).0)
         && step(m, nt).0.maps.types == m.maps.types
         && (step(m, nt).1.None? ==> nt.id in m.maps.types)
  }

  /** The step on each of the first `n` native types in turn; the first exception stops the pass. */
  function ImagePass(step: Step, inv: Model -> bool, m: Model, types: seq<NativeTypeDef>, n: nat): (res: (Model, Option<Error>))
    requires Preserves(step, inv) && inv(m) && n <= |types|
    ensures inv(res.0) && res.0.maps.types == m.maps.types
  {
    if n == 0 then (m, None)
    else
      var prior := ImagePass(step, inv, m, types, n - 1);
      if prior.1.Some? then prior else step(prior.0, types[n - 1])
  }

  /** Once a type has thrown, the types after it are never looked at. */
  lemma {:induction false} ImagePassSticks(step: Step, inv: Model -> bool, m: Model, types: seq<NativeTypeDef>, i: nat, n: nat)
    requires Preserves(step, inv) && inv(m) && i <= n <= |types|
    requires ImagePass(step, inv, m, types, i).1.Some?
    ensures ImagePass(step, inv, m, types, n) == ImagePass(step, inv, m, types, i)
  {
    if i < n {
      ImagePassSticks(step, inv, m, types, i, n - 1);
    }
  }

  /**
   * One more native type: a pass that has gone through the first `i`
   * types and then takes type `i` with the step either goes on, or ends
   * the whole pass there.
   */
  lemma ImagePassNext(step: Step, inv: Model -> bool, m: Model, types: seq<NativeTypeDef>, i: nat,
                      before: Model, after: Model, err: Option<Error>)
    requires Preserves(step, inv) && inv(m) && i < |types| && (before, None) == ImagePass(step, inv, m, types, i)
    requires (after, err) == step(before, types[i])
    ensures err.None? ==> (after, err) == ImagePass(step, inv, m, types, i + 1)
    ensures err.Some? ==> (after, err) == ImagePass(step, inv, m, types, |types|)
  {
    if err.Some? {
      ImagePassSticks(step, inv, m, types, i + 1, |types|);
    }
  }

  /** A pass that got through `n` types got through each step before, one at a time. */
  lemma {:induction false} ImagePassThrough(step: Step, inv: Model -> bool, m: Model, types: seq<NativeTypeDef>, k: nat, n: nat)
    requires Preserves(step, inv) && inv(m) && k < n <= |types|
    requires ImagePass(step, inv, m, types, n).1.None?
    ensures ImagePass(step, inv, m, types, k).1.None?
    ensures ImagePass(step, inv, m, types, k + 1) == step(ImagePass(step, inv, m, types, k).0, types[k])
  {
    if k < n - 1 {
      ImagePassThrough(step, inv, m, types, k, n - 1);
    }
  }

  /** A pass that reaches a type whose step throws throws. */
  lemma {:induction false} ImagePassThrows(step: Step, inv: Model -> bool, m: Model, types: seq<NativeTypeDef>, k: nat, n: nat)
    requires Preserves(step, inv) && inv(m) && k < n <= |types|
    requires ImagePass(step, inv, m, types, k).1.None? && step(ImagePass(step, inv, m, types, k).0, types[k]).1.Some?
    ensures ImagePass(step, inv, m, types, n).1.Some?
  {
    var prior := ImagePass(step, inv, m, types, n - 1);
    if n - 1 == k {
      assert ImagePass(step, inv, m, types, n) == step(prior.0, types[k]);
    } else {
      ImagePassThrows(step, inv, m, types, k, n - 1);
      assert ImagePass(step, inv, m, types, n) == prior;
    }
  }

  /** A pass throws exactly when some type's step throws after every type before it went through. */
  lemma ImagePassFails(step: Step, inv: Model -> bool, m: Model, types: seq<NativeTypeDef>, n: nat)
    requires Preserves(step, inv) && inv(m) && n <= |types|
    ensures ImagePass(step, inv, m, types, n).1.Some? <==>
              exists k | 0 <= k < n :: && ImagePass(step, inv, m, types, k).1.None?
                                       && step(ImagePass(step, inv, m, types, k).0, types[k]).1.Some?
  {
    if ImagePass(step, inv, m, types, n).1.Some? {
      ImagePassStops(step, inv, m, types, n);
    }
    forall k | 0 <= k < n && ImagePass(step, inv, m, types, k).1.None? && step(ImagePass(step, inv, m, types, k).0, types[k]).1.Some?
      ensures ImagePass(step, inv, m, types, n).1.Some?
    {
      ImagePassThrows(step, inv, m, types, k, n);
    }
  }

  /** A pass that throws ends with the state and the exception of the step that threw. */
  lemma {:induction false} ImagePassStops(step: Step, inv: Model -> bool, m: Model, types: seq<NativeTypeDef>, n: nat)
    requires Preserves(step, inv) && inv(m) && n <= |types|
    requires ImagePass(step, inv, m, types, n).1.Some?
    ensures exists k | 0 <= k < n :: && ImagePass(step, inv, m, types, k).1.None?
                                     && ImagePass(step, inv, m, types, n) == step(ImagePass(step, inv, m, types, k).0, types[k])
  {
    var prior := ImagePass(step, inv, m, types, n - 1);
    if prior.1.Some? {
      ImagePassStops(step, inv, m, types, n - 1);
      var k :| 0 <= k < n - 1 && ImagePass(step, inv, m, types, k).1.None?
               && prior == step(ImagePass(step, inv, m, types, k).0, types[k]);
      assert ImagePass(step, inv, m, types, n) == prior;
    } else {
      assert ImagePass(step, inv, m, types, n) == step(prior.0, types[n - 1]);
    }
  }

  /** A pass that completes found every native type it went through in the type map. */
  lemma {:induction false} ImagePassMapped(step: Step, inv: Model -> bool, m: Model, types: seq<NativeTypeDef>, n: nat)
    requires Preserves(step, inv) && inv(m) && n <= |types|
    requires ImagePass(step, inv, m, types, n).1.None?
    ensures forall k | 0 <= k < n :: types[k].id in m.maps.types
  {
    if n > 0 {
      ImagePassMapped(step, inv, m, types, n - 1);
    }
  }

  /** A property of the state that holds at the start and survives every step holds, whatever the outcome, at the end of a pass. */
  lemma {:induction false} ImagePassKeeps(step: Step, inv: Model -> bool, p: Model -> bool, m: Model, types: seq<NativeTypeDef>, n: nat)
    requires Preserves(step, inv) && inv(m) && n <= |types| && p(m)
    requires forall a: Model, nt: NativeTypeDef {:trigger step(a, nt)} | inv(a) && p(a) :: p(step(a, nt).0)
    ensures p(ImagePass(step, inv, m, types, n).0)
  {
    if n > 0 {
      ImagePassKeeps(step, inv, p, m, types, n - 1);
    }
  }

  /** The step of `PopulateStubTypesInAssembly` on the image, as a value. */
  function StubStepFn(image: Image, r: Reader): Step
  {
    (m: Model, nt: NativeTypeDef) requires MapsBelow(m) => StubStep(m, image, nt, r)
  }

  lemma StubStepPreserves(image: Image, r: Reader)
    ensures Preserves(StubStepFn(image, r), MapsBelow)
  {
  }

  /** `PopulateStubTypesInAssembly` over the first `n` native types of the image. */
  function PopulateStubs(m: Model, image: Image, n: nat, r: Reader): (res: (Model, Option<Error>))
    requires MapsBelow(m) && n <= |image.types|
    ensures MapsBelow(res.0)
  {
    StubStepPreserves(image, r);
    ImagePass(StubStepFn(image, r), MapsBelow, m, image.types, n)
  }

  /** A pass that completes found a managed type for every native type of the image. */
  lemma PopulateStubsMapped(m: Model, image: Image, n: nat, r: Reader)
    requires MapsBelow(m) && n <= |image.types| && PopulateStubs(m, image, n, r).1.None?
    ensures forall k | 0 <= k < n :: image.types[k].id in m.maps.types
  {
    StubStepPreserves(image, r);
    ImagePassMapped(StubStepFn(image, r), MapsBelow, m, image.types, n);
  }

  /**
   * A pass that throws stopped at some native type after every type before
   * it went through, and ends with that type's step: the unwrapped lookup
   * failure or the wrapped copy failure `StubStepWraps` describes.
   */
  lemma PopulateStubsThrows(m: Model, image: Image, n: nat, r: Reader)
    requires MapsBelow(m) && n <= |image.types| && PopulateStubs(m, image, n, r).1.Some?
    ensures exists k | 0 <= k < n :: && PopulateStubs(m, image, k, r).1.None?
                                     && PopulateStubs(m, image, n, r) == StubStep(PopulateStubs(m, image, k, r).0, image, image.types[k], r)
  {
    var step := StubStepFn(image, r);
    StubStepPreserves(image, r);
    ImagePassStops(step, MapsBelow, m, image.types, n);
    var k :| 0 <= k < n && ImagePass(step, MapsBelow, m, image.types, k).1.None?
             && ImagePass(step, MapsBelow, m, image.types, n) == step(ImagePass(step, MapsBelow, m, image.types, k).0, image.types[k]);
    assert PopulateStubs(m, image, k, r) == ImagePass(step, MapsBelow, m, image.types, k);
  }

  /** The state `m'` after the first `i` native types of `PopulateStubTypesInAssembly`, all of which went through. */
  ghost predicate StubsThrough(m: Model, image: Image, i: nat, r: Reader, m': Model)
  {
    MapsBelow(m) && i <= |image.types| && (m', None) == PopulateStubs(m, image, i, r)
  }

  /** One more native type of `PopulateStubTypesInAssembly`: the pass goes on, or ends there. */
  lemma PopulateStubsNext(m: Model, image: Image, i: nat, r: Reader, before: Model, after: Model, err: Option<Error>)
    requires StubsThrough(m, image, i, r, before) && i < |image.types|
    requires (after, err) == StubStep(before, image, image.types[i], r)
    ensures err.None? ==> StubsThrough(m, image, i + 1, r, after)
    ensures err.Some? ==> (after, err) == PopulateStubs(m, image, |image.types|, r)
  {
    StubStepPreserves(image, r);
    ImagePassNext(StubStepFn(image, r), MapsBelow, m, image.types, i, before, after, err);
  }

  // ---------------------------------------------------------------------
  // The fixup of an image

  /** What the fixup needs between types: the type map and every type's method list point into the arena. */
  predicate FixupReady(m: Model)
  {
    && ValuesBelow(m.maps.types, |m.arena.types|)
    && forall t, k | 0 <= t < |m.arena.types| && 0 <= k < |m.arena.types[t].methods| :: m.arena.types[t].methods[k] < |m.arena.methods|
  }

  /**
   * `m'` differs from `m` at most in the edges of its methods: the types,
   * the maps, the tables and the generic parameters are the same, and
   * every method keeps everything but its edges.
   */
  predicate EdgesOnly(m: Model, m': Model)
  {
    && m'.arena.types == m.arena.types && m'.registry == m.registry && m'.tables == m.tables
    && m'.maps == m.maps && m'.fieldsByType == m.fieldsByType && |m'.arena.methods| == |m.arena.methods|
    && forall h | 0 <= h < |m.arena.methods| :: m'.arena.methods[h] == m.arena.methods[h].(overrides := m'.arena.methods[h].overrides)
  }

  lemma EdgesOnlyTrans(m: Model, m': Model, m'': Model)
    requires EdgesOnly(m, m') && EdgesOnly(m', m'')
    ensures EdgesOnly(m, m'')
  {
  }

  /** One native type of `FixupExplicitOverridesInAssembly`: its managed type is looked up and fixed up, nothing wrapped. */
  function FixupStep(m: Model, nt: NativeTypeDef, rs: Resolver): (res: (Model, Option<Error>))
    requires FixupReady(m)
    ensures FixupReady(res.0)
  {
    if nt.id !in m.maps.types then (m, Some(UnmappedType(nt.id)))
    else
      FixupFrame(m, m.maps.types[nt.id], rs);
      Fixup(m, m.maps.types[nt.id], rs)
  }

  /** The fixup of one type changes only edges and keeps the state well formed. */
  lemma FixupStepFrame(m: Model, nt: NativeTypeDef, rs: Resolver)
    requires FixupReady(m)
    ensures EdgesOnly(m, FixupStep(m, nt, rs).0)
    ensures WellFormed(m) ==> WellFormed(FixupStep(m, nt, rs).0)
  {
    if nt.id in m.maps.types {
      var t := m.maps.types[nt.id];
      FixupFrame(m, t, rs);
      FixupKeepsSignatures(m, t, rs);
      if WellFormed(m) {
        FixupWellFormed(m, t, rs);
      }
    }
  }

  /** The step of `FixupExplicitOverridesInAssembly`, as a value. */
  function FixupStepFn(rs: Resolver): Step
  {
    (m: Model, nt: NativeTypeDef) requires FixupReady(m) => FixupStep(m, nt, rs)
  }

  lemma FixupStepPreserves(rs: Resolver)
    ensures Preserves(FixupStepFn(rs), FixupReady)
  {
  }

  /** `FixupExplicitOverridesInAssembly` over the first `n` native types of the image. */
  function FixupAll(m: Model, image: Image, n: nat, rs: Resolver): (res: (Model, Option<Error>))
    requires FixupReady(m) && n <= |image.types|
    ensures FixupReady(res.0)
  {
    FixupStepPreserves(rs);
    ImagePass(FixupStepFn(rs), FixupReady, m, image.types, n)
  }

  /**
   * Whatever the outcome, the fixup of an image changes only edges: the
   * types, the maps, the tables and the generic parameters stay, every
   * method keeps everything but its edges, and the state stays well formed.
   */
  lemma FixupAllFrame(m: Model, image: Image, n: nat, rs: Resolver)
    requires FixupReady(m) && n <= |image.types|
    ensures EdgesOnly(m, FixupAll(m, image, n, rs).0)
    ensures WellFormed(m) ==> WellFormed(FixupAll(m, image, n, rs).0)
  {
    var kept := (a: Model) => EdgesOnly(m, a) && (WellFormed(m) ==> WellFormed(a));
    forall a: Model, nt: NativeTypeDef | FixupReady(a) && kept(a)
      ensures kept(FixupStepFn(rs)(a, nt).0)
    {
      FixupStepFrame(a, nt, rs);
      EdgesOnlyTrans(m, a, FixupStep(a, nt, rs).0);
    }
    FixupStepPreserves(rs);
    ImagePassKeeps(FixupStepFn(rs), FixupReady, kept, m, image.types, n);
  }

  /** A fixup of an image that throws stopped at some native type after every type before it went through, and ends with that type's step. */
  lemma FixupAllThrows(m: Model, image: Image, n: nat, rs: Resolver)
    requires FixupReady(m) && n <= |image.types| && FixupAll(m, image, n, rs).1.Some?
    ensures exists k | 0 <= k < n :: && FixupAll(m, image, k, rs).1.None?
                                     && FixupAll(m, image, n, rs) == FixupStep(FixupAll(m, image, k, rs).0, image.types[k], rs)
  {
    var step := FixupStepFn(rs);
    FixupStepPreserves(rs);
    ImagePassStops(step, FixupReady, m, image.types, n);
    var k :| 0 <= k < n && ImagePass(step, FixupReady, m, image.types, k).1.None?
             && ImagePass(step, FixupReady, m, image.types, n) == step(ImagePass(step, FixupReady, m, image.types, k).0, image.types[k]);
    assert FixupAll(m, image, k, rs) == ImagePass(step, FixupReady, m, image.types, k);
  }

  /** A fixup of an image that completes found a managed type for every native type of the image. */
  lemma FixupAllMapped(m: Model, image: Image, n: nat, rs: Resolver)
    requires FixupReady(m) && n <= |image.types| && FixupAll(m, image, n, rs).1.None?
    ensures forall k | 0 <= k < n :: image.types[k].id in m.maps.types
  {
    FixupStepPreserves(rs);
    ImagePassMapped(FixupStepFn(rs), FixupReady, m, image.types, n);
  }

  /** One more native type of the fixup of an image: the pass goes on, or ends there. */
  lemma FixupAllNext(m: Model, image: Image, i: nat, rs: Resolver, before: Model, after: Model, err: Option<Error>)
    requires FixupReady(m) && i < |image.types| && (before, None) == FixupAll(m, image, i, rs)
    requires (after, err) == FixupStep(before, image.types[i], rs)
    ensures err.None? ==> (after, err) == FixupAll(m, image, i + 1, rs)
    ensures err.Some? ==> (after, err) == FixupAll(m, image, |image.types|, rs)
  {
    FixupStepPreserves(rs);
    ImagePassNext(FixupStepFn(rs), FixupReady, m, image.types, i, before, after, err);
  }
}
