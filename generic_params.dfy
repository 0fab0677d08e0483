/**
 * Generic parameters are created once per native index and shared: the
 * index table is consulted first, and only an index never seen before
 * creates a new parameter, owned by the type or method being built.
 */
module GenericParams {
  import opened Types
  import opened Metadata

  /** The registry as it grows: the arena gains entries at the end, table entries are never replaced. */
  predicate Grows(g: Registry, g': Registry)
  {
    && |g.params| <= |g'.params| && g'.params[..|g.params|] == g.params
    && g.byIndex.Keys <= g'.byIndex.Keys
    && (forall i | i in g.byIndex :: g'.byIndex[i] == g.byIndex[i])
  }

  /** A fresh parameter for an owner, its constraints imported into the owner's scope. */
  function NewParam(o: Owner, p: NativeGenericParam, r: Reader): GenericParamDef
  {
    GenericParamDef(p.name, o, p.flags, ImportAll(r, o, p.constraints))
  }

  /** The registry and the owner's list after attaching parameters. */
  datatype Attached = Attached(registry: Registry, list: seq<nat>)

  /**
   * One parameter of a type's generic container: reuse the parameter
   * already made for this index (adding it to the owner's list if
   * missing), or make one and add it to the list unconditionally.
   */
  function Attach(g: Registry, list: seq<nat>, o: Owner, p: NativeGenericParam, r: Reader): Attached
  {
    if p.index in g.byIndex then Attached(g, AppendIfAbsent(list, g.byIndex[p.index]))
    else
      var h := |g.params|;
      Attached(Registry(g.params + [NewParam(o, p, r)], g.byIndex[p.index := h]), list + [h])
  }

  /**
   * One parameter of a method's generic container: as `Attach`, except that
   * a freshly made parameter is added to the list only if not already there.
   */
  function AttachChecked(g: Registry, list: seq<nat>, o: Owner, p: NativeGenericParam, r: Reader): Attached
  {
    if p.index in g.byIndex then Attached(g, AppendIfAbsent(list, g.byIndex[p.index]))
    else
      var h := |g.params|;
      Attached(Registry(g.params + [NewParam(o, p, r)], g.byIndex[p.index := h]), AppendIfAbsent(list, h))
  }

  /** A whole generic container, parameter by parameter (the type path). */
  function AttachAll(g: Registry, list: seq<nat>, o: Owner, ps: seq<NativeGenericParam>, r: Reader): Attached
  {
    if ps == [] then Attached(g, list)
    else
      var a := AttachAll(g, list, o, ps[..|ps| - 1], r);
      Attach(a.registry, a.list, o, ps[|ps| - 1], r)
  }

  /** A whole generic container, parameter by parameter (the method path). */
  function AttachAllChecked(g: Registry, list: seq<nat>, o: Owner, ps: seq<NativeGenericParam>, r: Reader): Attached
  {
    if ps == [] then Attached(g, list)
    else
      var a := AttachAllChecked(g, list, o, ps[..|ps| - 1], r);
      AttachChecked(a.registry, a.list, o, ps[|ps| - 1], r)
  }

  /** The container fold, one parameter further. */
  lemma AttachAllStep(g: Registry, list: seq<nat>, o: Owner, ps: seq<NativeGenericParam>, i: nat, r: Reader)
    requires i < |ps|
    ensures var a := AttachAll(g, list, o, ps[..i], r);
            AttachAll(g, list, o, ps[..i + 1], r) == Attach(a.registry, a.list, o, ps[i], r)
    ensures var a := AttachAllChecked(g, list, o, ps[..i], r);
            AttachAllChecked(g, list, o, ps[..i + 1], r) == AttachChecked(a.registry, a.list, o, ps[i], r)
  {
    assert ps[..i + 1][..i] == ps[..i];
  }

  // ---------------------------------------------------------------------
  // Properties of one step

  /**
   * One step keeps the registry one-to-one and the owner's list free of
   * duplicates; the index ends up in the table with its parameter in the
   * list; existing entries keep their parameter; a parameter is created
   * exactly when the index was new, as a fresh arena entry owned by `o`.
   */
  lemma AttachFacts(g: Registry, list: seq<nat>, o: Owner, p: NativeGenericParam, r: Reader)
    requires RegistryValid(g) && ListValid(g, list)
    ensures var a := Attach(g, list, o, p, r);
            && RegistryValid(a.registry) && ListValid(a.registry, a.list)
            && Grows(g, a.registry)
            && a.registry.byIndex.Keys == g.byIndex.Keys + {p.index}
            && a.registry.byIndex[p.index] in a.list
            && |list| <= |a.list| && a.list[..|list|] == list
            && (p.index in g.byIndex ==> a.registry == g)
            && (p.index !in g.byIndex ==> a.registry.params == g.params + [NewParam(o, p, r)]
                                          && a.registry.byIndex[p.index] == |g.params|)
  {
    if p.index !in g.byIndex {
      var h := |g.params|;
      assert h !in list;
      var a := Attach(g, list, o, p, r);
      assert a.registry.params[..|g.params|] == g.params;
      assert forall i | i in g.byIndex :: a.registry.byIndex[i] != h;
    }
  }

  /** On a valid registry the method path's extra membership test changes nothing. */
  lemma AttachCheckedSame(g: Registry, list: seq<nat>, o: Owner, p: NativeGenericParam, r: Reader)
    requires ListValid(g, list)
    ensures AttachChecked(g, list, o, p, r) == Attach(g, list, o, p, r)
  {
    if p.index !in g.byIndex {
      assert |g.params| !in list;
    }
  }

  // ---------------------------------------------------------------------
  // Properties of a whole container

  /** The native indices a container names. */
  function Indices(ps: seq<NativeGenericParam>): set<nat>
  {
    if ps == [] then {} else Indices(ps[..|ps| - 1]) + {ps[|ps| - 1].index}
  }

  lemma GrowsTransitive(g1: Registry, g2: Registry, g3: Registry)
    requires Grows(g1, g2) && Grows(g2, g3)
    ensures Grows(g1, g3)
  {
    assert g3.params[..|g1.params|] == g3.params[..|g2.params|][..|g1.params|];
  }

  /**
   * A whole container keeps the registry one-to-one and the owner's list
   * free of duplicates; the arena and the list only grow at the end, and
   * entries already in the table keep their parameter.
   */
  lemma {:induction false} AttachAllValid(g: Registry, list: seq<nat>, o: Owner, ps: seq<NativeGenericParam>, r: Reader)
    requires RegistryValid(g) && ListValid(g, list)
    ensures var a := AttachAll(g, list, o, ps, r);
            && RegistryValid(a.registry) && ListValid(a.registry, a.list)
            && Grows(g, a.registry)
            && |list| <= |a.list| && a.list[..|list|] == list
  {
    if ps != [] {
      var mid := AttachAll(g, list, o, ps[..|ps| - 1], r);
      AttachAllValid(g, list, o, ps[..|ps| - 1], r);
      AttachFacts(mid.registry, mid.list, o, ps[|ps| - 1], r);
      var a := Attach(mid.registry, mid.list, o, ps[|ps| - 1], r);
      GrowsTransitive(g, mid.registry, a.registry);
      assert a.list[..|list|] == a.list[..|mid.list|][..|list|];
    }
  }

  /**
   * After a whole container, every index it names is in the table with its
   * parameter in the owner's list, and the table gained exactly those
   * indices.
   */
  lemma {:induction false} AttachAllCovers(g: Registry, list: seq<nat>, o: Owner, ps: seq<NativeGenericParam>, r: Reader)
    requires RegistryValid(g) && ListValid(g, list)
    ensures var a := AttachAll(g, list, o, ps, r);
            && a.registry.byIndex.Keys == g.byIndex.Keys + Indices(ps)
            && (forall k | 0 <= k < |ps| :: ps[k].index in a.registry.byIndex && a.registry.byIndex[ps[k].index] in a.list)
  {
    if ps != [] {
      var init := ps[..|ps| - 1];
      var mid := AttachAll(g, list, o, init, r);
      AttachAllCovers(g, list, o, init, r);
      AttachAllValid(g, list, o, init, r);
      AttachFacts(mid.registry, mid.list, o, ps[|ps| - 1], r);
      var a := Attach(mid.registry, mid.list, o, ps[|ps| - 1], r);
      forall k | 0 <= k < |ps|
        ensures ps[k].index in a.registry.byIndex && a.registry.byIndex[ps[k].index] in a.list
      {
        if k < |ps| - 1 {
          assert ps[k] == init[k];
          var i := ps[k].index;
          assert i in mid.registry.byIndex;
          var h := mid.registry.byIndex[i];
          assert a.registry.byIndex[i] == h;
          assert h in mid.list;
          assert h in a.list[..|mid.list|];
        }
      }
    }
  }

  /** The method path and the type path agree on a valid registry and list. */
  lemma {:induction false} AttachAllCheckedSame(g: Registry, list: seq<nat>, o: Owner, ps: seq<NativeGenericParam>, r: Reader)
    requires RegistryValid(g) && ListValid(g, list)
    ensures AttachAllChecked(g, list, o, ps, r) == AttachAll(g, list, o, ps, r)
  {
    if ps != [] {
      var init := ps[..|ps| - 1];
      AttachAllCheckedSame(g, list, o, init, r);
      AttachAllValid(g, list, o, init, r);
      var mid := AttachAll(g, list, o, init, r);
      AttachCheckedSame(mid.registry, mid.list, o, ps[|ps| - 1], r);
    }
  }

  /**
   * Two owners naming the same new native index share one parameter: the
   * second finds the parameter the first created, and no second one is made.
   */
  lemma SharedIndexSharesParam(g: Registry, first: seq<nat>, second: seq<nat>, o1: Owner, o2: Owner,
                               p: NativeGenericParam, r: Reader)
    requires RegistryValid(g) && ListValid(g, first) && ListValid(g, second)
    requires p.index !in g.byIndex
    ensures var a1 := Attach(g, first, o1, p, r);
            var a2 := Attach(a1.registry, second, o2, p, r);
            && a2.registry == a1.registry
            && |a2.registry.params| == |g.params| + 1
            && a2.registry.params[|g.params|].owner == o1
            && |g.params| in a1.list && |g.params| in a2.list
  {
    AttachFacts(g, first, o1, p, r);
  }
}
