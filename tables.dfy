/**
 * The two ways reconstruction fills its dictionaries: `TryAdd`, which
 * keeps the first value stored under a key, and the indexer, which keeps
 * the last.
 */
module Tables {

  datatype Entry<K, V> = Entry(key: K, value: V)

  /** `Dictionary.TryAdd`: stores only under a new key. */
  function TryAdd<K(==), V>(tbl: map<K, V>, k: K, v: V): (r: map<K, V>)
    ensures r.Keys == tbl.Keys + {k}
    ensures forall j | j in tbl :: r[j] == tbl[j]
    ensures k !in tbl ==> r[k] == v
  {
    if k in tbl then tbl else tbl[k := v]
  }

  /** `TryAdd` of each entry in turn. */
  function TryAddAll<K(==), V>(tbl: map<K, V>, es: seq<Entry<K, V>>): map<K, V>
  {
    if es == [] then tbl else TryAdd(TryAddAll(tbl, es[..|es| - 1]), es[|es| - 1].key, es[|es| - 1].value)
  }

  /** The indexer of each entry in turn. */
  function SetAll<K(==), V>(tbl: map<K, V>, es: seq<Entry<K, V>>): map<K, V>
  {
    if es == [] then tbl else SetAll(tbl, es[..|es| - 1])[es[|es| - 1].key := es[|es| - 1].value]
  }

  /** `TryAddAll` one entry further. */
  lemma TryAddAllStep<K, V>(tbl: map<K, V>, es: seq<Entry<K, V>>, e: Entry<K, V>)
    ensures TryAddAll(tbl, es + [e]) == TryAdd(TryAddAll(tbl, es), e.key, e.value)
  {
    assert (es + [e])[..|es|] == es;
  }

  /** `SetAll` one entry further. */
  lemma SetAllStep<K, V>(tbl: map<K, V>, es: seq<Entry<K, V>>, e: Entry<K, V>)
    ensures SetAll(tbl, es + [e]) == SetAll(tbl, es)[e.key := e.value]
  {
    assert (es + [e])[..|es|] == es;
  }

  function Keys<K(==), V>(es: seq<Entry<K, V>>): set<K>
  {
    if es == [] then {} else Keys(es[..|es| - 1]) + {es[|es| - 1].key}
  }

  /** No earlier entry has the key of entry `i`. */
  predicate FirstWithKey<K(==), V>(es: seq<Entry<K, V>>, i: nat)
    requires i < |es|
  {
    forall j | 0 <= j < i :: es[j].key != es[i].key
  }

  /** No later entry has the key of entry `i`. */
  predicate LastWithKey<K(==), V>(es: seq<Entry<K, V>>, i: nat)
    requires i < |es|
  {
    forall j | i < j < |es| :: es[j].key != es[i].key
  }

  /**
   * First write wins: values already in the table are kept, and a key new
   * to the table ends up with the value of its first entry.
   */
  lemma {:induction false} TryAddAllFirstWins<K, V>(tbl: map<K, V>, es: seq<Entry<K, V>>)
    ensures var r := TryAddAll(tbl, es);
            && r.Keys == tbl.Keys + Keys(es)
            && (forall k | k in tbl :: r[k] == tbl[k])
            && (forall i | 0 <= i < |es| && es[i].key !in tbl && FirstWithKey(es, i) :: es[i].key in r && r[es[i].key] == es[i].value)
  {
    if es != [] {
      var init := es[..|es| - 1];
      TryAddAllFirstWins(tbl, init);
      var mid := TryAddAll(tbl, init);
      forall i | 0 <= i < |es| && es[i].key !in tbl && FirstWithKey(es, i)
        ensures es[i].key in TryAddAll(tbl, es) && TryAddAll(tbl, es)[es[i].key] == es[i].value
      {
        if i < |es| - 1 {
          assert init[i] == es[i];
          assert FirstWithKey(init, i);
        } else {
          if es[i].key in mid {
            assert es[i].key in Keys(init);
            var j := KeyPosition(init, es[i].key);
          }
        }
      }
    }
  }

  /**
   * Last write wins: a key ends up with the value of its last entry, and
   * keys without entries keep their value.
   */
  lemma {:induction false} SetAllLastWins<K, V>(tbl: map<K, V>, es: seq<Entry<K, V>>)
    ensures var r := SetAll(tbl, es);
            && r.Keys == tbl.Keys + Keys(es)
            && (forall k | k in tbl && k !in Keys(es) :: r[k] == tbl[k])
            && (forall i | 0 <= i < |es| && LastWithKey(es, i) :: es[i].key in r && r[es[i].key] == es[i].value)
  {
    if es != [] {
      var init := es[..|es| - 1];
      SetAllLastWins(tbl, init);
      forall i | 0 <= i < |es| && LastWithKey(es, i)
        ensures es[i].key in SetAll(tbl, es) && SetAll(tbl, es)[es[i].key] == es[i].value
      {
        if i < |es| - 1 {
          assert init[i] == es[i];
          assert LastWithKey(init, i);
        }
      }
    }
  }

  /** A key named by some entry is named at some position. */
  lemma {:induction false} KeyPosition<K, V>(es: seq<Entry<K, V>>, k: K) returns (j: nat)
    requires k in Keys(es)
    ensures j < |es| && es[j].key == k
  {
    if es[|es| - 1].key == k {
      j := |es| - 1;
    } else {
      j := KeyPosition(es[..|es| - 1], k);
    }
  }

  /** Every value stored in the table is below `n`. */
  predicate ValuesBelow<K>(tbl: map<K, nat>, n: nat)
  {
    forall k | k in tbl :: tbl[k] < n
  }

  predicate EntriesBelow<K>(es: seq<Entry<K, nat>>, n: nat)
  {
    forall i | 0 <= i < |es| :: es[i].value < n
  }

  lemma {:induction false} TryAddAllBelow<K>(tbl: map<K, nat>, es: seq<Entry<K, nat>>, n: nat)
    requires ValuesBelow(tbl, n) && EntriesBelow(es, n)
    ensures ValuesBelow(TryAddAll(tbl, es), n)
  {
    if es != [] {
      TryAddAllBelow(tbl, es[..|es| - 1], n);
    }
  }

  lemma {:induction false} SetAllBelow<K>(tbl: map<K, nat>, es: seq<Entry<K, nat>>, n: nat)
    requires ValuesBelow(tbl, n) && EntriesBelow(es, n)
    ensures ValuesBelow(SetAll(tbl, es), n)
  {
    if es != [] {
      SetAllBelow(tbl, es[..|es| - 1], n);
    }
  }
}
