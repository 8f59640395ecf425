/**
 * The abstract view of a skip list: its level-0 chain read as a sequence of
 * (key, value) entries in traversal order, and the map those entries denote.
 * Upsert and Remove are the reference definitions that the skip-list methods
 * are proved against; the lemmas here relate them to the map view.
 */
module SortedEntries {

  /** Keys strictly increase along the sequence, so no key occurs twice. */
  ghost predicate StrictlySorted<V>(es: seq<(int, V)>)
  {
    forall a, b :: 0 <= a < b < |es| ==> es[a].0 < es[b].0
  }

  /** The map denoted by a sequence of entries. */
  ghost function ToMap<V>(es: seq<(int, V)>): map<int, V>
  {
    if es == [] then map[] else ToMap(es[1..])[es[0].0 := es[0].1]
  }

  /** p is where a search for k stops: every entry before p has a smaller key,
      and the entry at p, if there is one, does not. */
  ghost predicate SplitAt<V>(es: seq<(int, V)>, p: int, k: int)
  {
    && 0 <= p <= |es|
    && (forall j :: 0 <= j < p ==> es[j].0 < k)
    && (p < |es| ==> es[p].0 >= k)
  }

  /** Insert (k, v) in key order, or overwrite the value of the entry with key k. */
  function Upsert<V>(es: seq<(int, V)>, k: int, v: V): seq<(int, V)>
  {
    if es == [] then [(k, v)]
    else if k < es[0].0 then [(k, v)] + es
    else if k == es[0].0 then [(k, v)] + es[1..]
    else [es[0]] + Upsert(es[1..], k, v)
  }

  /** Every entry except those with key k. */
  function Remove<V>(es: seq<(int, V)>, k: int): seq<(int, V)>
  {
    if es == [] then []
    else if es[0].0 == k then Remove(es[1..], k)
    else [es[0]] + Remove(es[1..], k)
  }

  /** Where a search for k stops. */
  function SearchPos<V>(es: seq<(int, V)>, k: int): (p: nat)
    ensures SplitAt(es, p, k)
  {
    if es == [] || es[0].0 >= k then 0 else 1 + SearchPos(es[1..], k)
  }

  /** A key that no entry carries is not in the map. */
  lemma {:induction false} AbsentKey<V>(es: seq<(int, V)>, k: int)
    requires forall j :: 0 <= j < |es| ==> es[j].0 != k
    ensures k !in ToMap(es)
  {
    if es != [] {
      AbsentKey(es[1..], k);
    }
  }

  /** In a sorted sequence, k is in the map exactly when the entry where the
      search for k stops carries k, and then it maps to that entry's value. */
  lemma {:induction false} LookupAt<V>(es: seq<(int, V)>, p: int, k: int)
    requires StrictlySorted(es) && SplitAt(es, p, k)
    ensures k in ToMap(es) <==> p < |es| && es[p].0 == k
    ensures k in ToMap(es) ==> ToMap(es)[k] == es[p].1
  {
    if es == [] {
    } else if p == 0 {
      if es[0].0 != k {
        AbsentKey(es, k);
      }
    } else {
      LookupAt(es[1..], p - 1, k);
    }
  }

  /** Upsert is a map update. */
  lemma {:induction false} UpsertMap<V>(es: seq<(int, V)>, k: int, v: V)
    ensures ToMap(Upsert(es, k, v)) == ToMap(es)[k := v]
  {
    if es == [] {
    } else if k < es[0].0 {
      assert ([(k, v)] + es)[1..] == es;
    } else if k == es[0].0 {
      assert ([(k, v)] + es[1..])[1..] == es[1..];
    } else {
      UpsertMap(es[1..], k, v);
      assert ([es[0]] + Upsert(es[1..], k, v))[1..] == Upsert(es[1..], k, v);
      assert ToMap(es[1..])[k := v][es[0].0 := es[0].1] == ToMap(es[1..])[es[0].0 := es[0].1][k := v];
    }
  }

  /** Remove is a map deletion. */
  lemma {:induction false} RemoveMap<V>(es: seq<(int, V)>, k: int)
    ensures ToMap(Remove(es, k)) == ToMap(es) - {k}
  {
    if es == [] {
    } else if es[0].0 == k {
      RemoveMap(es[1..], k);
      assert ToMap(es[1..])[k := es[0].1] - {k} == ToMap(es[1..]) - {k};
    } else {
      RemoveMap(es[1..], k);
      assert ([es[0]] + Remove(es[1..], k))[1..] == Remove(es[1..], k);
      assert (ToMap(es[1..]) - {k})[es[0].0 := es[0].1] == ToMap(es[1..])[es[0].0 := es[0].1] - {k};
    }
  }

  /** Upsert at the search position: an overwrite in place when the entry there
      carries k, otherwise one new entry spliced in before it. */
  lemma {:induction false} UpsertAt<V>(es: seq<(int, V)>, p: int, k: int, v: V)
    requires SplitAt(es, p, k)
    ensures p < |es| && es[p].0 == k ==> Upsert(es, k, v) == es[p := (k, v)]
    ensures !(p < |es| && es[p].0 == k) ==> Upsert(es, k, v) == es[..p] + [(k, v)] + es[p..]
  {
    if p == 0 {
      if es != [] && es[0].0 == k {
        assert es[0 := (k, v)] == [(k, v)] + es[1..];
      }
    } else {
      UpsertAt(es[1..], p - 1, k, v);
      if p < |es| && es[p].0 == k {
        assert es[p := (k, v)] == [es[0]] + es[1..][p - 1 := (k, v)];
      } else {
        assert es[..p] + [(k, v)] + es[p..] == [es[0]] + (es[1..][..p - 1] + [(k, v)] + es[1..][p - 1..]);
      }
    }
  }

  /** Removing a key no entry carries changes nothing. */
  lemma {:induction false} RemoveAbsent<V>(es: seq<(int, V)>, k: int)
    requires forall j :: 0 <= j < |es| ==> es[j].0 != k
    ensures Remove(es, k) == es
  {
    if es != [] {
      RemoveAbsent(es[1..], k);
    }
  }

  /** In a sorted sequence, Remove drops exactly the entry where the search for
      k stops, if that entry carries k, and nothing otherwise. */
  lemma {:induction false} RemoveAt<V>(es: seq<(int, V)>, p: int, k: int)
    requires StrictlySorted(es) && SplitAt(es, p, k)
    ensures p < |es| && es[p].0 == k ==> Remove(es, k) == es[..p] + es[p + 1..]
    ensures !(p < |es| && es[p].0 == k) ==> Remove(es, k) == es
  {
    if p == 0 {
      if es != [] {
        RemoveAbsent(es[1..], k);
        if es[0].0 != k {
          assert [es[0]] + es[1..] == es;
        }
      }
    } else {
      RemoveAt(es[1..], p - 1, k);
      if p < |es| && es[p].0 == k {
        assert es[..p] + es[p + 1..] == [es[0]] + (es[1..][..p - 1] + es[1..][p..]);
      } else {
        assert [es[0]] + es[1..] == es;
      }
    }
  }

  /** Upsert keeps a sequence sorted and adds at most one entry. */
  lemma UpsertSorted<V>(es: seq<(int, V)>, k: int, v: V)
    requires StrictlySorted(es)
    ensures StrictlySorted(Upsert(es, k, v))
    ensures |Upsert(es, k, v)| == |es| + (if k in ToMap(es) then 0 else 1)
  {
    var p := SearchPos(es, k);
    UpsertAt(es, p, k, v);
    LookupAt(es, p, k);
  }

  /** Remove keeps a sequence sorted and drops one entry exactly when the key is present. */
  lemma RemoveSorted<V>(es: seq<(int, V)>, k: int)
    requires StrictlySorted(es)
    ensures StrictlySorted(Remove(es, k))
    ensures |Remove(es, k)| == |es| - (if k in ToMap(es) then 1 else 0)
  {
    var p := SearchPos(es, k);
    RemoveAt(es, p, k);
    LookupAt(es, p, k);
  }
}
