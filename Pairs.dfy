/**
 * The (key, value) pair exchanged between the map phase and the shuffle
 * phase, and the specification functions that describe a sequence of pairs
 * grouped by key.
 *
 * `Pair.java` is not part of this model; the pair is declared here with
 * statically typed key and value in place of the source's raw `Pair`.
 */
module Pairs {

  /** An immutable key/value pair. */
  datatype Pair<K, V> = Pair(key: K, value: V)

  /** The keys that occur in `ps`. */
  ghost function KeysOf<K, V>(ps: seq<Pair<K, V>>): set<K>
  {
    set p | p in ps :: p.key
  }

  /** The values paired with key `k` in `ps`, in the order they occur. */
  ghost function ValuesOf<K, V>(ps: seq<Pair<K, V>>, k: K): (vs: seq<V>)
    ensures |vs| <= |ps|
    ensures |vs| > 0 <==> k in KeysOf(ps)
  {
    if ps == [] then []
    else (if ps[0].key == k then [ps[0].value] else []) + ValuesOf(ps[1..], k)
  }

  /** The pairs of `ps` whose key is in `ks`, in the order they occur. */
  ghost function Select<K, V>(ps: seq<Pair<K, V>>, ks: set<K>): (r: seq<Pair<K, V>>)
    ensures |r| <= |ps|
    ensures forall i :: 0 <= i < |r| ==> r[i] in ps && r[i].key in ks
    ensures forall i :: 0 <= i < |ps| && ps[i].key in ks ==> ps[i] in r
  {
    if ps == [] then []
    else (if ps[0].key in ks then [ps[0]] else []) + Select(ps[1..], ks)
  }

  /** The pairs (k, v) for every v of `vs`, in order. */
  ghost function Expand<K, V>(k: K, vs: seq<V>): (r: seq<Pair<K, V>>)
    ensures |r| == |vs|
    ensures forall i :: 0 <= i < |r| ==> r[i] == Pair(k, vs[i])
  {
    if vs == [] then [] else [Pair(k, vs[0])] + Expand(k, vs[1..])
  }

  /** The number of values held by all the groups of `gs`. */
  ghost function TotalValues<K, V>(gs: seq<Pair<K, seq<V>>>): nat
  {
    if gs == [] then 0 else |gs[0].value| + TotalValues(gs[1..])
  }

  /** Every group of `gs` flattened back into single pairs, group after group. */
  ghost function Ungroup<K, V>(gs: seq<Pair<K, seq<V>>>): (r: seq<Pair<K, V>>)
    ensures |r| == TotalValues(gs)
  {
    if gs == [] then [] else Expand(gs[0].key, gs[0].value) + Ungroup(gs[1..])
  }

  /** No key occurs twice in `gs`. */
  ghost predicate KeysDistinct<K, V>(gs: seq<Pair<K, V>>)
  {
    forall i, j :: 0 <= i < j < |gs| ==> gs[i].key != gs[j].key
  }

  /** Appending one pair extends the values of its key by its value and leaves the other keys alone. */
  lemma ValuesOfSnoc<K, V>(ps: seq<Pair<K, V>>, p: Pair<K, V>, k: K)
    ensures ValuesOf(ps + [p], k) == ValuesOf(ps, k) + (if p.key == k then [p.value] else [])
  {
    ValuesOfAppend(ps, [p], k);
    assert ValuesOf([p], k) == (if p.key == k then [p.value] else []) + ValuesOf([p][1..], k);
  }

  /** Listing the values of key `k` as pairs gives back exactly the pairs of `ps` with key `k`. */
  lemma {:induction false} ExpandValuesOf<K, V>(ps: seq<Pair<K, V>>, k: K)
    ensures Expand(k, ValuesOf(ps, k)) == Select(ps, {k})
  {
    if ps != [] {
      ExpandValuesOf(ps[1..], k);
      ExpandAppend(k, if ps[0].key == k then [ps[0].value] else [], ValuesOf(ps[1..], k));
    }
  }

  lemma {:induction false} ExpandAppend<K, V>(k: K, a: seq<V>, b: seq<V>)
    ensures Expand(k, a + b) == Expand(k, a) + Expand(k, b)
  {
    var l, r := Expand(k, a + b), Expand(k, a) + Expand(k, b);
    assert |l| == |r|;
    forall i | 0 <= i < |l| ensures l[i] == r[i] {
      if i < |a| {
        assert r[i] == Expand(k, a)[i];
      } else {
        assert r[i] == Expand(k, b)[i - |a|];
      }
    }
  }

  /** Selecting the keys of two disjoint sets selects each pair at most once and none is lost. */
  lemma {:induction false} SelectUnion<K, V>(ps: seq<Pair<K, V>>, a: set<K>, b: set<K>)
    requires a !! b
    ensures multiset(Select(ps, a + b)) == multiset(Select(ps, a)) + multiset(Select(ps, b))
  {
    if ps != [] {
      SelectUnion(ps[1..], a, b);
    }
  }

  /** Selecting every key that occurs keeps the whole sequence. */
  lemma {:induction false} SelectAll<K, V>(ps: seq<Pair<K, V>>, ks: set<K>)
    requires KeysOf(ps) <= ks
    ensures Select(ps, ks) == ps
  {
    if ps != [] {
      assert KeysOf(ps[1..]) <= KeysOf(ps) by {
        forall p | p in ps[1..] ensures p in ps { }
      }
      SelectAll(ps[1..], ks);
      assert ps == [ps[0]] + ps[1..];
    }
  }

  /** Flattening groups with distinct keys, each holding the values of its key in `ps`, yields the pairs of `ps` with those keys. */
  lemma {:induction false} UngroupSelects<K, V>(gs: seq<Pair<K, seq<V>>>, ps: seq<Pair<K, V>>)
    requires KeysDistinct(gs)
    requires forall i :: 0 <= i < |gs| ==> gs[i].value == ValuesOf(ps, gs[i].key)
    ensures multiset(Ungroup(gs)) == multiset(Select(ps, KeysOf(gs)))
  {
    if gs != [] {
      var g, rest := gs[0], gs[1..];
      SplitFirstKey(gs);
      UngroupSelects(rest, ps);
      ExpandValuesOf(ps, g.key);
      SelectUnion(ps, {g.key}, KeysOf(rest));
      assert Ungroup(gs) == Select(ps, {g.key}) + Ungroup(rest);
    }
  }

  /** The first group's key is not among the others', which again have distinct keys. */
  lemma SplitFirstKey<K, V>(gs: seq<Pair<K, V>>)
    requires KeysDistinct(gs) && gs != []
    ensures KeysDistinct(gs[1..])
    ensures KeysOf(gs) == {gs[0].key} + KeysOf(gs[1..])
    ensures gs[0].key !in KeysOf(gs[1..])
  {
    var rest := gs[1..];
    forall i, j | 0 <= i < j < |rest| ensures rest[i].key != rest[j].key {
      assert rest[i] == gs[i + 1] && rest[j] == gs[j + 1];
    }
    assert gs == [gs[0]] + rest;
    KeysOfAppend([gs[0]], rest);
    assert KeysOf([gs[0]]) == {gs[0].key};
    forall p | p in rest ensures p.key != gs[0].key {
      var j :| 0 <= j < |rest| && rest[j] == p;
      assert gs[j + 1] == p;
    }
  }

  lemma {:induction false} ValuesOfAppend<K, V>(a: seq<Pair<K, V>>, b: seq<Pair<K, V>>, k: K)
    ensures ValuesOf(a + b, k) == ValuesOf(a, k) + ValuesOf(b, k)
  {
    if a != [] {
      assert (a + b)[1..] == a[1..] + b;
      ValuesOfAppend(a[1..], b, k);
    } else {
      assert a + b == b;
    }
  }

  lemma {:induction false} ValuesOfExpand<K, V>(k: K, vs: seq<V>, key: K)
    ensures ValuesOf(Expand(k, vs), key) == if k == key then vs else []
  {
    if vs != [] {
      var e := Expand(k, vs);
      assert e[1..] == Expand(k, vs[1..]);
      ValuesOfExpand(k, vs[1..], key);
      if k == key {
        assert vs == [vs[0]] + vs[1..];
      }
    }
  }

  /** Flattening groups only produces keys of the groups, and every key of a non-empty group. */
  lemma {:induction false} KeysOfUngroup<K, V>(gs: seq<Pair<K, seq<V>>>)
    ensures KeysOf(Ungroup(gs)) <= KeysOf(gs)
    ensures (forall i :: 0 <= i < |gs| ==> |gs[i].value| > 0) ==> KeysOf(Ungroup(gs)) == KeysOf(gs)
  {
    if gs != [] {
      var g, rest := gs[0], gs[1..];
      KeysOfUngroup(rest);
      var e := Expand(g.key, g.value);
      assert Ungroup(gs) == e + Ungroup(rest);
      assert KeysOf(e + Ungroup(rest)) == KeysOf(e) + KeysOf(Ungroup(rest)) by {
        forall p | p in e + Ungroup(rest) ensures p in e || p in Ungroup(rest) { }
      }
      assert KeysOf(e) <= {g.key};
      assert |g.value| > 0 ==> e[0] in e && KeysOf(e) == {g.key};
      assert gs == [g] + rest;
      assert KeysOf(gs) == {g.key} + KeysOf(rest);
      if forall i :: 0 <= i < |gs| ==> |gs[i].value| > 0 {
        assert forall i :: 0 <= i < |rest| ==> |rest[i].value| > 0 by {
          forall i | 0 <= i < |rest| ensures |rest[i].value| > 0 {
            assert rest[i] == gs[i + 1];
          }
        }
      }
    }
  }

  /** Flattening groups with distinct keys keeps, for each key, exactly that group's values in order. */
  lemma {:induction false} ValuesOfUngroup<K, V>(gs: seq<Pair<K, seq<V>>>, k: K)
    requires KeysDistinct(gs)
    ensures ValuesOf(Ungroup(gs), k) == if k in KeysOf(gs) then gs[KeyIndex(gs, k)].value else []
  {
    if gs != [] {
      var g, rest := gs[0], gs[1..];
      SplitFirstKey(gs);
      ValuesOfUngroup(rest, k);
      ValuesOfAppend(Expand(g.key, g.value), Ungroup(rest), k);
      ValuesOfExpand(g.key, g.value, k);
      if k == g.key {
        KeyIndexUnique(gs, k, 0);
      } else if k in KeysOf(rest) {
        var j := KeyIndex(rest, k);
        assert gs[j + 1] == rest[j];
        KeyIndexUnique(gs, k, j + 1);
      }
    }
  }

  /** The position of key `k` in `gs`. */
  ghost function KeyIndex<K, V>(gs: seq<Pair<K, V>>, k: K): (i: nat)
    requires k in KeysOf(gs)
    ensures i < |gs| && gs[i].key == k
  {
    var i :| 0 <= i < |gs| && gs[i] in gs && gs[i].key == k; i
  }

  lemma KeyIndexUnique<K, V>(gs: seq<Pair<K, V>>, k: K, i: nat)
    requires KeysDistinct(gs) && i < |gs| && gs[i].key == k
    ensures k in KeysOf(gs) && KeyIndex(gs, k) == i
  {
    assert gs[i] in gs;
  }

  /** Only the empty sequence has no keys. */
  lemma KeysOfEmpty<K, V>(ps: seq<Pair<K, V>>)
    ensures KeysOf(ps) == {} <==> ps == []
  {
    if ps != [] {
      assert ps[0] in ps && ps[0].key in KeysOf(ps);
    }
  }

  lemma KeysOfAppend<K, V>(a: seq<Pair<K, V>>, b: seq<Pair<K, V>>)
    ensures KeysOf(a + b) == KeysOf(a) + KeysOf(b)
  {
    forall p | p in a + b ensures p in a || p in b { }
    forall p | p in a ensures p in a + b { }
    forall p | p in b ensures p in a + b { }
  }
}
