/**
 * The shuffle phase: group a flat sequence of (key, value) pairs by key and
 * sort the groups by key.
 *
 * `Shuffler` has no fields, so its two operations are methods of this module.
 * The grouping loop fills a hash map from each key to the list of its values;
 * the map is then copied into a list in the map's own (unspecified) iteration
 * order, and the list is sorted by key with `String.compareTo`.
 */
module Shuffler {
  import opened JavaString
  import opened Pairs

  /** A shuffled group: one key with all of its values. */
  type Group<V> = Pair<JString, seq<V>>

  /** Keys strictly ascending under `String.compareTo`. */
  ghost predicate StrictlySorted<V>(gs: seq<Group<V>>)
  {
    forall i, j :: 0 <= i < j < |gs| ==> Less(gs[i].key, gs[j].key)
  }

  /** No group is followed by one whose key sorts before its own. */
  ghost predicate SortedByKey<V>(gs: seq<Group<V>>)
  {
    forall i, j :: 0 <= i < j < |gs| ==> !Less(gs[j].key, gs[i].key)
  }

  /**
   * `gs` is the shuffle of `ps`: sorted strictly by key, holding exactly the
   * keys of `ps`, and each key's group holding that key's values in input order.
   */
  ghost predicate IsShuffleOf<V>(gs: seq<Group<V>>, ps: seq<Pair<JString, V>>)
  {
    && StrictlySorted(gs)
    && KeysOf(gs) == KeysOf(ps)
    && forall i :: 0 <= i < |gs| ==> gs[i].value == ValuesOf(ps, gs[i].key)
  }

  /** `Shuffler.execute`: the shuffle of the mapped pairs. */
  method Execute<V>(input: seq<Pair<JString, V>>) returns (output: seq<Group<V>>)
    ensures IsShuffleOf(output, input)
  {
    output := Shuffle(input);
  }

  /** `Shuffler.shuffle`: group by key into a hash map, list the entries, sort them by key. */
  method Shuffle<V>(input: seq<Pair<JString, V>>) returns (output: seq<Group<V>>)
    ensures IsShuffleOf(output, input)
  {
    var hashMap := GroupByKey(input);
    var entries := ListEntries(hashMap);
    output := SortByKey(entries);
    SortedEntriesAreShuffle(entries, output, hashMap, input);
  }

  /** The grouping loop of `shuffle`: each key maps to its values in the order they are met. */
  method GroupByKey<V>(input: seq<Pair<JString, V>>) returns (hashMap: map<JString, seq<V>>)
    ensures hashMap.Keys == KeysOf(input)
    ensures forall k :: k in hashMap ==> hashMap[k] == ValuesOf(input, k)
  {
    hashMap := map[];
    for i := 0 to |input|
      invariant hashMap.Keys == KeysOf(input[..i])
      invariant forall k :: k in hashMap ==> hashMap[k] == ValuesOf(input[..i], k)
    {
      var key, value := input[i].key, input[i].value;
      assert input[..i + 1] == input[..i] + [input[i]];
      forall k ensures ValuesOf(input[..i + 1], k) == ValuesOf(input[..i], k) + (if key == k then [value] else []) {
        ValuesOfSnoc(input[..i], input[i], k);
      }
      KeysOfAppend(input[..i], [input[i]]);
      assert KeysOf([input[i]]) == {key};
      if key !in hashMap {
        assert ValuesOf(input[..i], key) == [];
        hashMap := hashMap[key := [value]];
      } else {
        var values := hashMap[key];
        hashMap := hashMap[key := values + [value]];
      }
    }
    assert input[..|input|] == input;
  }

  /** The copying loop of `shuffle`: one entry per key of the map, in an order the map does not specify. */
  method ListEntries<V>(hashMap: map<JString, seq<V>>) returns (entries: seq<Group<V>>)
    ensures KeysOf(entries) == hashMap.Keys
    ensures KeysDistinct(entries)
    ensures forall j :: 0 <= j < |entries| ==> entries[j].key in hashMap && entries[j].value == hashMap[entries[j].key]
  {
    entries := [];
    var remaining := hashMap.Keys;
    while remaining != {}
      invariant remaining <= hashMap.Keys
      invariant KeysOf(entries) == hashMap.Keys - remaining
      invariant KeysDistinct(entries)
      invariant forall j :: 0 <= j < |entries| ==> entries[j].key in hashMap && entries[j].value == hashMap[entries[j].key]
      decreases remaining
    {
      var key :| key in remaining;
      assert forall j :: 0 <= j < |entries| ==> entries[j] in entries;
      KeysOfAppend(entries, [Pair(key, hashMap[key])]);
      assert KeysOf([Pair(key, hashMap[key])]) == {key};
      entries := entries + [Pair(key, hashMap[key])];
      remaining := remaining - {key};
    }
  }

  /** Sorting the listed entries of the grouping map yields the shuffle of the input. */
  lemma SortedEntriesAreShuffle<V>(entries: seq<Group<V>>, sorted: seq<Group<V>>, hashMap: map<JString, seq<V>>, input: seq<Pair<JString, V>>)
    requires KeysDistinct(entries)
    requires KeysOf(entries) == hashMap.Keys == KeysOf(input)
    requires forall k :: k in hashMap ==> hashMap[k] == ValuesOf(input, k)
    requires forall j :: 0 <= j < |entries| ==> entries[j].key in hashMap && entries[j].value == hashMap[entries[j].key]
    requires SortedByKey(sorted) && multiset(sorted) == multiset(entries)
    ensures IsShuffleOf(sorted, input)
  {
    assert forall g :: g in sorted <==> g in entries by {
      forall g ensures g in sorted <==> g in entries {
        assert g in sorted <==> g in multiset(sorted);
        assert g in entries <==> g in multiset(entries);
      }
    }
    assert forall i, j :: 0 <= i < j < |entries| ==> entries[i] != entries[j];
    DistinctMultiset(entries);
    MultisetDistinct(sorted);
    forall i, j | 0 <= i < j < |sorted| ensures Less(sorted[i].key, sorted[j].key) {
      assert sorted[i] in entries && sorted[j] in entries;
      LessTrichotomy(sorted[i].key, sorted[j].key);
    }
    assert KeysOf(sorted) == KeysOf(entries) by {
      forall k ensures k in KeysOf(sorted) <==> k in KeysOf(entries) {
        if k in KeysOf(sorted) {
          var g :| g in sorted && g.key == k;
          assert g in entries;
        }
        if k in KeysOf(entries) {
          var g :| g in entries && g.key == k;
          assert g in sorted;
        }
      }
    }
    forall i | 0 <= i < |sorted| ensures sorted[i].value == ValuesOf(input, sorted[i].key) {
      assert sorted[i] in entries;
    }
  }

  /** A sequence whose elements are pairwise distinct holds each of them once. */
  lemma {:induction false} DistinctMultiset<T>(s: seq<T>)
    requires forall i, j :: 0 <= i < j < |s| ==> s[i] != s[j]
    ensures forall x :: multiset(s)[x] <= 1
  {
    if s != [] {
      DistinctMultiset(s[1..]);
      assert s == [s[0]] + s[1..];
      assert s[0] !in s[1..];
    }
  }

  /** A sequence that holds each element at most once has pairwise distinct elements. */
  lemma MultisetDistinct<T>(s: seq<T>)
    requires forall x :: multiset(s)[x] <= 1
    ensures forall i, j :: 0 <= i < j < |s| ==> s[i] != s[j]
  {
    forall i, j | 0 <= i < j < |s| ensures s[i] != s[j] {
      assert s == s[..j] + [s[j]] + s[j + 1..];
      assert s[i] in s[..j];
      assert multiset(s)[s[j]] == multiset(s[..j])[s[j]] + 1 + multiset(s[j + 1..])[s[j]];
    }
  }

  /** `List.sort` with the key comparator: a permutation of the groups, ordered by key. */
  method SortByKey<V>(groups: seq<Group<V>>) returns (sorted: seq<Group<V>>)
    ensures SortedByKey(sorted)
    ensures multiset(sorted) == multiset(groups)
  {
    sorted := [];
    for i := 0 to |groups|
      invariant SortedByKey(sorted)
      invariant multiset(sorted) == multiset(groups[..i])
    {
      var g := groups[i];
      var j := 0;
      while j < |sorted| && !Less(g.key, sorted[j].key)
        invariant 0 <= j <= |sorted|
        invariant forall k :: 0 <= k < j ==> !Less(g.key, sorted[k].key)
      {
        j := j + 1;
      }
      InsertKeepsSorted(sorted, j, g);
      assert sorted == sorted[..j] + sorted[j..];
      sorted := sorted[..j] + [g] + sorted[j..];
      assert groups[..i + 1] == groups[..i] + [g];
    }
    assert groups[..|groups|] == groups;
  }

  /** Inserting a group after every key it does not sort before, and before the next, keeps the order. */
  lemma InsertKeepsSorted<V>(s: seq<Group<V>>, j: nat, g: Group<V>)
    requires SortedByKey(s) && j <= |s|
    requires forall k :: 0 <= k < j ==> !Less(g.key, s[k].key)
    requires j < |s| ==> Less(g.key, s[j].key)
    ensures SortedByKey(s[..j] + [g] + s[j..])
  {
    var t := s[..j] + [g] + s[j..];
    forall a, b | 0 <= a < b < |t| ensures !Less(t[b].key, t[a].key) {
      if a == j {
        assert t[b] == s[b - 1];
        LessTransitive(s[b - 1].key, g.key, s[j].key);
        LessIrreflexive(s[j].key);
      }
    }
  }

  /** Each key occurs at most once in the shuffle. */
  lemma ShuffleKeysDistinct<V>(gs: seq<Group<V>>, ps: seq<Pair<JString, V>>)
    requires IsShuffleOf(gs, ps)
    ensures KeysDistinct(gs)
  {
    StrictlySortedDistinct(gs);
  }

  /** Every group of the shuffle holds at least one value. */
  lemma ShuffleGroupsNonEmpty<V>(gs: seq<Group<V>>, ps: seq<Pair<JString, V>>)
    requires IsShuffleOf(gs, ps)
    ensures forall i :: 0 <= i < |gs| ==> |gs[i].value| > 0
  {
    forall i | 0 <= i < |gs| ensures |gs[i].value| > 0 {
      assert gs[i] in gs;
    }
  }

  /**
   * No pair is lost or duplicated: flattening the shuffle gives back the input
   * pairs (as a multiset), so the group sizes add up to the number of input pairs.
   */
  lemma ShuffleConservesPairs<V>(gs: seq<Group<V>>, ps: seq<Pair<JString, V>>)
    requires IsShuffleOf(gs, ps)
    ensures multiset(Ungroup(gs)) == multiset(ps)
    ensures TotalValues(gs) == |ps|
  {
    ShuffleKeysDistinct(gs, ps);
    UngroupSelects(gs, ps);
    SelectAll(ps, KeysOf(ps));
    assert |multiset(Ungroup(gs))| == |multiset(ps)|;
  }

  /** Two strictly sorted group sequences with the same keys list those keys in the same order. */
  lemma {:induction false} SortedKeysUnique<V>(a: seq<Group<V>>, b: seq<Group<V>>)
    requires StrictlySorted(a) && StrictlySorted(b) && KeysOf(a) == KeysOf(b)
    ensures |a| == |b| && forall i :: 0 <= i < |a| ==> a[i].key == b[i].key
  {
    KeysOfEmpty(a);
    KeysOfEmpty(b);
    if a != [] {
      assert a[0] in a && b[0] in b;
      FirstKeyIsLeast(b, a[0].key);
      FirstKeyIsLeast(a, b[0].key);
      LessTrichotomy(a[0].key, b[0].key);
      StrictlySortedDistinct(a);
      StrictlySortedDistinct(b);
      SplitFirstKey(a);
      SplitFirstKey(b);
      SortedKeysUnique(a[1..], b[1..]);
    }
  }

  /** A strictly sorted sequence repeats no key. */
  lemma StrictlySortedDistinct<V>(gs: seq<Group<V>>)
    requires StrictlySorted(gs)
    ensures KeysDistinct(gs)
  {
    forall i, j | 0 <= i < j < |gs| ensures gs[i].key != gs[j].key {
      LessTrichotomy(gs[i].key, gs[j].key);
    }
  }

  /** In a strictly sorted sequence the first key sorts before every other key. */
  lemma FirstKeyIsLeast<V>(gs: seq<Group<V>>, k: JString)
    requires StrictlySorted(gs) && k in KeysOf(gs)
    ensures gs != [] && (gs[0].key == k || Less(gs[0].key, k))
  {
    var g :| g in gs && g.key == k;
    var j :| 0 <= j < |gs| && gs[j] == g;
  }

  /** The shuffle is determined by its input: whatever order the hash map lists its entries in. */
  lemma ShuffleUnique<V>(a: seq<Group<V>>, b: seq<Group<V>>, ps: seq<Pair<JString, V>>)
    requires IsShuffleOf(a, ps) && IsShuffleOf(b, ps)
    ensures a == b
  {
    SortedKeysUnique(a, b);
  }

  /** Shuffling the flattened shuffle gives the same groups back. */
  lemma ShuffleIdempotent<V>(gs: seq<Group<V>>, ps: seq<Pair<JString, V>>)
    requires IsShuffleOf(gs, ps)
    ensures IsShuffleOf(gs, Ungroup(gs))
  {
    ShuffleKeysDistinct(gs, ps);
    ShuffleGroupsNonEmpty(gs, ps);
    KeysOfUngroup(gs);
    forall i | 0 <= i < |gs| ensures gs[i].value == ValuesOf(Ungroup(gs), gs[i].key) {
      ValuesOfUngroup(gs, gs[i].key);
      KeyIndexUnique(gs, gs[i].key, i);
    }
  }

  /** No pairs shuffle to no groups, and only no pairs do. */
  lemma ShuffleOfEmpty<V>(gs: seq<Group<V>>, ps: seq<Pair<JString, V>>)
    requires IsShuffleOf(gs, ps)
    ensures gs == [] <==> ps == []
  {
    KeysOfEmpty(gs);
    KeysOfEmpty(ps);
  }

  /** The pairs ("A", 1), ("B", 2), ("A", 3) shuffle to ("A", [1, 3]), ("B", [2]). */
  lemma ShuffleExample(gs: seq<Group<int>>)
    requires IsShuffleOf(gs, [Pair([65], 1), Pair([66], 2), Pair([65], 3)])
    ensures gs == [Pair([65], [1, 3]), Pair([66], [2])]
  {
    var a, b: JString := [65], [66];
    var ps := [Pair(a, 1), Pair(b, 2), Pair(a, 3)];
    var expected := [Pair(a, [1, 3]), Pair(b, [2])];
    assert Less(a, b);
    assert KeysOf(ps) == {a, b} by {
      assert ps[0] in ps && ps[1] in ps;
    }
    assert KeysOf(expected) == {a, b} by {
      assert expected[0] in expected && expected[1] in expected;
    }
    assert ps[1..][1..] == [Pair(a, 3)];
    assert ValuesOf(ps, a) == [1, 3];
    assert ValuesOf(ps, b) == [2];
    ShuffleUnique(gs, expected, ps);
  }
}
