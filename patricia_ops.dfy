/**
 * PatriciaOps: the index operations of one core over its shared trie. The trie is updated in
 * place by put, remove and the enqueue job; each of those is proved to follow the matching
 * function of module IndexSpec, and the queries are proved against what they promise.
 */
module Ops {
  import opened Common
  import opened JavaString
  import opened Collections
  import opened IndexSpec

  /** NUM_PREFIX_MATCHES: the most answers a prefix query returns. */
  const NUM_PREFIX_MATCHES: nat := 10

  class PatriciaOps {
    /** The shared trie: derived key to indexed string. */
    var trie: Trie
    /** The analyzer and the distance ranking the operations consult. */
    const analyzer: Analyzer

    ghost predicate Valid()
    {
      WellFormed(analyzer)
    }

    constructor (analyzer: Analyzer, trie: Trie)
      requires WellFormed(analyzer)
      ensures this.analyzer == analyzer && this.trie == trie
      ensures Valid()
    {
      this.analyzer := analyzer;
      this.trie := trie;
    }

    /** size(): the number of keys in the trie. */
    function Size(): (n: nat)
      reads this
      ensures n == 0 <==> trie == map[]
    {
      |trie|
    }

    /** firstKey(): the smallest key in String's natural order; an empty trie has none. */
    method FirstKey() returns (k: Option<string>)
      ensures k.None? <==> trie == map[]
      ensures k.Some? ==> k.value in trie && forall x :: x in trie && x != k.value ==> Less(k.value, x)
    {
      k := None;
      var rest := trie.Keys;
      while rest != {}
        invariant rest <= trie.Keys
        invariant k.None? <==> rest == trie.Keys
        invariant k.Some? ==> k.value in trie && k.value !in rest
        invariant k.Some? ==> forall x :: x in trie && x !in rest && x != k.value ==> Less(k.value, x)
        decreases |rest|
      {
        var x :| x in rest;
        if k.None? || Less(x, k.value) {
          forall y | k.Some? && y in trie && y !in rest && y != k.value
            ensures Less(x, y)
          {
            LessTransitive(x, k.value, y);
          }
          k := Some(x);
        } else {
          Trichotomy(x, k.value);
        }
        rest := rest - {x};
      }
      if trie != map[] {
        var x :| x in trie;
      }
    }

    /** lastKey(): the greatest key in String's natural order; an empty trie has none. */
    method LastKey() returns (k: Option<string>)
      ensures k.None? <==> trie == map[]
      ensures k.Some? ==> k.value in trie && forall x :: x in trie && x != k.value ==> Less(x, k.value)
    {
      k := None;
      var rest := trie.Keys;
      while rest != {}
        invariant rest <= trie.Keys
        invariant k.None? <==> rest == trie.Keys
        invariant k.Some? ==> k.value in trie && k.value !in rest
        invariant k.Some? ==> forall x :: x in trie && x !in rest && x != k.value ==> Less(x, k.value)
        decreases |rest|
      {
        var x :| x in rest;
        if k.None? || Less(k.value, x) {
          forall y | k.Some? && y in trie && y !in rest && y != k.value
            ensures Less(y, x)
          {
            LessTransitive(y, k.value, x);
          }
          k := Some(x);
        } else {
          Trichotomy(x, k.value);
        }
        rest := rest - {x};
      }
      if trie != map[] {
        var x :| x in trie;
      }
    }

    /**
     * put(strings): every derived key of every string is written, in array order, and the
     * answer maps each string to its own derived keys in the order they were written.
     */
    method Put(strings: seq<string>) returns (result: map<string, seq<string>>)
      modifies this
      ensures trie == PutAll(old(trie), analyzer, strings)
      ensures result.Keys == Elements(strings)
      ensures forall s :: s in result ==> result[s] == analyzer.indexKeys(s)
      ensures old(Size()) <= Size()
    {
      result := map[];
      for i := 0 to |strings|
        invariant PutAll(trie, analyzer, strings[i..]) == PutAll(old(trie), analyzer, strings)
        invariant result.Keys == Elements(strings[..i])
        invariant forall s :: s in result ==> result[s] == analyzer.indexKeys(s)
      {
        var s := strings[i];
        var entries := analyzer.indexKeys(s);
        var keys: seq<string> := [];
        ghost var before := trie;
        for j := 0 to |entries|
          invariant PutKeys(trie, s, entries[j..]) == PutKeys(before, s, entries)
          invariant keys == entries[..j]
        {
          trie := trie[entries[j] := s];
          keys := keys + [entries[j]];
          assert entries[..j + 1] == entries[..j] + [entries[j]];
        }
        assert entries[|entries|..] == [] && keys == entries;
        assert strings[i..][1..] == strings[i + 1..];
        result := result[s := keys];
        assert Elements(strings[..i + 1]) == Elements(strings[..i]) + {s} by {
          assert strings[..i + 1] == strings[..i] + [s];
        }
      }
      assert strings[|strings|..] == [];
      assert strings[..|strings|] == strings;
      PutNeverShrinks(old(trie), analyzer, strings);
    }

    /**
     * getPrefixedBy(prefix): nothing when no key starts with the search key; otherwise the (at
     * most NUM_PREFIX_MATCHES) smallest distinct matching values in String's natural order,
     * ranked by the distance comparator, ties kept in natural order.
     */
    method GetPrefixedBy(prefix: string) returns (result: seq<string>)
      requires Valid()
      ensures var matching := MatchingValues(trie, analyzer.prefixSearchKey(prefix));
        && (result == [] <==> matching == {})
        && |result| == Min(NUM_PREFIX_MATCHES, |matching|)
        && Distinct(result)
        && (forall v :: v in result ==> v in matching)
        && (forall v, w :: v in result && w in matching && w !in result ==> Less(v, w))
      ensures SortedBy(analyzer.distance(prefix), result)
      ensures TiesInNaturalOrder(analyzer.distance(prefix), result)
    {
      var key := analyzer.prefixSearchKey(prefix);
      var prefixedBy := map k | k in trie && key <= k :: trie[k];
      SubMapValues(trie, key, prefixedBy);
      if |prefixedBy| == 0 {
        assert prefixedBy == map[];
        return [];
      }
      var k0 :| k0 in prefixedBy;
      assert prefixedBy[k0] in MatchingValues(trie, key);

      var sorted := TreeSetOf(prefixedBy.Values);
      var capped := sorted;
      if |sorted| > NUM_PREFIX_MATCHES {
        capped := sorted[..NUM_PREFIX_MATCHES];
      }
      result := Sort(capped, analyzer.distance(prefix));
      CapThenRank(sorted, capped, result);
    }

    /** getPrefixedByCount(s): the number of answers getPrefixedBy gives, so at most ten. */
    method GetPrefixedByCount(s: string) returns (count: int)
      requires Valid()
      ensures count == Min(NUM_PREFIX_MATCHES, |MatchingValues(trie, analyzer.prefixSearchKey(s))|)
      ensures 0 <= count <= NUM_PREFIX_MATCHES
    {
      var answers := GetPrefixedBy(s);
      count := |answers|;
    }

    /**
     * remove(strings): every derived key of every string is removed, in array order; the
     * answer maps each string to what the removal of its last key returned.
     */
    method Remove(strings: seq<string>) returns (result: Removed)
      modifies this
      ensures (trie, result) == RemoveAll(old(trie), map[], analyzer, strings)
      ensures Size() == old(Size()) - |old(trie).Keys * DerivedKeys(analyzer, strings)|
    {
      result := map[];
      for i := 0 to |strings|
        invariant RemoveAll(trie, result, analyzer, strings[i..])
               == RemoveAll(old(trie), map[], analyzer, strings)
      {
        var s := strings[i];
        var entries := analyzer.indexKeys(s);
        ghost var trieBefore, resultBefore := trie, result;
        for j := 0 to |entries|
          invariant RemoveKeys(trie, result, s, entries[j..])
                 == RemoveKeys(trieBefore, resultBefore, s, entries)
        {
          var key := entries[j];
          var previous := Lookup(trie, key);
          trie := trie - {key};
          result := result[s := previous];
        }
        assert entries[|entries|..] == [];
        assert strings[i..][1..] == strings[i + 1..];
      }
      assert strings[|strings|..] == [];
      RemoveShrinksBy(old(trie), analyzer, strings);
    }

    /**
     * The job enqueue hands to the put pool, run to completion: for each derived key of each
     * string, an absent key makes the string be put; a present key makes its preferred
     * occupant be put, unless the present occupant is the preferred one.
     */
    method Enqueue(strings: seq<string>)
      modifies this
      ensures trie == EnqueueAll(old(trie), analyzer, strings)
    {
      for i := 0 to |strings|
        invariant EnqueueAll(trie, analyzer, strings[i..]) == EnqueueAll(old(trie), analyzer, strings)
      {
        var s := strings[i];
        var entries := analyzer.indexKeys(s);
        ghost var before := trie;
        for j := 0 to |entries|
          invariant EnqueueKeys(trie, analyzer, s, entries[j..]) == EnqueueKeys(before, analyzer, s, entries)
        {
          var key := entries[j];
          if key in trie {
            var existing := trie[key];
            var winner := analyzer.preferred(existing, s);
            if winner != existing {
              var _ := Put([winner]);
            }
          } else {
            var _ := Put([s]);
          }
        }
        assert entries[|entries|..] == [];
        assert strings[i..][1..] == strings[i + 1..];
      }
      assert strings[|strings|..] == [];
    }
  }

  /** The values of the prefix sub-map are the matching values. */
  lemma SubMapValues(trie: Trie, key: string, prefixedBy: Trie)
    requires prefixedBy == map k | k in trie && key <= k :: trie[k]
    ensures prefixedBy.Values == MatchingValues(trie, key)
  {
    forall v ensures v in prefixedBy.Values <==> v in MatchingValues(trie, key) {
      if v in MatchingValues(trie, key) {
        var k :| k in trie && key <= k && trie[k] == v;
        assert prefixedBy[k] == v;
      }
      if v in prefixedBy.Values {
        var k :| k in prefixedBy && prefixedBy[k] == v;
      }
    }
  }

  /**
   * Capping the natural-order list at NUM_PREFIX_MATCHES and then reordering it keeps the
   * smallest values: the answer is duplicate-free, as long as the cap, and every value it
   * holds precedes every value it leaves out.
   */
  lemma CapThenRank(sorted: seq<string>, capped: seq<string>, result: seq<string>)
    requires StrictlyIncreasing(sorted)
    requires capped == if |sorted| > NUM_PREFIX_MATCHES then sorted[..NUM_PREFIX_MATCHES] else sorted
    requires multiset(result) == multiset(capped)
    ensures Distinct(result) && |result| == Min(NUM_PREFIX_MATCHES, |sorted|)
    ensures forall v :: v in result <==> v in capped
    ensures forall v, w :: v in result && w in sorted && w !in result ==> Less(v, w)
  {
    assert StrictlyIncreasing(capped);
    IncreasingIsDistinct(capped);
    DistinctPermutation(capped, result);
    forall v ensures v in result <==> v in capped {
      assert v in result <==> v in multiset(result);
      assert v in capped <==> v in multiset(capped);
    }
    assert |result| == |multiset(result)| == |multiset(capped)| == |capped|;
    forall v, w | v in result && w in sorted && w !in result
      ensures Less(v, w)
    {
      var i :| 0 <= i < |capped| && capped[i] == v;
      var j :| 0 <= j < |sorted| && sorted[j] == w;
    }
  }
}
