/**
 * What the index operations of PatriciaOps do to the trie, stated as functions on values, and
 * the properties they have. The class in module Ops is proved to follow these functions.
 *
 * The trie is a map from derived key to indexed string. The analyzer (PartialMatchAnalyzer)
 * and the ranking (DistanceComparator) are not part of this model: they enter as the fields of
 * an `Analyzer` value, about which only the hypotheses each property names are assumed.
 */
module IndexSpec {
  import opened Common
  import opened JavaString
  import opened Collections

  /** The PatriciaTrie<String, String>: derived key to indexed string. */
  type Trie = map<string, string>

  /** What the index operations may ask of the analyzer and of the distance comparator. */
  datatype Analyzer = Analyzer(
    /** getIndexEntry(s): the derived keys of `s`, in the iteration order of the entry set */
    indexKeys: string -> seq<string>,
    /** getPrefixSearchKey(prefix): the key a query prefix is looked up with */
    prefixSearchKey: string -> string,
    /** getPreferred(existing, s): the string that should occupy a contested key */
    preferred: (string, string) -> string,
    /** new DistanceComparator(prefix, analyzer): the ranking of the answers to `prefix` */
    distance: string -> Comparator)

  /**
   * The analyzer's derived keys form a non-empty, duplicate-free list (they come from a set),
   * and every distance comparator is a total preorder, as Collections.sort demands.
   */
  ghost predicate WellFormed(a: Analyzer)
  {
    && (forall s :: |a.indexKeys(s)| > 0 && Distinct(a.indexKeys(s)))
    && (forall q :: TotalPreorder(a.distance(q)))
  }

  /** What PatriciaTrie.get and PatriciaTrie.remove report for `k`: its value, or null. */
  function Lookup(t: Trie, k: string): Option<string>
  {
    if k in t then Some(t[k]) else None
  }

  /** Every entry of `t1` is an entry of `t`. */
  ghost predicate Submap(t1: Trie, t: Trie)
  {
    forall k :: k in t1 ==> k in t && t1[k] == t[k]
  }

  /** The keys derived from any of `strings`. */
  function DerivedKeys(a: Analyzer, strings: seq<string>): set<string>
  {
    if strings == [] then {} else Elements(a.indexKeys(strings[0])) + DerivedKeys(a, strings[1..])
  }

  // ---------------------------------------------------------------------------------------
  // put

  /** The inner loop of put for one string: `s` is written under each key in turn. */
  function PutKeys(t: Trie, s: string, keys: seq<string>): Trie
    decreases |keys|
  {
    if keys == [] then t else PutKeys(t[keys[0] := s], s, keys[1..])
  }

  /** Writing one string's keys adds exactly those keys, holding the string; other keys keep their values. */
  lemma {:induction false} PutKeysEffect(t: Trie, s: string, keys: seq<string>)
    ensures PutKeys(t, s, keys).Keys == t.Keys + Elements(keys)
    ensures forall k :: k in PutKeys(t, s, keys) ==> PutKeys(t, s, keys)[k] == if k in keys then s else t[k]
    decreases |keys|
  {
    if keys != [] {
      PutKeysEffect(t[keys[0] := s], s, keys[1..]);
      assert Elements(keys) == {keys[0]} + Elements(keys[1..]);
    }
  }

  /** put(strings): the strings in array order, each writing every one of its derived keys. */
  function PutAll(t: Trie, a: Analyzer, strings: seq<string>): Trie
    decreases |strings|
  {
    if strings == [] then t
    else PutAll(PutKeys(t, strings[0], a.indexKeys(strings[0])), a, strings[1..])
  }

  /** The position of the last of `strings` that derives `k`, if any does. */
  function LastDeriving(a: Analyzer, strings: seq<string>, k: string): (r: Option<nat>)
    ensures r.Some? ==> r.value < |strings| && k in a.indexKeys(strings[r.value])
    ensures r.Some? ==> forall j :: r.value < j < |strings| ==> k !in a.indexKeys(strings[j])
    ensures r.None? ==> forall j :: 0 <= j < |strings| ==> k !in a.indexKeys(strings[j])
  {
    if strings == [] then None
    else match LastDeriving(a, strings[1..], k)
      case Some(i) => Some(i + 1)
      case None => if k in a.indexKeys(strings[0]) then Some(0) else None
  }

  /**
   * After put, a derived key holds the last input string (in array order) that derives it;
   * every other key keeps its presence and its value.
   */
  lemma {:induction false} PutLastWriterWins(t: Trie, a: Analyzer, strings: seq<string>, k: string)
    ensures var t' := PutAll(t, a, strings);
      match LastDeriving(a, strings, k)
      case Some(i) => k in t' && t'[k] == strings[i]
      case None => Lookup(t', k) == Lookup(t, k)
    decreases |strings|
  {
    if strings != [] {
      PutKeysEffect(t, strings[0], a.indexKeys(strings[0]));
      PutLastWriterWins(PutKeys(t, strings[0], a.indexKeys(strings[0])), a, strings[1..], k);
    }
  }

  /** put never removes a key, and adds exactly the derived keys of its strings. */
  lemma {:induction false} PutKeySet(t: Trie, a: Analyzer, strings: seq<string>)
    ensures PutAll(t, a, strings).Keys == t.Keys + DerivedKeys(a, strings)
    decreases |strings|
  {
    if strings != [] {
      PutKeysEffect(t, strings[0], a.indexKeys(strings[0]));
      PutKeySet(PutKeys(t, strings[0], a.indexKeys(strings[0])), a, strings[1..]);
    }
  }

  /** So the size of the trie never decreases under put. */
  lemma PutNeverShrinks(t: Trie, a: Analyzer, strings: seq<string>)
    ensures |t| <= |PutAll(t, a, strings)|
  {
    PutKeySet(t, a, strings);
    SubsetCard(t.Keys, PutAll(t, a, strings).Keys);
  }

  lemma SubsetCard(x: set<string>, y: set<string>)
    requires x <= y
    ensures |x| <= |y|
  {
    assert y == x + (y - x);
  }

  // ---------------------------------------------------------------------------------------
  // remove

  /** The answer of remove: for each input string, what removing its keys reported last. */
  type Removed = map<string, Option<string>>

  /**
   * The inner loop of remove for one string: each key is removed in turn, and the entry of `s`
   * in the answer is overwritten with the value the removal returned.
   */
  function RemoveKeys(t: Trie, result: Removed, s: string, keys: seq<string>): (Trie, Removed)
    decreases |keys|
  {
    if keys == [] then (t, result)
    else RemoveKeys(t - {keys[0]}, result[s := Lookup(t, keys[0])], s, keys[1..])
  }

  /** remove(strings): the strings in array order, each removing every one of its keys. */
  function RemoveAll(t: Trie, result: Removed, a: Analyzer, strings: seq<string>): (Trie, Removed)
    decreases |strings|
  {
    if strings == [] then (t, result)
    else
      var (t1, r1) := RemoveKeys(t, result, strings[0], a.indexKeys(strings[0]));
      RemoveAll(t1, r1, a, strings[1..])
  }

  /** Removing one string's keys: those keys are gone, and the answer for `s` is what stood
      under the last key once the earlier ones were removed. */
  lemma RemoveKeysEffect(t: Trie, result: Removed, s: string, keys: seq<string>)
    requires keys != []
    ensures RemoveKeys(t, result, s, keys).0 == t - Elements(keys)
    ensures RemoveKeys(t, result, s, keys).1
         == result[s := Lookup(t - Elements(keys[..|keys| - 1]), keys[|keys| - 1])]
  {
    RemoveKeysTrie(t, result, s, keys);
    RemoveKeysAnswer(t, result, s, keys);
  }

  /** The trie part of RemoveKeys: exactly the given keys are removed. */
  lemma {:induction false} RemoveKeysTrie(t: Trie, result: Removed, s: string, keys: seq<string>)
    ensures RemoveKeys(t, result, s, keys).0 == t - Elements(keys)
    decreases |keys|
  {
    if keys == [] {
      assert t - {} == t;
    } else {
      RemoveKeysTrie(t - {keys[0]}, result[s := Lookup(t, keys[0])], s, keys[1..]);
      assert Elements(keys) == {keys[0]} + Elements(keys[1..]);
      assert (t - {keys[0]}) - Elements(keys[1..]) == t - Elements(keys);
    }
  }

  /** The answer part of RemoveKeys: the entry of `s` is what the last removal returned. */
  lemma {:induction false} RemoveKeysAnswer(t: Trie, result: Removed, s: string, keys: seq<string>)
    requires keys != []
    ensures RemoveKeys(t, result, s, keys).1
         == result[s := Lookup(t - Elements(keys[..|keys| - 1]), keys[|keys| - 1])]
    decreases |keys|
  {
    var last := keys[|keys| - 1];
    if |keys| == 1 {
      assert Elements(keys[..0]) == {};
      assert t - {} == t;
    } else {
      var t1 := t - {keys[0]};
      var r1 := result[s := Lookup(t, keys[0])];
      RemoveKeysAnswer(t1, r1, s, keys[1..]);
      assert keys[1..][..|keys| - 2] == keys[1..|keys| - 1];
      assert keys[1..][|keys| - 2] == last;
      var e1 := Elements(keys[1..|keys| - 1]);
      var e := Elements(keys[..|keys| - 1]);
      assert e == {keys[0]} + e1 by {
        assert keys[..|keys| - 1] == [keys[0]] + keys[1..|keys| - 1];
      }
      assert Lookup(t1 - e1, last) == Lookup(t - e, last);
      assert r1[s := Lookup(t1 - e1, last)] == result[s := Lookup(t - e, last)];
    }
  }

  /** After remove, no derived key of any input string is present and all other keys are
      unchanged. */
  lemma {:induction false} RemoveAllTrie(t: Trie, result: Removed, a: Analyzer, strings: seq<string>)
    ensures RemoveAll(t, result, a, strings).0 == t - DerivedKeys(a, strings)
    decreases |strings|
  {
    if strings == [] {
      assert t - {} == t;
    } else {
      var keys := a.indexKeys(strings[0]);
      RemoveKeysTrie(t, result, strings[0], keys);
      var (t1, r1) := RemoveKeys(t, result, strings[0], keys);
      RemoveAllTrie(t1, r1, a, strings[1..]);
    }
  }

  /** The size drops by the number of derived keys that were present. */
  lemma RemoveShrinksBy(t: Trie, a: Analyzer, strings: seq<string>)
    ensures |RemoveAll(t, map[], a, strings).0| == |t| - |t.Keys * DerivedKeys(a, strings)|
  {
    RemoveAllTrie(t, map[], a, strings);
    var d := DerivedKeys(a, strings);
    assert (t - d).Keys == t.Keys - d;
    PartitionCard(t.Keys, d);
  }

  /** A set splits into the part outside `d` and the part inside it. */
  lemma PartitionCard(x: set<string>, d: set<string>)
    ensures |x| == |x - d| + |x * d|
  {
    assert x == (x - d) + (x * d);
    assert (x - d) !! (x * d);
  }

  /** Every answer recorded in `r` is about a string with keys, and reports a value that stood
      under that string's last key in `t`. */
  ghost predicate ReportsFrom(a: Analyzer, r: Removed, t: Trie)
  {
    forall s :: s in r ==>
      && |a.indexKeys(s)| > 0
      && (r[s].Some? ==> var last := a.indexKeys(s)[|a.indexKeys(s)| - 1];
                         last in t && t[last] == r[s].value)
  }

  lemma {:induction false} RemoveAllReports(t0: Trie, t: Trie, result: Removed, a: Analyzer, strings: seq<string>)
    requires Submap(t, t0) && ReportsFrom(a, result, t0)
    ensures ReportsFrom(a, RemoveAll(t, result, a, strings).1, t0)
    ensures RemoveAll(t, result, a, strings).1.Keys
         == result.Keys + (set s | s in strings && |a.indexKeys(s)| > 0)
    decreases |strings|
  {
    if strings != [] {
      var s := strings[0];
      var keys := a.indexKeys(s);
      var (t1, r1) := RemoveKeys(t, result, s, keys);
      RemoveStringReports(t0, t, result, a, s);
      RemoveAllReports(t0, t1, r1, a, strings[1..]);
      WithKeysCons(a, strings);
    }
  }

  /** One step of RemoveAllReports: removing one string's keys keeps both invariants. */
  lemma RemoveStringReports(t0: Trie, t: Trie, result: Removed, a: Analyzer, s: string)
    requires Submap(t, t0) && ReportsFrom(a, result, t0)
    ensures var (t1, r1) := RemoveKeys(t, result, s, a.indexKeys(s));
      && Submap(t1, t0) && ReportsFrom(a, r1, t0)
      && r1.Keys == result.Keys + (if |a.indexKeys(s)| > 0 then {s} else {})
  {
    var keys := a.indexKeys(s);
    if keys == [] {
      assert RemoveKeys(t, result, s, keys) == (t, result);
    } else {
      RemoveKeysEffect(t, result, s, keys);
      var t1 := t - Elements(keys);
      forall k | k in t1 ensures k in t0 && t1[k] == t0[k] {
        assert k in t;
      }
      var last := keys[|keys| - 1];
      var v := Lookup(t - Elements(keys[..|keys| - 1]), last);
      var r1 := result[s := v];
      assert v.Some? ==> last in t && t[last] == v.value;
      forall x | x in r1
        ensures |a.indexKeys(x)| > 0
        ensures r1[x].Some? ==> var l := a.indexKeys(x)[|a.indexKeys(x)| - 1];
                                l in t0 && t0[l] == r1[x].value
      {
        if x != s {
          assert x in result && r1[x] == result[x];
        }
      }
    }
  }

  /** The strings with keys among `strings`, split at the head. */
  lemma WithKeysCons(a: Analyzer, strings: seq<string>)
    requires strings != []
    ensures (set x | x in strings && |a.indexKeys(x)| > 0)
         == (if |a.indexKeys(strings[0])| > 0 then {strings[0]} else {})
          + (set x | x in strings[1..] && |a.indexKeys(x)| > 0)
  {
    forall x | x in strings ensures x == strings[0] || x in strings[1..] {
      var i :| 0 <= i < |strings| && strings[i] == x;
      if i > 0 { assert strings[1..][i - 1] == x; }
    }
  }

  /**
   * The answer of remove has an entry for every input string, and a non-null entry is a value
   * that stood, before the call, under that string's last derived key.
   */
  lemma RemoveAnswers(t: Trie, a: Analyzer, strings: seq<string>)
    requires WellFormed(a)
    ensures var r := RemoveAll(t, map[], a, strings).1;
      && r.Keys == Elements(strings)
      && forall s :: s in r && r[s].Some? ==>
           var last := a.indexKeys(s)[|a.indexKeys(s)| - 1];
           last in t && t[last] == r[s].value
  {
    RemoveAllReports(t, t, map[], a, strings);
    assert (set s | s in strings && |a.indexKeys(s)| > 0) == Elements(strings);
  }

  /** Removing a single string reports exactly what stood under its last derived key. */
  lemma RemoveOne(t: Trie, a: Analyzer, s: string)
    requires WellFormed(a)
    ensures var keys := a.indexKeys(s);
      RemoveAll(t, map[], a, [s]) == (t - Elements(keys), map[s := Lookup(t, keys[|keys| - 1])])
  {
    var keys := a.indexKeys(s);
    RemoveKeysEffect(t, map[], s, keys);
    var last := keys[|keys| - 1];
    assert last !in Elements(keys[..|keys| - 1]);
    assert Lookup(t - Elements(keys[..|keys| - 1]), last) == Lookup(t, last);
  }

  // ---------------------------------------------------------------------------------------
  // enqueue

  /**
   * The body of the enqueue job for one derived key `k` of `s`: an absent key makes `s` be
   * put; a present key makes the preferred of its occupant and `s` be put, unless the
   * occupant itself is preferred.
   */
  function EnqueueKey(t: Trie, a: Analyzer, s: string, k: string): Trie
  {
    if k in t then
      var existing := t[k];
      var winner := a.preferred(existing, s);
      if winner != existing then PutAll(t, a, [winner]) else t
    else PutAll(t, a, [s])
  }

  function EnqueueKeys(t: Trie, a: Analyzer, s: string, keys: seq<string>): Trie
    decreases |keys|
  {
    if keys == [] then t else EnqueueKeys(EnqueueKey(t, a, s, keys[0]), a, s, keys[1..])
  }

  /** One enqueue job: the strings in array order, each over its derived keys. */
  function EnqueueAll(t: Trie, a: Analyzer, strings: seq<string>): Trie
    decreases |strings|
  {
    if strings == [] then t
    else EnqueueAll(EnqueueKeys(t, a, strings[0], a.indexKeys(strings[0])), a, strings[1..])
  }

  lemma PutOneKeys(t: Trie, a: Analyzer, s: string)
    ensures PutAll(t, a, [s]) == PutKeys(t, s, a.indexKeys(s))
  {
    assert [s][1..] == [];
  }

  /** Each step of the job keeps every key and, when the key is derived from `s`, leaves it
      present. */
  lemma EnqueueKeyKeeps(t: Trie, a: Analyzer, s: string, k: string)
    ensures t.Keys <= EnqueueKey(t, a, s, k).Keys
    ensures k in a.indexKeys(s) ==> k in EnqueueKey(t, a, s, k)
  {
    PutOneKeys(t, a, s);
    PutKeysEffect(t, s, a.indexKeys(s));
    if k in t {
      PutOneKeys(t, a, a.preferred(t[k], s));
      PutKeysEffect(t, a.preferred(t[k], s), a.indexKeys(a.preferred(t[k], s)));
    }
  }

  lemma {:induction false} EnqueueKeysKeeps(t: Trie, a: Analyzer, s: string, keys: seq<string>)
    requires forall k :: k in keys ==> k in a.indexKeys(s)
    ensures t.Keys + Elements(keys) <= EnqueueKeys(t, a, s, keys).Keys
    decreases |keys|
  {
    if keys != [] {
      EnqueueKeyKeeps(t, a, s, keys[0]);
      EnqueueKeysKeeps(EnqueueKey(t, a, s, keys[0]), a, s, keys[1..]);
    }
  }

  /**
   * An enqueue job never deletes a key, and when it is done every derived key of every one of
   * its strings is present.
   */
  lemma {:induction false} EnqueueKeepsAndCovers(t: Trie, a: Analyzer, strings: seq<string>)
    ensures t.Keys + DerivedKeys(a, strings) <= EnqueueAll(t, a, strings).Keys
    decreases |strings|
  {
    if strings != [] {
      var s := strings[0];
      EnqueueKeysKeeps(t, a, s, a.indexKeys(s));
      EnqueueKeepsAndCovers(EnqueueKeys(t, a, s, a.indexKeys(s)), a, strings[1..]);
    }
  }

  /** getPreferred returns one of the two strings it is given. */
  ghost predicate PrefersAnArgument(a: Analyzer)
  {
    forall x, y :: a.preferred(x, y) == x || a.preferred(x, y) == y
  }

  /**
   * When getPreferred returns one of its arguments, one step settles its key: the key then
   * holds `s` if it was absent, and otherwise the preferred of its former occupant and `s`.
   */
  lemma EnqueueKeyResolves(t: Trie, a: Analyzer, s: string, k: string)
    requires PrefersAnArgument(a)
    requires k in a.indexKeys(s)
    ensures var t' := EnqueueKey(t, a, s, k);
      k in t' && t'[k] == if k in t then a.preferred(t[k], s) else s
  {
    PutOneKeys(t, a, s);
    PutKeysEffect(t, s, a.indexKeys(s));
  }

  /**
   * A string whose derived keys are all present, each held by a string preferred over it,
   * leaves the trie unchanged.
   */
  lemma {:induction false} EnqueueSettledIsNoOp(t: Trie, a: Analyzer, s: string, keys: seq<string>)
    requires forall k :: k in keys ==> k in t && a.preferred(t[k], s) == t[k]
    ensures EnqueueKeys(t, a, s, keys) == t
    decreases |keys|
  {
    if keys != [] {
      EnqueueSettledIsNoOp(t, a, s, keys[1..]);
    }
  }

  // ---------------------------------------------------------------------------------------
  // getPrefixedBy

  /** The values of the prefix sub-map: everything stored under a key that starts with `key`. */
  function MatchingValues(t: Trie, key: string): set<string>
  {
    set k | k in t && key <= k :: t[k]
  }
}
