/**
 * The java.util behaviour the prefix query relies on: building a TreeSet<String> from a
 * collection of values and reading it back as a list, and Collections.sort with a Comparator.
 */
module Collections {
  import opened Common
  import opened JavaString

  /** Strictly increasing in String's natural order: the iteration order of a TreeSet<String>. */
  predicate StrictlyIncreasing(r: seq<string>)
  {
    forall i, j :: 0 <= i < j < |r| ==> Less(r[i], r[j])
  }

  /** A strictly increasing list holds no duplicate. */
  lemma IncreasingIsDistinct(r: seq<string>)
    requires StrictlyIncreasing(r)
    ensures Distinct(r)
  {
    forall i, j | 0 <= i < j < |r| ensures r[i] != r[j] {
      Trichotomy(r[i], r[j]);
    }
  }

  /**
   * TreeSet.add on the set's iteration order: `v` lands at its place in the natural order,
   * and nothing is added when compareTo finds an equal element.
   */
  function TreeSetAdd(r: seq<string>, v: string): (r': seq<string>)
    requires StrictlyIncreasing(r)
    ensures StrictlyIncreasing(r')
    ensures forall x :: x in r' <==> x in r || x == v
  {
    if r == [] then [v]
    else if CompareTo(v, r[0]) == 0 then
      CompareToZero(v, r[0]);
      r
    else if CompareTo(v, r[0]) < 0 then
      forall j | 0 <= j < |r| ensures Less(v, r[j]) {
        if j > 0 { LessTransitive(v, r[0], r[j]); }
      }
      [v] + r
    else
      var rest := TreeSetAdd(r[1..], v);
      CompareToAntisymmetric(v, r[0]);
      assert forall x :: x in rest ==> Less(r[0], x);
      [r[0]] + rest
  }

  /**
   * `new ArrayList<String>(new TreeSet<String>(values))`: the values once each, in the natural
   * order of String.
   */
  method TreeSetOf(values: set<string>) returns (r: seq<string>)
    ensures StrictlyIncreasing(r)
    ensures Elements(r) == values
    ensures |r| == |values|
  {
    r := [];
    var rest := values;
    while rest != {}
      invariant rest <= values
      invariant StrictlyIncreasing(r)
      invariant forall x :: x in r <==> x in values && x !in rest
      decreases |rest|
    {
      var v :| v in rest;
      r := TreeSetAdd(r, v);
      rest := rest - {v};
    }
    assert Elements(r) == values;
    IncreasingIsDistinct(r);
    DistinctCard(r);
  }

  /** A Comparator<String>; `cmp(a, b) <= 0` says that `a` may come before `b`. */
  type Comparator = (string, string) -> int

  /**
   * What Collections.sort needs of a comparator, and what the Comparator contract implies:
   * any two elements are comparable, and "may come before" is transitive.
   */
  ghost predicate TotalPreorder(cmp: Comparator)
  {
    && (forall a, b :: cmp(a, b) <= 0 || cmp(b, a) <= 0)
    && (forall a, b, c {:trigger cmp(a, b), cmp(b, c)} :: cmp(a, b) <= 0 && cmp(b, c) <= 0 ==> cmp(a, c) <= 0)
  }

  ghost predicate SortedBy(cmp: Comparator, r: seq<string>)
  {
    forall i, j :: 0 <= i < j < |r| ==> cmp(r[i], r[j]) <= 0
  }

  /**
   * Elements the comparator ties keep String's natural order: what a stable sort of a
   * TreeSet's iteration order produces.
   */
  ghost predicate TiesInNaturalOrder(cmp: Comparator, r: seq<string>)
  {
    forall i, j :: 0 <= i < j < |r| && cmp(r[j], r[i]) <= 0 ==> Less(r[i], r[j])
  }

  /** One step of a stable insertion sort: `x` goes after every element that ties with it. */
  function InsertSorted(cmp: Comparator, r: seq<string>, x: string): (r': seq<string>)
    ensures multiset(r') == multiset(r) + multiset{x}
  {
    if r == [] then [x]
    else if cmp(r[0], x) > 0 then [x] + r
    else
      var rest := InsertSorted(cmp, r[1..], x);
      assert r == [r[0]] + r[1..];
      [r[0]] + rest
  }

  lemma InsertedFrom(cmp: Comparator, r: seq<string>, x: string, y: string)
    requires y in InsertSorted(cmp, r, x)
    ensures y in r || y == x
  {
    assert y in multiset(InsertSorted(cmp, r, x));
  }

  /** Inserting into a sorted list keeps it sorted. */
  lemma {:induction false} InsertKeepsSorted(cmp: Comparator, r: seq<string>, x: string)
    requires TotalPreorder(cmp) && SortedBy(cmp, r)
    ensures SortedBy(cmp, InsertSorted(cmp, r, x))
  {
    if r != [] && cmp(r[0], x) > 0 {
      SortedAtFront(cmp, r, x);
    } else if r != [] {
      InsertKeepsSorted(cmp, r[1..], x);
      SortedBehindHead(cmp, r, x);
    }
  }

  /** `x` placed before a sorted list whose head strictly follows it keeps the list sorted. */
  lemma SortedAtFront(cmp: Comparator, r: seq<string>, x: string)
    requires TotalPreorder(cmp) && SortedBy(cmp, r)
    requires r != [] && cmp(r[0], x) > 0
    ensures SortedBy(cmp, [x] + r)
  {
    var r' := [x] + r;
    assert cmp(x, r[0]) <= 0;
    forall j | 1 <= j < |r'| ensures cmp(x, r'[j]) <= 0 {
      assert r'[j] == r[j - 1];
      if j > 1 {
        assert cmp(r[0], r[j - 1]) <= 0;
      }
    }
  }

  /** The head of a sorted list stays first, ahead of the sorted insertion into its tail. */
  lemma SortedBehindHead(cmp: Comparator, r: seq<string>, x: string)
    requires SortedBy(cmp, r)
    requires r != [] && cmp(r[0], x) <= 0
    requires SortedBy(cmp, InsertSorted(cmp, r[1..], x))
    ensures SortedBy(cmp, InsertSorted(cmp, r, x))
  {
    var rest := InsertSorted(cmp, r[1..], x);
    forall j | 0 <= j < |rest| ensures cmp(r[0], rest[j]) <= 0 {
      InsertedFrom(cmp, r[1..], x, rest[j]);
      if rest[j] != x {
        var k :| 0 <= k < |r[1..]| && r[1..][k] == rest[j];
        assert r[k + 1] == rest[j];
      }
    }
    assert InsertSorted(cmp, r, x) == [r[0]] + rest;
    SortedCons(cmp, r[0], rest);
  }

  /** A sorted list stays sorted under a new head that may come before each of its elements. */
  lemma SortedCons(cmp: Comparator, h: string, rest: seq<string>)
    requires SortedBy(cmp, rest)
    requires forall j :: 0 <= j < |rest| ==> cmp(h, rest[j]) <= 0
    ensures SortedBy(cmp, [h] + rest)
  {
    var r' := [h] + rest;
    forall i, j | 0 <= i < j < |r'| ensures cmp(r'[i], r'[j]) <= 0 {
      assert r'[j] == rest[j - 1];
      if i > 0 {
        assert r'[i] == rest[i - 1];
      }
    }
  }

  /**
   * Inserting an element that follows every present one in natural order keeps ties in
   * natural order.
   */
  lemma {:induction false} InsertKeepsTies(cmp: Comparator, r: seq<string>, x: string)
    requires TotalPreorder(cmp) && SortedBy(cmp, r)
    requires TiesInNaturalOrder(cmp, r)
    requires forall y :: y in r ==> Less(y, x)
    ensures TiesInNaturalOrder(cmp, InsertSorted(cmp, r, x))
  {
    if r != [] && cmp(r[0], x) > 0 {
      TiesAtFront(cmp, r, x);
    } else if r != [] {
      InsertKeepsTies(cmp, r[1..], x);
      TiesBehindHead(cmp, r, x);
    }
  }

  /** `x` placed before a sorted list whose head strictly follows it ties with nothing after it. */
  lemma TiesAtFront(cmp: Comparator, r: seq<string>, x: string)
    requires TotalPreorder(cmp) && SortedBy(cmp, r)
    requires TiesInNaturalOrder(cmp, r)
    requires r != [] && cmp(r[0], x) > 0
    ensures TiesInNaturalOrder(cmp, [x] + r)
  {
    var r' := [x] + r;
    forall j | 0 <= j < |r| ensures cmp(r[j], x) > 0 {
      if j > 0 {
        assert cmp(r[0], r[j]) <= 0;
      }
    }
    forall i, j | 0 <= i < j < |r'| && cmp(r'[j], r'[i]) <= 0 ensures Less(r'[i], r'[j]) {
      assert r'[j] == r[j - 1];
      if i > 0 {
        assert r'[i] == r[i - 1];
      }
    }
  }

  /** The head of the list stays first; what follows it is the insertion into the tail. */
  lemma TiesBehindHead(cmp: Comparator, r: seq<string>, x: string)
    requires r != [] && cmp(r[0], x) <= 0
    requires TiesInNaturalOrder(cmp, r)
    requires forall y :: y in r ==> Less(y, x)
    requires TiesInNaturalOrder(cmp, InsertSorted(cmp, r[1..], x))
    ensures TiesInNaturalOrder(cmp, InsertSorted(cmp, r, x))
  {
    var rest := InsertSorted(cmp, r[1..], x);
    forall j | 0 <= j < |rest| && cmp(rest[j], r[0]) <= 0 ensures Less(r[0], rest[j]) {
      InsertedFrom(cmp, r[1..], x, rest[j]);
      if rest[j] != x {
        var k :| 1 <= k < |r| && r[k] == rest[j];
      }
    }
    assert InsertSorted(cmp, r, x) == [r[0]] + rest;
    TiesCons(cmp, r[0], rest);
  }

  /** Ties in natural order extend to a list with a new head that precedes every tie. */
  lemma TiesCons(cmp: Comparator, h: string, rest: seq<string>)
    requires TiesInNaturalOrder(cmp, rest)
    requires forall j :: 0 <= j < |rest| && cmp(rest[j], h) <= 0 ==> Less(h, rest[j])
    ensures TiesInNaturalOrder(cmp, [h] + rest)
  {
    var r' := [h] + rest;
    forall i, j | 0 <= i < j < |r'| && cmp(r'[j], r'[i]) <= 0 ensures Less(r'[i], r'[j]) {
      assert r'[j] == rest[j - 1];
      if i > 0 {
        assert r'[i] == rest[i - 1];
      }
    }
  }

  /**
   * Collections.sort(list, cmp): a permutation of the list, ordered by the comparator; the sort
   * is stable, so a list that was in natural order keeps that order among ties.
   */
  method Sort(xs: seq<string>, cmp: Comparator) returns (r: seq<string>)
    requires TotalPreorder(cmp)
    ensures multiset(r) == multiset(xs)
    ensures SortedBy(cmp, r)
    ensures StrictlyIncreasing(xs) ==> TiesInNaturalOrder(cmp, r)
  {
    r := [];
    for i := 0 to |xs|
      invariant multiset(r) == multiset(xs[..i])
      invariant SortedBy(cmp, r)
      invariant StrictlyIncreasing(xs) ==> TiesInNaturalOrder(cmp, r)
    {
      SortStep(cmp, xs, i, r);
      r := InsertSorted(cmp, r, xs[i]);
    }
    assert xs[..|xs|] == xs;
  }

  /** One pass of Sort's loop: inserting the next element keeps the loop's invariants. */
  lemma SortStep(cmp: Comparator, xs: seq<string>, i: nat, r: seq<string>)
    requires TotalPreorder(cmp) && i < |xs|
    requires multiset(r) == multiset(xs[..i]) && SortedBy(cmp, r)
    requires StrictlyIncreasing(xs) ==> TiesInNaturalOrder(cmp, r)
    ensures var r' := InsertSorted(cmp, r, xs[i]);
      && multiset(r') == multiset(xs[..i + 1])
      && SortedBy(cmp, r')
      && (StrictlyIncreasing(xs) ==> TiesInNaturalOrder(cmp, r'))
  {
    InsertKeepsSorted(cmp, r, xs[i]);
    if StrictlyIncreasing(xs) {
      forall y | y in r ensures Less(y, xs[i]) {
        assert y in multiset(xs[..i]);
        var k :| 0 <= k < i && xs[k] == y;
      }
      InsertKeepsTies(cmp, r, xs[i]);
    }
    assert xs[..i + 1] == xs[..i] + [xs[i]];
  }
}
