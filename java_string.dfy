/**
 * The parts of java.lang.String the core relies on: `compareTo` (the natural order of a
 * TreeSet<String> and of the trie's keys) and `split("\\.")`.
 * A Java string is modelled as a sequence of `char`.
 */
module JavaString {

  /**
   * String.compareTo: at the first index where the two strings differ, the difference of the
   * two characters; when one is a prefix of the other, the difference of the lengths.
   */
  function CompareTo(a: string, b: string): (r: int)
    ensures a <= b || b <= a ==> r == |a| - |b|
  {
    if |a| == 0 || |b| == 0 then |a| - |b|
    else if a[0] != b[0] then a[0] as int - b[0] as int
    else CompareTo(a[1..], b[1..])
  }

  /** `a` sorts strictly before `b` in String's natural order. */
  predicate Less(a: string, b: string)
  {
    CompareTo(a, b) < 0
  }

  /** The order is antisymmetric in sign: swapping the arguments negates the result. */
  lemma {:induction false} CompareToAntisymmetric(a: string, b: string)
    ensures CompareTo(a, b) == -CompareTo(b, a)
  {
    if |a| > 0 && |b| > 0 && a[0] == b[0] {
      CompareToAntisymmetric(a[1..], b[1..]);
    }
  }

  /** compareTo returns 0 exactly for equal strings, so a TreeSet keeps one copy of each. */
  lemma {:induction false} CompareToZero(a: string, b: string)
    ensures CompareTo(a, b) == 0 <==> a == b
  {
    if |a| > 0 && |b| > 0 && a[0] == b[0] {
      CompareToZero(a[1..], b[1..]);
      assert a == [a[0]] + a[1..];
      assert b == [b[0]] + b[1..];
    }
  }

  /** The strict order is transitive. */
  lemma {:induction false} LessTransitive(a: string, b: string, c: string)
    requires Less(a, b) && Less(b, c)
    ensures Less(a, c)
  {
    if |a| > 0 && |b| > 0 && |c| > 0 && a[0] == b[0] && b[0] == c[0] {
      LessTransitive(a[1..], b[1..], c[1..]);
    }
  }

  /** Any two strings are equal or ordered one way or the other, and never both ways. */
  lemma Trichotomy(a: string, b: string)
    ensures a == b || Less(a, b) || Less(b, a)
    ensures !(Less(a, b) && Less(b, a))
    ensures !(Less(a, b) && a == b)
  {
    CompareToAntisymmetric(a, b);
    CompareToZero(a, b);
  }

  /**
   * Where the strings first differ, at index `k`, compareTo is the difference of the two
   * characters there.
   */
  lemma {:induction false} CompareToFirstDifference(a: string, b: string, k: nat)
    requires k < |a| && k < |b| && a[..k] == b[..k] && a[k] != b[k]
    ensures CompareTo(a, b) == a[k] as int - b[k] as int
  {
    if k > 0 {
      assert a[0] == a[..k][0] == b[..k][0] == b[0];
      assert a[1..][..k - 1] == a[1..k] == a[..k][1..];
      assert b[1..][..k - 1] == b[1..k] == b[..k][1..];
      CompareToFirstDifference(a[1..], b[1..], k - 1);
    }
  }

  // ---------------------------------------------------------------------------------------
  // String.split("\\.")

  /** The pieces between '.' separators, empty pieces included. */
  function Pieces(s: string): (r: seq<string>)
    ensures |r| >= 1
    ensures forall i :: 0 <= i < |r| ==> '.' !in r[i]
  {
    if |s| == 0 then [""]
    else
      var rest := Pieces(s[1..]);
      if s[0] == '.' then [""] + rest else [[s[0]] + rest[0]] + rest[1..]
  }

  /** The pieces joined back with '.' between them. */
  function JoinDots(r: seq<string>): string
    requires |r| >= 1
  {
    if |r| == 1 then r[0] else r[0] + "." + JoinDots(r[1..])
  }

  /** Java drops every trailing empty piece when `split` is called without a limit. */
  function DropTrailingEmpty(r: seq<string>): (t: seq<string>)
    ensures t <= r
    ensures t == [] || t[|t| - 1] != ""
    ensures forall i :: |t| <= i < |r| ==> r[i] == ""
  {
    if r == [] then []
    else if r[|r| - 1] == "" then DropTrailingEmpty(r[..|r| - 1])
    else r
  }

  /**
   * s.split("\\."): a string without a '.' yields itself as the only piece; otherwise the
   * pieces between dots, with trailing empty pieces removed (leading ones are kept).
   */
  function Split(s: string): (r: seq<string>)
    ensures forall i :: 0 <= i < |r| ==> '.' !in r[i]
  {
    if '.' !in s then [s] else DropTrailingEmpty(Pieces(s))
  }

  /** Joining dot-free pieces then taking the pieces gives back the pieces. */
  lemma {:induction false} PiecesJoin(r: seq<string>)
    requires |r| >= 1
    requires forall i :: 0 <= i < |r| ==> '.' !in r[i]
    ensures Pieces(JoinDots(r)) == r
  {
    if |r| == 1 {
      PiecesOfDotFree(r[0]);
    } else {
      PiecesJoin(r[1..]);
      PiecesAppend(r[0], JoinDots(r[1..]));
    }
  }

  lemma {:induction false} PiecesOfDotFree(w: string)
    requires '.' !in w
    ensures Pieces(w) == [w]
  {
    if |w| > 0 {
      PiecesOfDotFree(w[1..]);
      assert w == [w[0]] + w[1..];
    }
  }

  /** The pieces of `w + "." + t` for a dot-free `w`. */
  lemma {:induction false} PiecesAppend(w: string, t: string)
    requires '.' !in w
    ensures Pieces(w + "." + t) == [w] + Pieces(t)
  {
    if |w| == 0 {
      assert w + "." + t == ['.'] + t;
      assert (['.'] + t)[1..] == t;
    } else {
      PiecesAppend(w[1..], t);
      var s := w + "." + t;
      assert s[0] == w[0] && s[1..] == w[1..] + "." + t;
      assert [w[0]] + w[1..] == w;
    }
  }

  /**
   * The round trip Java's split gives for a dotted name: dot-free pieces whose last piece is
   * not empty are exactly what `split` returns for their '.'-joined string.
   */
  lemma SplitJoin(r: seq<string>)
    requires |r| >= 1
    requires forall i :: 0 <= i < |r| ==> '.' !in r[i]
    requires r[|r| - 1] != ""
    ensures Split(JoinDots(r)) == r
  {
    PiecesJoin(r);
    if |r| == 1 {
      PiecesOfDotFree(r[0]);
    } else {
      assert '.' in JoinDots(r) by { JoinHasDot(r); }
    }
  }

  lemma JoinHasDot(r: seq<string>)
    requires |r| >= 2
    ensures '.' in JoinDots(r)
  {
    var s := JoinDots(r);
    assert s == r[0] + "." + JoinDots(r[1..]);
    assert s[|r[0]|] == '.';
  }
}
