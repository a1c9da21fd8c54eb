/**
 * Config: the post-processing of the server configuration. setupCores checks that no two cores
 * share a path and decides whether an index handler is needed; handleSystemProperties copies
 * every `patricia.`-prefixed system property into the nested configuration map, one dotted
 * segment per level.
 */
module Conf {
  import opened Common
  import opened JavaString

  // ---------------------------------------------------------------------------------------
  // setupCores

  /** A configured core, as far as setupCores looks at it: its path. */
  datatype CoreConf = CoreConf(path: string)

  /** Why setupCores gives up: a path two cores share, or no list of cores at all. */
  datatype SetupError = SharedPath(path: string) | CoresMissing

  function Paths(cores: seq<CoreConf>): (ps: seq<string>)
    ensures |ps| == |cores| && forall i :: 0 <= i < |cores| ==> ps[i] == cores[i].path
  {
    if cores == [] then [] else [cores[0].path] + Paths(cores[1..])
  }

  /** `ps[j]` is the first element of `ps` that repeats an earlier one. */
  predicate FirstRepeatAt(ps: seq<string>, j: int)
  {
    0 <= j < |ps| && ps[j] in ps[..j] && Distinct(ps[..j])
  }

  class Config {
    /** The cores read from the configuration; None when the configuration names none. */
    var cores: Option<seq<CoreConf>>
    var needsIndexHandler: bool

    constructor (cores: Option<seq<CoreConf>>, needsIndexHandler: bool)
      ensures this.cores == cores && this.needsIndexHandler == needsIndexHandler
    {
      this.cores := cores;
      this.needsIndexHandler := needsIndexHandler;
    }

    /**
     * setupCores(): fails on a missing core list, and otherwise exactly when two cores share
     * a path, naming the first path that repeats; on success an index handler is needed
     * when no core sits at "/", and the flag is never cleared.
     */
    method SetupCores() returns (r: Result<(), SetupError>)
      modifies this
      ensures cores == old(cores)
      ensures cores.None? ==> r == Failure(CoresMissing)
      ensures cores.Some? ==> (r.Success? <==> Distinct(Paths(cores.value)))
      ensures cores.Some? && r.Failure? ==>
        r.error.SharedPath? && exists j :: FirstRepeatAt(Paths(cores.value), j) && r.error.path == Paths(cores.value)[j]
      ensures r.Success? ==> needsIndexHandler == (old(needsIndexHandler) || "/" !in Paths(cores.value))
      ensures r.Failure? ==> needsIndexHandler == old(needsIndexHandler)
    {
      if cores.None? {
        return Failure(CoresMissing);
      }
      var ps := Paths(cores.value);
      var paths: set<string> := {};
      for i := 0 to |ps|
        invariant paths == Elements(ps[..i])
        invariant Distinct(ps[..i])
      {
        var path := ps[i];
        if path in paths {
          assert FirstRepeatAt(ps, i);
          NotDistinctFrom(ps, i);
          return Failure(SharedPath(path));
        }
        assert ps[..i + 1] == ps[..i] + [path];
        paths := paths + {path};
      }
      assert ps[..|ps|] == ps;
      if "/" !in paths {
        needsIndexHandler := true;
      }
      r := Success(());
    }
  }

  /** A list with a repeat in a prefix is not duplicate-free. */
  lemma NotDistinctFrom(ps: seq<string>, j: int)
    requires FirstRepeatAt(ps, j)
    ensures !Distinct(ps)
  {
    var k :| 0 <= k < j && ps[k] == ps[j];
  }

  // ---------------------------------------------------------------------------------------
  // handleSystemProperties

  /**
   * A value held in the configuration map: a nested map, Java's null, or any other object
   * (a string, a number, a list), which the walk never looks into.
   */
  datatype ConfValue = Tree(entries: map<string, ConfValue>) | Null | Value(text: string)

  /** The key of a system property: a String, or some other object. */
  datatype PropKey = StringKey(name: string) | OtherKey

  datatype Property = Property(key: PropKey, value: ConfValue)

  /**
   * How the walk fails: an intermediate segment holds an object that is not a map (the cast
   * raises ClassCastException) or holds null (the next access raises NullPointerException).
   */
  datatype ConfError = NotAMap(segment: string) | NullMap(segment: string)

  const PATRICIA_PROP_PREFIX: string := "patricia."

  /** The value at the end of `path`, descending through nested maps; None when absent. */
  function At(c: ConfValue, path: seq<string>): Option<ConfValue>
  {
    if path == [] then Some(c)
    else if c.Tree? && path[0] in c.entries then At(c.entries[path[0]], path[1..])
    else None
  }

  /** The value at `path` blocks a walk through it: present, but not a map. */
  predicate Obstructs(o: Option<ConfValue>)
  {
    o.Some? && !o.value.Tree?
  }

  /** Some intermediate level of `segs` (not the last) holds a value the walk cannot enter. */
  predicate Blocked(m: map<string, ConfValue>, segs: seq<string>)
  {
    exists k :: 1 <= k < |segs| && Obstructs(At(Tree(m), segs[..k]))
  }

  /**
   * The walk of one property: missing intermediate maps are created, existing ones entered,
   * and the value is put under the last segment.
   */
  function SetPath(m: map<string, ConfValue>, segs: seq<string>, v: ConfValue): Result<map<string, ConfValue>, ConfError>
    requires |segs| >= 1
    decreases |segs|
  {
    var key := segs[0];
    if |segs| == 1 then Success(m[key := v])
    else
      var child := if key in m then m[key] else Tree(map[]);
      match child
      case Tree(entries) =>
        (match SetPath(entries, segs[1..], v)
         case Success(entries') => Success(m[key := Tree(entries')])
         case Failure(e) => Failure(e))
      case Null => Failure(NullMap(key))
      case Value(_) => Failure(NotAMap(key))
  }

  /** The value of the property ends up at the end of its segment path. */
  lemma {:induction false} SetPathStores(m: map<string, ConfValue>, segs: seq<string>, v: ConfValue)
    requires |segs| >= 1 && SetPath(m, segs, v).Success?
    ensures At(Tree(SetPath(m, segs, v).value), segs) == Some(v)
    decreases |segs|
  {
    var key := segs[0];
    if |segs| > 1 {
      var entries := if key in m then m[key].entries else map[];
      SetPathStores(entries, segs[1..], v);
    }
  }

  /** After the walk every level above the last segment is a map. */
  lemma {:induction false} SetPathCreates(m: map<string, ConfValue>, segs: seq<string>, v: ConfValue, k: nat)
    requires |segs| >= 1 && SetPath(m, segs, v).Success?
    requires k < |segs|
    ensures At(Tree(SetPath(m, segs, v).value), segs[..k]).Some?
    ensures At(Tree(SetPath(m, segs, v).value), segs[..k]).value.Tree?
    decreases |segs|
  {
    var key := segs[0];
    if k > 0 {
      var entries := if key in m then m[key].entries else map[];
      SetPathCreates(entries, segs[1..], v, k - 1);
      assert segs[..k][1..] == segs[1..][..k - 1];
    }
  }

  /**
   * The walk touches only its own path: the value at any path that neither leads to nor
   * continues the segment path, siblings of existing intermediate maps included, is the
   * same before and after.
   */
  lemma {:induction false} SetPathFrame(m: map<string, ConfValue>, segs: seq<string>, v: ConfValue, p: seq<string>)
    requires |segs| >= 1 && SetPath(m, segs, v).Success?
    requires !(p <= segs) && !(segs <= p)
    ensures At(Tree(SetPath(m, segs, v).value), p) == At(Tree(m), p)
    decreases |segs|
  {
    var key := segs[0];
    if p[0] == key {
      var entries := if key in m then m[key].entries else map[];
      SetPathFrame(entries, segs[1..], v, p[1..]);
      if key !in m {
        EmptyHasNothing(p[1..]);
      }
    }
  }

  /** An empty map holds nothing at any non-empty path. */
  lemma EmptyHasNothing(p: seq<string>)
    requires p != []
    ensures At(Tree(map[]), p) == None
  {
  }

  /** The walk fails exactly when some existing intermediate value is not a map. */
  lemma {:induction false} SetPathFails(m: map<string, ConfValue>, segs: seq<string>, v: ConfValue)
    requires |segs| >= 1
    ensures SetPath(m, segs, v).Failure? <==> Blocked(m, segs)
    decreases |segs|
  {
    var key := segs[0];
    if |segs| > 1 {
      var child := if key in m then m[key] else Tree(map[]);
      assert At(Tree(m), segs[..1]) == if key in m then Some(m[key]) else None by {
        assert segs[..1] == [key];
      }
      if child.Tree? {
        SetPathFails(child.entries, segs[1..], v);
        forall k | 2 <= k < |segs|
          ensures At(Tree(m), segs[..k]) == if key in m then At(child, segs[1..][..k - 1]) else None
        {
          assert segs[..k][0] == key && segs[..k][1..] == segs[1..][..k - 1];
        }
        if Blocked(m, segs) {
          var k :| 1 <= k < |segs| && Obstructs(At(Tree(m), segs[..k]));
          if key !in m {
            assert false;
          }
          assert Obstructs(At(Tree(child.entries), segs[1..][..k - 1]));
        }
        if Blocked(child.entries, segs[1..]) {
          var k :| 1 <= k < |segs[1..]| && Obstructs(At(Tree(child.entries), segs[1..][..k]));
          if key !in m {
            EmptyHasNothing(segs[1..][..k]);
            assert false;
          }
          assert Obstructs(At(Tree(m), segs[..k + 1]));
        }
      } else {
        assert Obstructs(At(Tree(m), segs[..1]));
      }
    }
  }

  /** Does `name` start with `prefix`? */
  predicate StartsWith(name: string, prefix: string)
  {
    prefix <= name
  }

  /**
   * The segments of a `patricia.`-prefixed property name: its split at '.', the leading
   * "patricia" dropped.
   */
  function Segments(name: string): (segs: seq<string>)
    requires StartsWith(name, PATRICIA_PROP_PREFIX)
    ensures forall i :: 0 <= i < |segs| ==> '.' !in segs[i]
    ensures segs == [] || segs[|segs| - 1] != ""
  {
    SplitKeepsHead(name);
    Split(name)[1..]
  }

  /** Splitting a `patricia.`-prefixed name gives "patricia" first, so there is always a piece to drop. */
  lemma SplitKeepsHead(name: string)
    requires StartsWith(name, PATRICIA_PROP_PREFIX)
    ensures |Split(name)| >= 1 && Split(name)[0] == "patricia"
  {
    var rest := name[|PATRICIA_PROP_PREFIX|..];
    assert name == "patricia" + "." + rest;
    PiecesAppend("patricia", rest);
    assert name[8] == '.';
    var pieces := Pieces(name);
    assert pieces[0] == "patricia";
  }

  /**
   * Segments inverts joining with dots: the property `patricia.s1.….sn` has the segments
   * s1, …, sn whenever they are dot-free and the last is not empty.
   */
  lemma SegmentsOfJoin(segs: seq<string>)
    requires |segs| >= 1
    requires forall i :: 0 <= i < |segs| ==> '.' !in segs[i]
    requires segs[|segs| - 1] != ""
    ensures StartsWith(JoinDots(["patricia"] + segs), PATRICIA_PROP_PREFIX)
    ensures Segments(JoinDots(["patricia"] + segs)) == segs
  {
    var r := ["patricia"] + segs;
    SplitJoinAfterHead("patricia", segs);
    JoinStartsWithPrefix(segs);
    SegmentsOfSplit(JoinDots(r), r);
  }

  /** Splitting a dot-free head joined to dot-free segments gives back the head and the segments. */
  lemma SplitJoinAfterHead(head: string, segs: seq<string>)
    requires '.' !in head
    requires |segs| >= 1
    requires forall i :: 0 <= i < |segs| ==> '.' !in segs[i]
    requires segs[|segs| - 1] != ""
    ensures Split(JoinDots([head] + segs)) == [head] + segs
  {
    var r := [head] + segs;
    assert r[|r| - 1] == segs[|segs| - 1];
    forall i | 0 <= i < |r| ensures '.' !in r[i] {
      if i > 0 { assert r[i] == segs[i - 1]; }
    }
    SplitJoin(r);
  }

  /** Joining "patricia" and the segments with '.' gives a name that starts with `patricia.`. */
  lemma JoinStartsWithPrefix(segs: seq<string>)
    requires |segs| >= 1
    ensures StartsWith(JoinDots(["patricia"] + segs), PATRICIA_PROP_PREFIX)
  {
    JoinUnderPrefix(segs);
    PrefixOfConcat(PATRICIA_PROP_PREFIX, JoinDots(segs));
  }

  lemma PrefixOfConcat(a: string, b: string)
    ensures StartsWith(a + b, a)
  {
    assert (a + b)[..|a|] == a;
  }

  /** The segments of a prefixed name are its split without the first piece. */
  lemma SegmentsOfSplit(name: string, r: seq<string>)
    requires StartsWith(name, PATRICIA_PROP_PREFIX)
    requires Split(name) == r
    ensures |r| >= 1 && Segments(name) == r[1..]
  {
    SplitKeepsHead(name);
  }

  /** "patricia" followed by the segments, joined with '.', is the prefix and the joined segments. */
  lemma JoinUnderPrefix(segs: seq<string>)
    requires |segs| >= 1
    ensures JoinDots(["patricia"] + segs) == PATRICIA_PROP_PREFIX + JoinDots(segs)
  {
    JoinAfterHead("patricia", segs);
    var rest := JoinDots(segs);
    assert "patricia" + "." == PATRICIA_PROP_PREFIX;
    assert "patricia" + "." + rest == ("patricia" + ".") + rest;
  }

  lemma JoinAfterHead(head: string, segs: seq<string>)
    requires |segs| >= 1
    ensures JoinDots([head] + segs) == head + "." + JoinDots(segs)
  {
    assert ([head] + segs)[1..] == segs;
  }

  /**
   * One entry of the property loop: a key that is not a String or lacks the prefix is
   * skipped, a name with no segment left is skipped, and otherwise the value is walked in.
   */
  function Apply(m: map<string, ConfValue>, p: Property): Result<map<string, ConfValue>, ConfError>
  {
    if !p.key.StringKey? || !StartsWith(p.key.name, PATRICIA_PROP_PREFIX) then Success(m)
    else
      var segs := Segments(p.key.name);
      if segs == [] then Success(m) else SetPath(m, segs, p.value)
  }

  /** The whole property loop, in iteration order; the first failure ends it. */
  function ApplyAll(m: map<string, ConfValue>, ps: seq<Property>): Result<map<string, ConfValue>, ConfError>
    decreases |ps|
  {
    if ps == [] then Success(m)
    else
      match Apply(m, ps[0])
      case Success(m') => ApplyAll(m', ps[1..])
      case Failure(e) => Failure(e)
  }

  /** Properties that are not String-keyed `patricia.` properties leave the map unchanged. */
  lemma IgnoredProperty(m: map<string, ConfValue>, p: Property)
    requires !p.key.StringKey? || !StartsWith(p.key.name, PATRICIA_PROP_PREFIX)
    ensures Apply(m, p) == Success(m)
  {
  }

  /**
   * A property `patricia.s1.….sn` puts its value at `confMap[s1]…[sn]` unless an existing
   * intermediate value is not a map.
   */
  lemma {:induction false} PropertyLandsAtPath(m: map<string, ConfValue>, segs: seq<string>, v: ConfValue)
    requires |segs| >= 1
    requires forall i :: 0 <= i < |segs| ==> '.' !in segs[i]
    requires segs[|segs| - 1] != ""
    requires !Blocked(m, segs)
    ensures var r := Apply(m, Property(StringKey(JoinDots(["patricia"] + segs)), v));
      r.Success? && At(Tree(r.value), segs) == Some(v)
  {
    SegmentsOfJoin(segs);
    SetPathFails(m, segs, v);
    SetPathStores(m, segs, v);
  }

  /** Skipped properties, wherever they appear, do not change the outcome of the loop. */
  lemma {:induction false} IgnoredProperties(m: map<string, ConfValue>, ps: seq<Property>)
    requires forall i :: 0 <= i < |ps| ==> !ps[i].key.StringKey? || !StartsWith(ps[i].key.name, PATRICIA_PROP_PREFIX)
    ensures ApplyAll(m, ps) == Success(m)
    decreases |ps|
  {
    if ps != [] {
      IgnoredProperty(m, ps[0]);
      IgnoredProperties(m, ps[1..]);
    }
  }

  /**
   * handleSystemProperties(properties, confMap): every property in iteration order, the map
   * updated as each is applied; an exception from the walk ends the loop.
   */
  method HandleSystemProperties(properties: seq<Property>, confMap: map<string, ConfValue>)
    returns (r: Result<map<string, ConfValue>, ConfError>)
    ensures r == ApplyAll(confMap, properties)
  {
    var node := confMap;
    var i := 0;
    while i < |properties|
      invariant 0 <= i <= |properties|
      invariant ApplyAll(node, properties[i..]) == ApplyAll(confMap, properties)
      decreases |properties| - i
    {
      var entry := properties[i];
      assert properties[i..][1..] == properties[i + 1..];
      var applied := Apply(node, entry);
      if applied.Failure? {
        return Failure(applied.error);
      }
      node := applied.value;
      i := i + 1;
    }
    assert properties[i..] == [];
    r := Success(node);
  }
}
