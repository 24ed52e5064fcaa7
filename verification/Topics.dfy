/** Topic names, topic filters and the matching relation of section 4.7 of MQTT 3.1.1.

    A name or filter is handled as the sequence of its levels.  `Matches` states the relation by
    position; `Filters` enumerates, in the order in which the tries visit them, every filter that can
    match a topic.  The two are proved to be the same relation. */
module Topics {
  import opened Paths
  import opened Sequences

  const MWC: Level := "#"
  const SWC: Level := "+"

  // ---------------------------------------------------------------- matching

  predicate WildcardFree(t: Path) {
    forall k :: 0 <= k < |t| ==> t[k] != MWC && t[k] != SWC
  }

  /** '#' may only stand at the last level. */
  predicate ValidFilter(f: Path) {
    |f| >= 1 && forall k :: 0 <= k < |f| - 1 ==> f[k] != MWC
  }

  predicate Dollar(t: Path) {
    t != [] && t[0] != "" && t[0][0] == '$'
  }

  predicate EndsWithHash(f: Path) {
    f != [] && f[|f| - 1] == MWC
  }

  /** The first n levels of the filter accept the first n levels of the topic. */
  predicate Pointwise(f: Path, t: Path, n: nat)
    requires n <= |f| && n <= |t|
  {
    forall k :: 0 <= k < n ==> f[k] == SWC || f[k] == t[k]
  }

  /** The relation of section 4.7 without the '$' rule.  '#' also accepts its parent level, and, as the
      code has it, does not accept a topic whose next level is empty. */
  predicate LevelsMatch(f: Path, t: Path) {
    if EndsWithHash(f) then
      |f| - 1 <= |t| && Pointwise(f, t, |f| - 1) && (|f| <= |t| ==> t[|f| - 1] != "")
    else
      |f| == |t| && Pointwise(f, t, |f|)
  }

  /** The full relation: a filter accepts a topic that starts with '$' only by naming its first level. */
  predicate Matches(f: Path, t: Path) {
    LevelsMatch(f, t) && (Dollar(t) ==> f != [] && f[0] == t[0])
  }

  // ---------------------------------------------------------------- enumeration

  function Under(l: Level, ps: seq<Path>): (r: seq<Path>)
    ensures |r| == |ps|
    ensures forall k :: 0 <= k < |ps| ==> r[k] == [l] + ps[k]
  {
    seq(|ps|, k requires 0 <= k < |ps| => [l] + ps[k])
  }

  lemma InUnder(l: Level, ps: seq<Path>, f: Path)
    ensures f in Under(l, ps) <==> f != [] && f[0] == l && f[1..] in ps
  {
    if f != [] && f[0] == l && f[1..] in ps {
      var k :| 0 <= k < |ps| && ps[k] == f[1..];
      assert Under(l, ps)[k] == f;
    }
    if f in Under(l, ps) {
      var k :| 0 <= k < |ps| && Under(l, ps)[k] == f;
      assert f[1..] == ps[k];
    }
  }

  lemma NoDuplicatesUnder(l: Level, ps: seq<Path>)
    requires NoDuplicates(ps)
    ensures NoDuplicates(Under(l, ps))
  {
    forall i, j | 0 <= i < j < |ps| ensures Under(l, ps)[i] != Under(l, ps)[j] {
      assert Under(l, ps)[i][1..] == ps[i] && Under(l, ps)[j][1..] == ps[j];
    }
  }

  /** Filters below a node that the search visits for the remaining topic levels, in visiting order. */
  function Filters(t: Path): seq<Path> {
    if t == [] then [[], [MWC]]
    else
      (if t[0] != "" then [[MWC]] else [])
      + Under(t[0], Filters(t[1..])) + Under(SWC, Filters(t[1..]))
  }

  /** The filters visited for a whole topic: below a first level with '$' only that level is searched. */
  function TopicFilters(t: Path): seq<Path>
    requires t != []
  {
    if Dollar(t) then Under(t[0], Filters(t[1..])) else Filters(t)
  }

  function Child(p: Path, l: Level): Path { p + [l] }

  /** The same filters seen from the root, for a node at path p. */
  function Below(p: Path, fs: seq<Path>): (r: seq<Path>)
    ensures |r| == |fs|
    ensures forall k :: 0 <= k < |fs| ==> r[k] == p + fs[k]
  {
    seq(|fs|, k requires 0 <= k < |fs| => p + fs[k])
  }

  lemma BelowUnder(p: Path, l: Level, fs: seq<Path>)
    ensures Below(p, Under(l, fs)) == Below(Child(p, l), fs)
  {
    forall k | 0 <= k < |fs| ensures Below(p, Under(l, fs))[k] == Below(Child(p, l), fs)[k] {
      assert p + ([l] + fs[k]) == (p + [l]) + fs[k];
    }
  }

  lemma BelowConcat(p: Path, a: seq<Path>, b: seq<Path>)
    ensures Below(p, a + b) == Below(p, a) + Below(p, b)
  {
  }

  /** What a node visits: its '#' child, the child of the next level, the '+' child. */
  lemma BelowFilters(p: Path, t: Path)
    ensures t == [] ==> Below(p, Filters(t)) == [p] + [Child(p, MWC)]
    ensures t != [] ==>
            Below(p, Filters(t)) == ((if t[0] != "" then [Child(p, MWC)] else [])
                                     + Below(Child(p, t[0]), Filters(t[1..]))) + Below(Child(p, SWC), Filters(t[1..]))
  {
    if t != [] {
      var head: seq<Path> := if t[0] != "" then [[MWC]] else [];
      var named, plus := Under(t[0], Filters(t[1..])), Under(SWC, Filters(t[1..]));
      assert Filters(t) == head + named + plus;
      hide Filters;
      BelowConcat(p, head + named, plus);
      BelowConcat(p, head, named);
      BelowUnder(p, t[0], Filters(t[1..]));
      BelowUnder(p, SWC, Filters(t[1..]));
    } else {
      assert p + [] == p;
    }
  }

  lemma BelowRoot(fs: seq<Path>)
    ensures Below([], fs) == fs
    ensures forall l :: Below(Child([], l), fs) == Under(l, fs)
  {
    forall k | 0 <= k < |fs| ensures [] + fs[k] == fs[k] {}
    forall l ensures Below(Child([], l), fs) == Under(l, fs) {
      assert [] + [l] == [l];
    }
  }

  lemma LevelsMatchStep(f: Path, t: Path)
    requires f != [] && t != [] && t[0] != MWC && f[0] != MWC
    ensures LevelsMatch(f, t) <==> (f[0] == SWC || f[0] == t[0]) && LevelsMatch(f[1..], t[1..])
  {
  }

  lemma LevelsMatchHash(f: Path, t: Path)
    requires f != [] && f[0] == MWC && t != [] && t[0] != MWC
    ensures LevelsMatch(f, t) <==> f == [MWC] && t[0] != ""
  {
  }

  lemma {:induction false} FiltersExact(t: Path, f: Path)
    requires WildcardFree(t)
    ensures f in Filters(t) <==> LevelsMatch(f, t)
  {
    if t == [] {
      if |f| == 1 { assert f == [f[0]]; }
    } else {
      InUnder(t[0], Filters(t[1..]), f);
      InUnder(SWC, Filters(t[1..]), f);
      if f != [] {
        FiltersExact(t[1..], f[1..]);
        if f[0] == MWC { LevelsMatchHash(f, t); } else { LevelsMatchStep(f, t); }
        assert |f| == 1 ==> f == [f[0]];
      }
    }
  }

  lemma NoDuplicatesConcat<T>(a: seq<T>, b: seq<T>)
    requires NoDuplicates(a) && NoDuplicates(b)
    requires forall x :: x in a ==> x !in b
    ensures NoDuplicates(a + b)
  {
    forall i, j | 0 <= i < j < |a + b| ensures (a + b)[i] != (a + b)[j] {
      if i < |a| <= j {
        assert (a + b)[i] in a && (a + b)[j] == b[j - |a|];
      }
    }
  }

  lemma {:induction false} FiltersDistinct(t: Path)
    requires WildcardFree(t)
    ensures NoDuplicates(Filters(t))
  {
    if t != [] {
      var rest := Filters(t[1..]);
      FiltersDistinct(t[1..]);
      NoDuplicatesUnder(t[0], rest);
      NoDuplicatesUnder(SWC, rest);
      var head: seq<Path> := if t[0] != "" then [[MWC]] else [];
      forall x ensures x in Under(t[0], rest) ==> x != [] && x[0] == t[0] { InUnder(t[0], rest, x); }
      forall x ensures x in Under(SWC, rest) ==> x != [] && x[0] == SWC { InUnder(SWC, rest, x); }
      NoDuplicatesConcat(head, Under(t[0], rest));
      NoDuplicatesConcat(head + Under(t[0], rest), Under(SWC, rest));
    }
  }

  /** For every topic without wildcards the visited filters are exactly the matching ones, each once. */
  lemma TopicFiltersExact(t: Path)
    requires t != [] && WildcardFree(t)
    ensures NoDuplicates(TopicFilters(t))
    ensures forall f :: f in TopicFilters(t) <==> Matches(f, t)
  {
    if Dollar(t) {
      FiltersDistinct(t[1..]);
      NoDuplicatesUnder(t[0], Filters(t[1..]));
      forall f ensures f in TopicFilters(t) <==> Matches(f, t) {
        InUnder(t[0], Filters(t[1..]), f);
        if f != [] && f[0] == t[0] {
          FiltersExact(t[1..], f[1..]);
          LevelsMatchStep(f, t);
        }
      }
    } else {
      FiltersDistinct(t);
      forall f ensures f in TopicFilters(t) <==> Matches(f, t) { FiltersExact(t, f); }
    }
  }

  // ---------------------------------------------------------------- the opposite direction

  /** The topics below a node that the search for retained messages reaches for the remaining filter
      levels.  A stored path is reached below a '#' node as well; no topic has such a level. */
  predicate Reaches(f: Path, t: Path) {
    if f == [] then t == [] || t[0] == MWC
    else if f[0] == MWC then true
    else t != [] && (f[0] == SWC || f[0] == t[0]) && Reaches(f[1..], t[1..])
  }

  /** The same for a whole filter: a bare '#' skips an empty first level and one that starts with '$'. */
  predicate RetainReaches(f: Path, t: Path)
    requires f != []
  {
    if f[0] == MWC then t != [] && t[0] != "" && !Dollar(t) else Reaches(f, t)
  }

  /** '#' below the first level stands at an empty topic level. */
  predicate HashAtEmptyLevel(f: Path, t: Path) {
    EndsWithHash(f) && 2 <= |f| <= |t| && t[|f| - 1] == ""
  }

  predicate PlusAtDollar(f: Path, t: Path) {
    Dollar(t) && f != [] && f[0] == SWC
  }

  lemma {:induction false} ReachesExact(f: Path, t: Path)
    requires f != [] ==> ValidFilter(f)
    requires WildcardFree(t)
    ensures Reaches(f, t) <==>
            if EndsWithHash(f) then |f| - 1 <= |t| && Pointwise(f, t, |f| - 1)
            else |f| == |t| && Pointwise(f, t, |f|)
  {
    if f != [] && f[0] != MWC && t != [] {
      ReachesExact(f[1..], t[1..]);
      var n := if EndsWithHash(f) then |f| - 1 else |f|;
      if n <= |t| && (f[0] == SWC || f[0] == t[0]) {
        if Pointwise(f[1..], t[1..], n - 1) {
          forall k | 0 <= k < n ensures f[k] == SWC || f[k] == t[k] {
            if k > 0 { assert f[1..][k - 1] == SWC || f[1..][k - 1] == t[1..][k - 1]; }
          }
        }
        if Pointwise(f, t, n) {
          forall k | 0 <= k < n - 1 ensures f[1..][k] == SWC || f[1..][k] == t[1..][k] {
            assert f[k + 1] == SWC || f[k + 1] == t[k + 1];
          }
        }
      }
    }
  }

  /** The two searches compute one relation, except that the retained search goes further in exactly two
      cases: '+' at a first level with '$', and '#' standing at an empty level.  Each of them is a
      difference for every filter and topic that agree at the other levels. */
  lemma TwoWayAgreement(f: Path, t: Path)
    requires ValidFilter(f) && t != [] && WildcardFree(t)
    ensures Matches(f, t) ==> RetainReaches(f, t)
    ensures RetainReaches(f, t) ==>
            (Matches(f, t) <==> !PlusAtDollar(f, t) && !HashAtEmptyLevel(f, t))
  {
    ReachesExact(f, t);
    if f[0] == MWC {
      assert f == [MWC];
    } else if f[0] != SWC && RetainReaches(f, t) {
      assert Pointwise(f, t, 1);
    }
  }

  /** Both exceptions occur: "+/x" against "$a/x", and "a/#" against "a//b". */
  lemma TwoWayExceptions()
    ensures RetainReaches([SWC, "x"], ["$a", "x"]) && !Matches([SWC, "x"], ["$a", "x"])
    ensures RetainReaches(["a", MWC], ["a", "", "b"]) && !Matches(["a", MWC], ["a", "", "b"])
  {
  }
}
