/** Cleaning of request paths (`path.go`): one pass over the bytes, with an output buffer that is only made when the
    output departs from the input. */
module CleanPath {
  import opened Paths

  // ---------------------------------------------------------------- what a clean path is

  /** A segment that names something. */
  predicate Proper(s: Level) {
    s != "" && s != "." && s != ".."
  }

  predicate Stack(st: Path) {
    forall k :: 0 <= k < |st| ==> Proper(st[k]) && '/' !in st[k]
  }

  /** Drop empty segments and ".", and go back on "..". */
  function Reduce(segs: Path, st: Path): Path {
    if segs == [] then st
    else if segs[0] == "" || segs[0] == "." then Reduce(segs[1..], st)
    else if segs[0] == ".." then Reduce(segs[1..], if st == [] then [] else st[..|st| - 1])
    else Reduce(segs[1..], st + [segs[0]])
  }

  /** A slash before every segment. */
  function Body(segs: Path): string {
    if segs == [] then "" else "/" + segs[0] + Body(segs[1..])
  }

  function Final(segs: Path): Level
    requires segs != []
  {
    segs[|segs| - 1]
  }

  /** The result ends in a slash: so does the path, or its last segment is ".". */
  predicate Trailing(p: string) {
    Final(Split(p)) == "." || (Final(Split(p)) == "" && |p| > 1)
  }

  function Clean(p: string): string {
    var st := Reduce(Split(p), []);
    Body(st + if st == [] || Trailing(p) then [""] else [])
  }

  /** Starts with a slash; every segment names something, but the last may be empty. */
  predicate Normal(p: string) {
    var s := Split(p);
    && |s| >= 2 && s[0] == ""
    && (forall k :: 1 <= k < |s| - 1 ==> Proper(s[k]))
    && (Proper(s[|s| - 1]) || s[|s| - 1] == "")
  }

  // ---------------------------------------------------------------- splitting

  /** The first segment ends at the first slash. */
  lemma {:induction false} SplitFirst(s: string, e: nat)
    requires e <= |s| && '/' !in s[..e] && (e < |s| ==> s[e] == '/')
    ensures Split(s) == [s[..e]] + (if e < |s| then Split(s[e + 1..]) else [])
  {
    if e > 0 {
      assert s[0] in s[..e];
      assert s[1..][..e - 1] == s[..e][1..];
      SplitFirst(s[1..], e - 1);
      assert s[..e] == [s[0]] + s[1..][..e - 1];
      assert e < |s| ==> s[1..][e..] == s[e + 1..];
    }
  }

  lemma {:induction false} SplitLast(s: string, r: nat)
    requires r <= |s| && (r == 0 || s[r - 1] == '/')
    ensures Final(Split(s)) == Final(Split(s[r..]))
  {
    if r > 0 {
      SplitLast(s[1..], r - 1);
      assert s[1..][r - 1..] == s[r..];
      SplitTail(s);
      if r > 1 && s[0] != '/' && |Split(s[1..])| == 1 {
        OneSegment(s[1..]);
        assert s[1..][r - 2] == '/';
      }
    } else {
      assert s[0..] == s;
    }
  }

  /** The last segment is that of the rest, unless there is only one. */
  lemma SplitTail(s: string)
    requires s != ""
    ensures s[0] == '/' || |Split(s[1..])| > 1 ==> Final(Split(s)) == Final(Split(s[1..]))
  {
  }

  lemma {:induction false} OneSegment(s: string)
    requires |Split(s)| == 1
    ensures '/' !in s
  {
    if s != "" {
      OneSegment(s[1..]);
      assert s == [s[0]] + s[1..];
    }
  }

  lemma {:induction false} LastByte(s: string)
    requires s != ""
    ensures Final(Split(s)) == "" <==> s[|s| - 1] == '/'
  {
    if |s| > 1 {
      LastByte(s[1..]);
    } else {
      assert s[1..] == "";
    }
  }

  lemma {:induction false} SplitBody(x: Level, segs: Path)
    requires '/' !in x && forall k :: 0 <= k < |segs| ==> '/' !in segs[k]
    ensures Split(x + Body(segs)) == [x] + segs
    decreases segs
  {
    var s := x + Body(segs);
    assert s[..|x|] == x;
    SplitFirst(s, |x|);
    if segs != [] {
      SplitBody(segs[0], segs[1..]);
      assert s[|x| + 1..] == segs[0] + Body(segs[1..]);
    }
  }

  lemma {:induction false} JoinBody(x: Level, segs: Path)
    ensures Join([x] + segs) == x + Body(segs)
    decreases segs
  {
    if segs != [] {
      JoinBody(segs[0], segs[1..]);
      assert [segs[0]] + segs[1..] == segs;
      assert ([x] + segs)[1..] == segs;
    }
  }

  lemma {:induction false} BodyConcat(a: Path, b: Path)
    ensures Body(a + b) == Body(a) + Body(b)
  {
    if a == [] {
      assert a + b == b;
    } else {
      assert (a + b)[1..] == a[1..] + b;
      BodyConcat(a[1..], b);
    }
  }

  // ---------------------------------------------------------------- the normal form

  lemma {:induction false} ReduceStack(segs: Path, st: Path)
    requires Stack(st) && forall k :: 0 <= k < |segs| ==> '/' !in segs[k]
    ensures Stack(Reduce(segs, st))
  {
    if segs != [] {
      if segs[0] == "" || segs[0] == "." {
        ReduceStack(segs[1..], st);
      } else if segs[0] == ".." {
        ReduceStack(segs[1..], if st == [] then [] else st[..|st| - 1]);
      } else {
        ReduceStack(segs[1..], st + [segs[0]]);
      }
    }
  }

  lemma {:induction false} ReduceProper(segs: Path, tail: Path, st: Path)
    requires forall k :: 0 <= k < |segs| ==> Proper(segs[k])
    ensures Reduce(segs + tail, st) == Reduce(tail, st + segs)
  {
    if segs == [] {
      assert segs + tail == tail && st + segs == st;
    } else {
      assert (segs + tail)[1..] == segs[1..] + tail;
      ReduceProper(segs[1..], tail, st + [segs[0]]);
      assert st + [segs[0]] + segs[1..] == st + segs;
    }
  }

  /** Cleaning gives a normal path. */
  lemma CleanIsNormal(p: string)
    ensures Normal(Clean(p))
  {
    ReduceStack(Split(p), []);
    var st := Reduce(Split(p), []);
    var q := st + if st == [] || Trailing(p) then [""] else [];
    SplitBody("", q);
    assert "" + Body(q) == Body(q);
  }

  /** Cleaning changes exactly the paths that are not normal; so cleaning twice is cleaning once. */
  lemma FixedIffNormal(p: string)
    ensures Clean(p) == p <==> Normal(p)
    ensures Clean(Clean(p)) == Clean(p)
  {
    CleanIsNormal(p);
    if Normal(p) { NormalFixed(p); }
    NormalFixed(Clean(p));
  }

  // ---------------------------------------------------------------- the rules, on paths

  lemma {:induction false} SplitConcat(a: string, b: string)
    ensures Split(a + "/" + b) == Split(a) + Split(b)
  {
    var s := a + "/" + b;
    if a == "" {
      assert s[1..] == b;
    } else {
      assert s[1..] == a[1..] + "/" + b;
      SplitConcat(a[1..], b);
    }
  }

  lemma {:induction false} ReduceConcat(a: Path, b: Path, st: Path)
    ensures Reduce(a + b, st) == Reduce(b, Reduce(a, st))
  {
    if a == [] {
      assert a + b == b;
    } else {
      assert (a + b)[1..] == a[1..] + b;
      var next := if a[0] == "" || a[0] == "." then st
                  else if a[0] == ".." then (if st == [] then [] else st[..|st| - 1])
                  else st + [a[0]];
      ReduceConcat(a[1..], b, next);
    }
  }

  /** Two paths that keep the same segments and end alike. */
  lemma SameClean(p: string, q: string)
    requires Reduce(Split(p), []) == Reduce(Split(q), []) && Final(Split(p)) == Final(Split(q))
    requires |p| > 1 && (|q| > 1 || Reduce(Split(q), []) == [])
    ensures Clean(p) == Clean(q)
  {
  }

  /** Segments in the middle that come to nothing can be left out. */
  lemma LeaveOut(a: string, m: string, b: string)
    requires forall st :: Reduce(Split(m), st) == st
    ensures Clean(a + "/" + m + "/" + b) == Clean(a + "/" + b)
  {
    var p, q := a + "/" + m + "/" + b, a + "/" + b;
    SplitConcat(a + "/" + m, b);
    SplitConcat(a, m);
    SplitConcat(a, b);
    hide Split, Reduce, Clean;
    ReduceConcat(Split(a) + Split(m), Split(b), []);
    ReduceConcat(Split(a), Split(m), []);
    ReduceConcat(Split(a), Split(b), []);
    assert Split(p)[|Split(p)| - 1] == Split(b)[|Split(b)| - 1] == Split(q)[|Split(q)| - 1];
    if |q| <= 1 {
      assert a == "" && b == "";
      NothingKept();
    }
    SameClean(p, q);
  }

  lemma NothingKept()
    ensures Split("") == [""] && forall st :: Reduce([""], st) == st && Reduce([], st) == st
  {
    forall st ensures Reduce([""], st) == st && Reduce([], st) == st { ReduceEnd(st); }
  }

  lemma OneName(x: string)
    requires '/' !in x
    ensures Split(x) == [x]
  {
    hide Split;
    assert x[..|x|] == x;
    SplitFirst(x, |x|);
  }

  /** Replace multiple slashes with a single one. */
  lemma SlashesCollapse(a: string, b: string)
    ensures Clean(a + "//" + b) == Clean(a + "/" + b)
  {
    NothingKept();
    LeaveOut(a, "", b);
    assert a + "/" + "" + "/" + b == a + "//" + b;
  }

  /** Eliminate each "." segment. */
  lemma DotsVanish(a: string, b: string)
    ensures Clean(a + "/./" + b) == Clean(a + "/" + b)
  {
    OneName(".");
    forall st ensures Reduce(["."], st) == st { ReduceFirst(".", [], st); }
    LeaveOut(a, ".", b);
    assert a + "/" + "." + "/" + b == a + "/./" + b;
  }

  /** Eliminate each inner ".." segment with the segment before it. */
  lemma DotsGoBack(a: string, x: string, b: string)
    requires x != "" && x != "." && x != ".." && '/' !in x
    ensures Clean(a + "/" + x + "/../" + b) == Clean(a + "/" + b)
  {
    BackAndForth(x);
    LeaveOut(a, x + "/..", b);
    assert a + "/" + (x + "/..") + "/" + b == a + "/" + x + "/../" + b;
  }

  lemma BackAndForth(x: string)
    requires x != "" && x != "." && x != ".." && '/' !in x
    ensures Split(x + "/..") == [x, ".."] && forall st :: Reduce([x, ".."], st) == st
  {
    SplitConcat(x, "..");
    OneName(x);
    OneName("..");
    assert x + "/" + ".." == x + "/..";
    hide Split;
    forall st ensures Reduce([x, ".."], st) == st {
      ReduceFirst(x, [".."], st);
      ReduceFirst("..", [], st + [x]);
      assert [x] + [".."] == [x, ".."] && [".."] + [] == [".."];
      assert (st + [x])[..|st|] == st;
      NothingKept();
    }
  }

  /** Eliminate ".." segments that begin a rooted path. */
  lemma DotsAtRoot(b: string)
    ensures Clean("/../" + b) == Clean("/" + b)
  {
    var p, q := "/../" + b, "/" + b;
    assert p == "" + "/" + (".." + "/" + b) && q == "" + "/" + b;
    SplitConcat("", ".." + "/" + b);
    SplitConcat("..", b);
    SplitConcat("", b);
    OneName("..");
    NothingKept();
    hide Split, Clean;
    ReduceFirst("", Split(".." + "/" + b), []);
    ReduceFirst("..", Split(b), []);
    ReduceFirst("", Split(b), []);
    hide Reduce;
    assert Split(p)[|Split(p)| - 1] == Split(b)[|Split(b)| - 1] == Split(q)[|Split(q)| - 1];
    assert |q| == 1 ==> b == "";
    SameClean(p, q);
  }

  /** A path that is not rooted is taken as rooted. */
  lemma RootAdded(p: string)
    ensures Clean("/" + p) == Clean(p)
  {
    var q := "/" + p;
    assert q == "" + "/" + p;
    SplitConcat("", p);
    NothingKept();
    hide Split;
    ReduceFirst("", Split(p), []);
    hide Reduce;
    assert Split(q)[|Split(q)| - 1] == Split(p)[|Split(p)| - 1];
    if |p| == 1 && Final(Split(p)) == "" {
      OnlySlash(p);
    }
  }

  lemma OnlySlash(p: string)
    requires |p| == 1 && Final(Split(p)) == ""
    ensures Reduce(Split(p), []) == []
  {
    var empty: Path := ["", ""];
    assert p[1..] == "";
    assert Split(p) == if p[0] == '/' then empty else [p];
    assert p[0] == '/' && empty[1..] == [""];
    NothingKept();
  }

  /** A "." at the end is a slash at the end. */
  lemma DotAtEnd(a: string)
    ensures Clean(a + "/.") == Clean(a + "/")
  {
    var p, q := a + "/" + ".", a + "/" + "";
    SplitConcat(a, ".");
    SplitConcat(a, "");
    OneName(".");
    NothingKept();
    hide Split;
    ReduceConcat(Split(a), ["."], []);
    ReduceConcat(Split(a), [""], []);
    ReduceFirst(".", [], Reduce(Split(a), []));
    assert Split(p)[|Split(p)| - 1] == "." && Split(q)[|Split(q)| - 1] == "";
    assert a + "/." == p && a + "/" == q;
    assert |q| == 1 ==> a == "";
  }

  /** A ".." at the end takes its segment along, and the slash before that. */
  lemma DotsAtEnd(a: string, x: string)
    requires x != "" && x != "." && x != ".." && '/' !in x
    requires a == "" || (Normal(a) && a[|a| - 1] != '/')
    ensures Clean(a + "/" + x + "/..") == Clean(a)
  {
    var p := a + "/" + (x + "/..");
    assert p == a + "/" + x + "/..";
    SplitConcat(a, x + "/..");
    BackAndForth(x);
    hide Split, Normal;
    ReduceConcat(Split(a), [x, ".."], []);
    hide Reduce;
    assert Split(p)[|Split(p)| - 1] == "..";
    EndsInName(a);
  }

  lemma EndsInName(a: string)
    requires a == "" || (Normal(a) && a[|a| - 1] != '/')
    ensures !Trailing(a)
  {
    if a != "" {
      hide Split;
      LastByte(a);
    } else {
      NothingKept();
    }
  }

  lemma NormalFixed(p: string)
    requires Normal(p)
    ensures Clean(p) == p
  {
    hide Split, Reduce, Body;
    var s := Split(p);
    var q := s[1..];
    JoinSplit(p);
    JoinBody("", q);
    assert [""] + q == s;
    assert p == Body(q);
    ReduceFirst("", q, []);
    NormalReduce(q);
    assert q + [] == q;
    if q[|q| - 1] == "" {
      var mid := q[..|q| - 1];
      assert q == mid + [""];
      if mid != [] {
        LongBody(q);
      }
    }
  }

  lemma ProperReduce(q: Path)
    requires forall k :: 0 <= k < |q| ==> Proper(q[k])
    ensures Reduce(q, []) == q && Reduce(q + [""], []) == q
  {
    hide Reduce, Proper;
    ReduceProper(q, [], []);
    ReduceProper(q, [""], []);
    ReduceEnd([] + q);
    assert q + [] == q && [] + q == q;
  }

  lemma NormalReduce(q: Path)
    requires q != [] && (forall k :: 0 <= k < |q| - 1 ==> Proper(q[k])) && (Proper(q[|q| - 1]) || q[|q| - 1] == "")
    ensures Reduce(q, []) == if q[|q| - 1] == "" then q[..|q| - 1] else q
  {
    hide Reduce, Proper;
    var mid := q[..|q| - 1];
    assert q == mid + [q[|q| - 1]];
    if q[|q| - 1] == "" {
      ProperReduce(mid);
    } else {
      ProperReduce(q);
    }
  }

  lemma ReduceEnd(st: Path)
    ensures Reduce([], st) == st && Reduce([""], st) == st
  {
  }

  lemma LongBody(q: Path)
    requires |q| >= 2
    ensures |Body(q)| > 1
  {
  }

  // ---------------------------------------------------------------- the loop

  /** The segments still to be read at a position. */
  function Remaining(p: string, r: nat): Path {
    if r <= |p| then Split(p[r..]) else []
  }

  /** What has been written for the segments kept so far. */
  function Written(st: Path): string {
    if st == [] then "/" else Body(st)
  }

  lemma WrittenPush(st: Path, s: Level)
    ensures Written(st + [s]) == Written(st) + (if st == [] then "" else "/") + s
  {
    BodyConcat(st, [s]);
    assert Body([s]) == "/" + s;
    assert st == [] ==> st + [s] == [s];
  }

  /** The end of what was written before the last segment: one byte, or followed by the last slash. */
  lemma WrittenPop(st: Path)
    requires st != [] && Stack(st)
    ensures var w, n := |Written(st[..|st| - 1])|, |Written(st)|;
            && 1 <= w < n && Written(st)[..w] == Written(st[..|st| - 1])
            && (w > 1 ==> Written(st)[w] == '/')
            && (forall k :: w < k < n ==> Written(st)[k] != '/')
            && (w == 1 ==> Written(st)[1] != '/')
  {
    var init, s := st[..|st| - 1], st[|st| - 1];
    WrittenPush(init, s);
    assert init + [s] == st;
    WrittenLong(init);
    forall k | 0 <= k < |s| ensures s[k] != '/' {}
  }

  lemma WrittenLong(st: Path)
    requires Stack(st)
    ensures |Written(st)| >= 1 && (|Written(st)| > 1 <==> st != [])
  {
  }

  lemma ReduceFirst(s: Level, segs: Path, st: Path)
    ensures Reduce([s] + segs, st)
         == Reduce(segs, if s == "" || s == "." then st
                         else if s == ".." then (if st == [] then [] else st[..|st| - 1])
                         else st + [s])
  {
  }

  /** What the segment at a position does. */
  lemma ReadSegment(p: string, r: nat, e: nat, st: Path)
    requires r <= e <= |p| && '/' !in p[r..e] && (e < |p| ==> p[e] == '/')
    ensures var s := p[r..e];
      Reduce(Remaining(p, r), st)
      == Reduce(Remaining(p, e + 1), if s == "" || s == "." then st
                                     else if s == ".." then (if st == [] then [] else st[..|st| - 1])
                                     else st + [s])
  {
    hide Reduce, Split;
    assert p[r..][..e - r] == p[r..e];
    SplitFirst(p[r..], e - r);
    assert e < |p| ==> p[r..][e - r + 1..] == p[e + 1..];
    ReduceFirst(p[r..e], Remaining(p, e + 1), st);
  }

  /** Skipping a slash, or stopping before one, makes no difference. */
  lemma SkipSlash(p: string, r: nat, st: Path)
    requires r <= |p| && (r < |p| ==> p[r] == '/')
    ensures Reduce(Remaining(p, r), st) == Reduce(Remaining(p, r + 1), st)
  {
  }

  /** How the last segment decides the trailing slash. */
  lemma TrailingAt(p: string, r: nat)
    requires r <= |p| && p != "" && (r == 0 || p[r - 1] == '/') && '/' !in p[r..]
    ensures Trailing(p) <==> p[r..] == "." || (p[|p| - 1] == '/' && |p| > 1)
  {
    SplitLast(p, r);
    LastByte(p);
    assert p[r..][..|p| - r] == p[r..];
    SplitFirst(p[r..], |p| - r);
  }

  ghost function Text(buf: array?<char>, s: string): string
    reads buf
  {
    if buf == null then s else buf[..]
  }

  method BufApp(buf: array?<char>, s: string, w: nat, c: char) returns (r: array?<char>)
    requires w < |Text(buf, s)|
    modifies if buf == null then {} else {buf}
    ensures buf != null ==> r == buf
    ensures buf == null && r != null ==> fresh(r)
    ensures |Text(r, s)| == |old(Text(buf, s))|
    ensures Text(r, s)[..w + 1] == old(Text(buf, s))[..w] + [c]
  {
    r := buf;
    if r == null {
      if s[w] == c {
        assert s[..w + 1] == s[..w] + [c];
        return;
      }
      r := new char[|s|];
      forall k | 0 <= k < w { r[k] := s[k]; }
      assert r[..w] == s[..w];
    }
    ghost var before := r[..w];
    r[w] := c;
    assert r[..w + 1] == before + [c];
  }

  /** From the end of what is written back to the end of the segment before the last. */
  method Backtrack(buf: array?<char>, p: string, w0: nat, ghost st: Path) returns (w: nat)
    requires Stack(st) && w0 <= |Text(buf, p)| && Text(buf, p)[..w0] == Written(st)
    ensures var rest := if st == [] then [] else st[..|st| - 1];
            1 <= w <= w0 && Text(buf, p)[..w] == Written(rest)
  {
    hide Written, Stack;
    w := w0;
    WrittenLong(st);
    if w > 1 {
      WrittenPop(st);
      ghost var low := |Written(st[..|st| - 1])|;
      ghost var text := Text(buf, p)[..w0];
      w := w - 1;
      if buf == null {
        assert forall k :: 0 <= k < w0 ==> p[k] == text[k];
        while w > 1 && p[w] != '/'
          invariant low <= w < w0
        {
          w := w - 1;
        }
      } else {
        assert forall k :: 0 <= k < w0 ==> buf[k] == text[k];
        while w > 1 && buf[w] != '/'
          invariant low <= w < w0
        {
          w := w - 1;
        }
      }
      assert Text(buf, p)[..w] == text[..w];
    }
  }

  /** A real element: the slash that is due, and its bytes. */
  method CopyElement(buf0: array?<char>, p: string, r0: nat, w0: nat, ghost st: Path, ghost e: nat)
    returns (buf: array?<char>, r: nat, w: nat)
    requires Stack(st) && r0 < e <= |p| && '/' !in p[r0..e] && (e < |p| ==> p[e] == '/')
    requires w0 <= |Text(buf0, p)| && Text(buf0, p)[..w0] == Written(st)
    requires w0 + (if st == [] then 0 else 1) + (e - r0) <= |Text(buf0, p)|
    modifies if buf0 == null then {} else {buf0}
    ensures buf0 != null ==> buf == buf0
    ensures buf0 == null && buf != null ==> fresh(buf)
    ensures |Text(buf, p)| == |old(Text(buf0, p))|
    ensures r == e && w == w0 + (if st == [] then 0 else 1) + (e - r0)
    ensures Text(buf, p)[..w] == Written(st + [p[r0..e]])
  {
    hide Body, Written;
    buf, w := buf0, w0;
    WrittenLong(st);
    WrittenPush(st, p[r0..e]);
    if w > 1 {
      buf := BufApp(buf, p, w, '/');
      w := w + 1;
    }
    buf, r, w := CopyBytes(buf, p, r0, w, e);
  }

  method CopyBytes(buf0: array?<char>, p: string, r0: nat, w0: nat, ghost e: nat)
    returns (buf: array?<char>, r: nat, w: nat)
    requires r0 <= e <= |p| && '/' !in p[r0..e] && (e < |p| ==> p[e] == '/')
    requires w0 + (e - r0) <= |Text(buf0, p)|
    modifies if buf0 == null then {} else {buf0}
    ensures buf0 != null ==> buf == buf0
    ensures buf0 == null && buf != null ==> fresh(buf)
    ensures |Text(buf, p)| == |old(Text(buf0, p))|
    ensures r == e && w == w0 + (e - r0)
    ensures Text(buf, p)[..w] == old(Text(buf0, p))[..w0] + p[r0..e]
  {
    buf, r, w := buf0, r0, w0;
    ghost var base := Text(buf0, p)[..w0];
    while r < |p| && p[r] != '/'
      invariant r0 <= r <= e && w == w0 + (r - r0)
      invariant buf0 != null ==> buf == buf0
      invariant buf0 == null && buf != null ==> fresh(buf)
      invariant |Text(buf, p)| == |old(Text(buf0, p))|
      invariant Text(buf, p)[..w] == base + p[r0..r]
    {
      OneMore(base, p, r0, r);
      buf := BufApp(buf, p, w, p[r]);
      w := w + 1;
      r := r + 1;
    }
  }

  lemma OneMore(base: string, p: string, r0: nat, r: nat)
    requires r0 <= r < |p|
    ensures base + p[r0..r] + [p[r]] == base + p[r0..r + 1]
  {
  }

  lemma {:induction false} SegmentEnd(p: string, r: nat) returns (e: nat)
    requires r <= |p|
    ensures r <= e <= |p| && '/' !in p[r..e] && (e < |p| ==> p[e] == '/')
    decreases |p| - r
  {
    if r == |p| || p[r] == '/' {
      e := r;
    } else {
      e := SegmentEnd(p, r + 1);
      assert p[r..e] == [p[r]] + p[r + 1..e];
    }
  }

  /** Where reading and writing stand; `off` is the byte by which the output may be ahead. */
  ghost predicate Bounds(p: string, r: nat, w: nat, off: nat, trailing: bool) {
    && 1 <= w && w <= r + off && w <= |p| + off
    && (r < |p| && p[r] != '/' ==> (r == 0 || p[r - 1] == '/') && (w > 1 ==> w < r + off))
    && (trailing <==> if r < |p| then |p| > 1 && p[|p| - 1] == '/' else Trailing(p))
    && (r >= |p| && trailing && w > 1 ==> w < |p| + off)
  }

  lemma Begin(p: string)
    requires p != ""
    ensures p[0] == '/' ==>
              Bounds(p, 1, 1, 0, |p| > 1 && p[|p| - 1] == '/') && Reduce(Remaining(p, 1), []) == Reduce(Split(p), [])
    ensures p[0] != '/' ==>
              Bounds(p, 0, 1, 1, |p| > 1 && p[|p| - 1] == '/') && Reduce(Remaining(p, 0), []) == Reduce(Split(p), [])
  {
    hide Reduce, Split, Trailing;
    if p[0] == '/' {
      BeginRooted(p);
    } else {
      assert p[0..] == p;
    }
  }

  lemma BeginRooted(p: string)
    requires p != "" && p[0] == '/'
    ensures Bounds(p, 1, 1, 0, |p| > 1 && p[|p| - 1] == '/') && Reduce(Remaining(p, 1), []) == Reduce(Split(p), [])
  {
    hide Reduce, Split, Trailing;
    assert p[0..] == p;
    SkipSlash(p, 0, []);
    if |p| == 1 {
      TrailingAt(p, 1);
    }
  }

  /** An empty segment. */
  lemma PassSlash(p: string, r: nat, w: nat, off: nat, trailing: bool, st: Path)
    requires Bounds(p, r, w, off, trailing) && r < |p| && p[r] == '/'
    ensures Bounds(p, r + 1, w, off, trailing) && Reduce(Remaining(p, r + 1), st) == Reduce(Remaining(p, r), st)
  {
    hide Reduce, Split, Trailing, Remaining;
    SkipSlash(p, r, st);
    if r + 1 == |p| { TrailingAt(p, r + 1); }
  }

  /** A segment "." at the end. */
  lemma PassLastDot(p: string, r: nat, w: nat, off: nat, trailing: bool, st: Path)
    requires Bounds(p, r, w, off, trailing) && r + 1 == |p| && p[r] == '.'
    ensures Bounds(p, r + 1, w, off, true) && Reduce(Remaining(p, r + 1), st) == Reduce(Remaining(p, r), st)
  {
    hide Reduce, Split, Trailing, Remaining;
    assert p[r..|p|] == "." == p[r..];
    ReadSegment(p, r, |p|, st);
    SkipSlash(p, |p|, st);
    TrailingAt(p, r);
  }

  /** A segment "." before a slash. */
  lemma PassDot(p: string, r: nat, w: nat, off: nat, trailing: bool, st: Path)
    requires Bounds(p, r, w, off, trailing) && r + 1 < |p| && p[r] == '.' && p[r + 1] == '/'
    ensures Bounds(p, r + 2, w, off, trailing) && Reduce(Remaining(p, r + 2), st) == Reduce(Remaining(p, r), st)
  {
    hide Reduce, Split, Trailing, Remaining;
    assert p[r..r + 1] == ".";
    ReadSegment(p, r, r + 1, st);
    if r + 2 == |p| { TrailingAt(p, r + 2); }
  }

  /** A segment "..", which takes the last one back. */
  lemma PassDots(p: string, r: nat, w: nat, v: nat, off: nat, trailing: bool, st: Path)
    requires Bounds(p, r, w, off, trailing) && r + 1 < |p| && p[r] == '.' && p[r + 1] == '.' &&
               (r + 2 == |p| || p[r + 2] == '/')
    requires 1 <= v <= w
    ensures Bounds(p, r + 3, v, off, trailing)
    ensures Reduce(Remaining(p, r + 3), if st == [] then [] else st[..|st| - 1]) == Reduce(Remaining(p, r), st)
  {
    hide Reduce, Split, Trailing, Remaining;
    assert p[r..r + 2] == "..";
    ReadSegment(p, r, r + 2, st);
    if r + 2 == |p| {
      assert p[r..] == "..";
      TrailingAt(p, r);
    } else if r + 3 == |p| {
      TrailingAt(p, r + 3);
    }
  }

  /** A segment that names something. */
  lemma PassElement(p: string, r: nat, e: nat, w: nat, off: nat, trailing: bool, st: Path)
    requires Bounds(p, r, w, off, trailing) && r < e <= |p| && '/' !in p[r..e] && (e < |p| ==> p[e] == '/')
    requires Proper(p[r..e]) && p[r] != '/' && (w > 1 <==> st != [])
    ensures var v := w + (if st == [] then 0 else 1) + (e - r); v <= |p| + off && Bounds(p, e, v, off, trailing)
    ensures Reduce(Remaining(p, e), st + [p[r..e]]) == Reduce(Remaining(p, r), st)
  {
    hide Reduce, Split, Trailing, Remaining;
    ReadSegment(p, r, e, st);
    SkipSlash(p, e, st + [p[r..e]]);
    if e == |p| {
      assert p[r..] == p[r..e];
      assert p[|p| - 1] == p[r..e][e - 1 - r];
      TrailingAt(p, r);
    }
  }

  method CleanPath(p: string) returns (q: string)
    ensures q == Clean(p)
  {
    hide Reduce, Split, Body, Clean, Bounds, Written, Proper, Remaining, Trailing;
    if p == "" {
      CleanNothing();
      return "/";
    }
    Begin(p);
    WrittenStart();
    var n := |p|;
    var buf: array?<char> := null;
    var r: nat, w: nat := 1, 1;
    ghost var off: nat := 0;
    if p[0] != '/' {
      r := 0;
      off := 1;
      buf := new char[n + 1];
      buf[0] := '/';
    }
    var trailing := n > 1 && p[n - 1] == '/';
    ghost var st: Path := [];
    assert Text(buf, p)[..1] == "/";
    while r < n
      invariant 0 <= r <= n + 1 && Stack(st) && Bounds(p, r, w, off, trailing)
      invariant off <= 1 && |Text(buf, p)| == n + off && (buf != null ==> fresh(buf)) && w <= n + off
      invariant Text(buf, p)[..w] == Written(st)
      invariant Reduce(Remaining(p, r), st) == Reduce(Split(p), [])
      decreases n + 1 - r
    {
      WrittenLong(st);
      if p[r] == '/' {
        PassSlash(p, r, w, off, trailing, st);
        r := r + 1;
      } else if p[r] == '.' && r + 1 == n {
        PassLastDot(p, r, w, off, trailing, st);
        trailing := true;
        r := r + 1;
      } else if p[r] == '.' && p[r + 1] == '/' {
        PassDot(p, r, w, off, trailing, st);
        r := r + 2;
      } else if p[r] == '.' && p[r + 1] == '.' && (r + 2 == n || p[r + 2] == '/') {
        var v := Backtrack(buf, p, w, st);
        PassDots(p, r, w, v, off, trailing, st);
        r := r + 3;
        w := v;
        st := if st == [] then [] else st[..|st| - 1];
      } else {
        ghost var e := SegmentEnd(p, r);
        RealElement(p, r, e);
        PassElement(p, r, e, w, off, trailing, st);
        ghost var s := p[r..e];
        buf, r, w := CopyElement(buf, p, r, w, st, e);
        st := st + [s];
      }
    }
    WrittenLong(st);
    ReduceNothing(p, r, st);
    CleanFrom(p, st);
    End(p, r, w, off, trailing);
    if trailing && w > 1 {
      WrittenPush(st, "");
      assert Written(st) + "/" + "" == Written(st) + "/";
      buf := BufApp(buf, p, w, '/');
      w := w + 1;
    }
    if buf == null {
      return p[..w];
    }
    q := buf[..w];
  }

  lemma WrittenStart()
    ensures Written([]) == "/"
  {
  }

  lemma End(p: string, r: nat, w: nat, off: nat, trailing: bool)
    requires Bounds(p, r, w, off, trailing) && r >= |p|
    ensures trailing <==> Trailing(p)
    ensures trailing && w > 1 ==> w < |p| + off
  {
  }

  lemma CleanNothing()
    ensures Clean("") == "/"
  {
    assert Split("") == [""];
    assert Reduce([""], []) == [];
    assert Body([""]) == "/";
    assert [] + [""] == [""];
  }

  lemma RealElement(p: string, r: nat, e: nat)
    requires r < |p| && r <= e <= |p| && '/' !in p[r..e] && (e < |p| ==> p[e] == '/') && p[r] != '/'
    requires !(p[r] == '.' && r + 1 == |p|) && !(p[r] == '.' && p[r + 1] == '/')
    requires !(p[r] == '.' && p[r + 1] == '.' && (r + 2 == |p| || p[r + 2] == '/'))
    ensures r < e && Proper(p[r..e])
  {
  }

  lemma ReduceNothing(p: string, r: nat, st: Path)
    requires r >= |p|
    ensures Reduce(Remaining(p, r), st) == st
  {
  }

  lemma CleanFrom(p: string, st: Path)
    requires Reduce(Split(p), []) == st
    ensures Clean(p) == if Trailing(p) && st != [] then Written(st + [""]) else Written(st)
  {
    assert st == [] ==> st + [""] == [""];
    assert Body([""]) == "/";
    assert st + [] == st;
  }
}
