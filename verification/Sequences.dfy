/** Concatenating what each element of a sequence contributes, and subsequences. */
module Sequences {
  function Flatten<A, B>(f: A -> seq<B>, s: seq<A>): seq<B> {
    if s == [] then [] else f(s[0]) + Flatten(f, s[1..])
  }

  lemma {:induction false} FlattenConcat<A, B>(f: A -> seq<B>, s: seq<A>, t: seq<A>)
    ensures Flatten(f, s + t) == Flatten(f, s) + Flatten(f, t)
  {
    if s == [] {
      assert s + t == t;
    } else {
      assert (s + t)[1..] == s[1..] + t;
      FlattenConcat(f, s[1..], t);
    }
  }

  lemma FlattenOne<A, B>(f: A -> seq<B>, x: A)
    ensures Flatten(f, [x]) == f(x)
  {
  }

  lemma {:induction false} FlattenSame<A, B>(f: A -> seq<B>, g: A -> seq<B>, s: seq<A>)
    requires forall x :: x in s ==> f(x) == g(x)
    ensures Flatten(f, s) == Flatten(g, s)
  {
    if s != [] {
      assert s[0] in s;
      FlattenSame(f, g, s[1..]);
    }
  }

  predicate NoDuplicates<T(==)>(s: seq<T>) {
    forall i, j :: 0 <= i < j < |s| ==> s[i] != s[j]
  }

  /** `a` arises from `b` by leaving elements out. */
  ghost predicate Subsequence<T>(a: seq<T>, b: seq<T>) {
    a == [] || (b != [] && (Subsequence(a, b[1..]) || (a[0] == b[0] && Subsequence(a[1..], b[1..]))))
  }

  lemma {:induction false} SubsequenceExtend<T>(a: seq<T>, b: seq<T>, x: T)
    requires Subsequence(a, b)
    ensures Subsequence(a, b + [x]) && Subsequence(a + [x], b + [x])
  {
    if b == [] {
      assert ([x] + b)[1..] == b && b + [x] == [x] + b;
    } else {
      assert (b + [x])[1..] == b[1..] + [x];
      if a == [] {
        SubsequenceExtend([], b[1..], x);
        assert a + [x] == [x];
      } else if Subsequence(a, b[1..]) {
        SubsequenceExtend(a, b[1..], x);
      } else {
        SubsequenceExtend(a[1..], b[1..], x);
        assert (a + [x])[1..] == a[1..] + [x];
      }
    }
  }

  lemma {:induction false} SubsequencePrefix<T>(a: seq<T>, c: seq<T>, b: seq<T>)
    requires Subsequence(a + c, b)
    ensures Subsequence(a, b)
  {
    if a != [] {
      assert (a + c)[1..] == a[1..] + c;
      if Subsequence(a + c, b[1..]) {
        SubsequencePrefix(a, c, b[1..]);
      } else {
        SubsequencePrefix(a[1..], c, b[1..]);
      }
    }
  }
}
