/** Paths inside a trie and the two plain maps that a trie stands for. */
module TrieMaps {
  import opened Paths
  import opened Options
  import opened Topics
  import opened Subscriptions

  /** One second in the unit of time used here. */
  const SECOND: int := 1_000_000_000

  datatype Message = Message(payload: seq<int>, qos: nat, expireAt: Option<int>)

  /** A message has expired once less than a whole second is left; the seconds left are a 32-bit number. */
  predicate Expired(m: Message, now: int) {
    m.expireAt.Some?
    && (m.expireAt.value <= now || (m.expireAt.value - now) / SECOND % 0x1_0000_0000 == 0)
  }

  datatype Outcome = Ok | NotFound

  function RetainedAt(m: map<Path, Message>, p: Path): Option<Message> {
    if p in m then Some(m[p]) else None
  }

  function Parent(p: Path): Path requires p != [] { p[..|p| - 1] }
  function Last(p: Path): Level requires p != [] { p[|p| - 1] }

  /** A proper prefix. */
  predicate Above(p: Path, q: Path) { p < q }

  lemma PrefixStep(p: Path, i: nat)
    requires i < |p|
    ensures p[..i + 1] == Child(p[..i], p[i])
  {
  }

  function LevelAt(p: Path, n: nat): Level {
    if n < |p| then p[n] else ""
  }

  function WithRetained(m: map<Path, Message>, p: Path, v: Option<Message>): map<Path, Message> {
    if v.Some? then m[p := v.value] else m - {p}
  }

  /** None removes all subscribers. */
  function Dropped(subs: Subs, sub: Option<SubId>): Subs {
    match sub case None => map[] case Some(id) => subs - {id}
  }

  /** The subscription is there afterwards, with these parameters, and all others are as they were. */
  ghost predicate Joined(c: Content, d: Content, f: Path, id: SubId, p: Params) {
    forall g, i, q :: Has(d, g, i, q) <==> if g == f && i == id then q == p else Has(c, g, i, q)
  }

  /** The subscription, or every one to the filter, is gone afterwards, and all others are as they were. */
  ghost predicate Left(c: Content, d: Content, f: Path, sub: Option<SubId>) {
    forall g, i, q :: Has(d, g, i, q) <==> Has(c, g, i, q) && !(g == f && (sub.None? || i == sub.value))
  }

  lemma PutOne(c: Content, f: Path, id: SubId, p: Params)
    requires Proper(c)
    ensures Joined(c, WithSubs(c, f, SubsAt(c, f)[id := p]), f, id, p)
  {
    var subs := SubsAt(c, f)[id := p];
    assert id in subs;
  }

  lemma DropOne(c: Content, f: Path, sub: Option<SubId>)
    requires Proper(c)
    ensures Left(c, WithSubs(c, f, Dropped(SubsAt(c, f), sub)), f, sub)
  {
    var d := WithSubs(c, f, Dropped(SubsAt(c, f), sub));
    forall g, i, q ensures Has(d, g, i, q) <==> Has(c, g, i, q) && !(g == f && (sub.None? || i == sub.value)) {
      if g == f && f in c && i in c[f] && sub.Some? && i != sub.value {
        assert i in Dropped(c[f], sub);
      }
    }
  }

  lemma NothingDropped(sub: Option<SubId>)
    ensures Dropped(map[], sub) == map[]
  {
  }

  /** Filters without subscribers are absent. */
  predicate Proper(c: Content) {
    forall p :: p in c ==> c[p] != map[]
  }

  lemma WithSubsAt(c: Content, p: Path, subs: Subs)
    ensures var d := WithSubs(c, p, subs);
            && SubsAt(d, p) == subs && (p in d <==> subs != map[])
            && (forall q :: q != p ==> SubsAt(d, q) == SubsAt(c, q))
            && (forall q :: q != p ==> (q in d <==> q in c))
            && (Proper(c) ==> Proper(d))
  {
  }

  lemma WithSubsTwice(c: Content, p: Path, a: Subs, b: Subs)
    ensures WithSubs(WithSubs(c, p, a), p, b) == WithSubs(c, p, b)
    ensures Proper(c) ==> WithSubs(c, p, SubsAt(c, p)) == c
  {
  }

  lemma WithRetainedAt(m: map<Path, Message>, p: Path, v: Option<Message>)
    ensures var d := WithRetained(m, p, v);
            && RetainedAt(d, p) == v
            && (forall q :: q != p ==> RetainedAt(d, q) == RetainedAt(m, q))
            && (forall q :: q != p ==> (q in d <==> q in m))
            && (p in d <==> v != None)
  {
  }

  /** The unexpired messages at the given paths, in that order. */
  function Messages(m: map<Path, Message>, ps: seq<Path>, now: int): seq<Message> {
    if ps == [] then []
    else (if ps[0] in m && !Expired(m[ps[0]], now) then [m[ps[0]]] else []) + Messages(m, ps[1..], now)
  }

  /** Reading drops the expired messages at the paths read. */
  function Purge(m: map<Path, Message>, ps: seq<Path>, now: int): map<Path, Message> {
    map p | p in m && !(p in ps && Expired(m[p], now)) :: m[p]
  }

  /** With less than a second left a message has expired; without an expiry, or with a second and less than 2^32 seconds
      left, it has not. */
  lemma ExpiredMeans(m: Message, now: int)
    ensures m.expireAt == None ==> !Expired(m, now)
    ensures m.expireAt.Some? && m.expireAt.value - now < 1_000_000_000 ==> Expired(m, now)
    ensures m.expireAt.Some? && 1_000_000_000 <= m.expireAt.value - now < 1_000_000_000 * 0x1_0000_0000 ==>
              !Expired(m, now)
  {
  }

  /** Still to be handed out, for certain: no expiry, or between a second and 2^32 seconds left. */
  predicate Lasting(m: Message, now: int) {
    m.expireAt.None? || 1_000_000_000 <= m.expireAt.value - now < 1_000_000_000 * 0x1_0000_0000
  }

  /** What is read has a second left, what lasts is read and stays, and what has less left goes; nothing else
      changes. */
  lemma {:induction false} ReadMeans(m: map<Path, Message>, ps: seq<Path>, now: int)
    ensures forall x :: x in Messages(m, ps, now) ==> x.expireAt.None? || x.expireAt.value - now >= 1_000_000_000
    ensures forall p :: p in ps && p in m && Lasting(m[p], now) ==>
              m[p] in Messages(m, ps, now) && p in Purge(m, ps, now)
    ensures forall p :: p in ps && p in m && m[p].expireAt.Some? && m[p].expireAt.value - now < 1_000_000_000 ==>
              p !in Purge(m, ps, now)
    ensures forall p :: p in Purge(m, ps, now) ==> p in m && Purge(m, ps, now)[p] == m[p]
    ensures forall p :: p in m && p !in ps ==> p in Purge(m, ps, now)
  {
    if ps != [] {
      ReadMeans(m, ps[1..], now);
      if ps[0] in m {
        ExpiredMeans(m[ps[0]], now);
      }
      hide Expired;
      assert forall p :: p in ps <==> p == ps[0] || p in ps[1..];
    }
  }

  lemma NothingRead(m: map<Path, Message>, now: int)
    ensures Messages(m, [], now) == [] && Purge(m, [], now) == m
  {
  }

  lemma ReadOne(m: map<Path, Message>, p: Path, now: int)
    ensures Messages(m, [p], now) == if p in m && !Expired(m[p], now) then [m[p]] else []
    ensures Purge(m, [p], now) == if p in m && Expired(m[p], now) then m - {p} else m
  {
  }

  lemma ReadBoth(m: map<Path, Message>, a: seq<Path>, b: seq<Path>, now: int)
    ensures Messages(m, a + b, now) == Messages(m, a, now) + Messages(Purge(m, a, now), b, now)
    ensures Purge(m, a + b, now) == Purge(Purge(m, a, now), b, now)
  {
    MessagesConcat(m, a, b, now);
    ReadPurged(m, a, b, now);
  }

  lemma {:induction false} MessagesConcat(m: map<Path, Message>, a: seq<Path>, b: seq<Path>, now: int)
    ensures Messages(m, a + b, now) == Messages(m, a, now) + Messages(m, b, now)
  {
    if a == [] {
      assert a + b == b;
    } else {
      assert (a + b)[1..] == a[1..] + b;
      MessagesConcat(m, a[1..], b, now);
    }
  }

  lemma {:induction false} ReadPurged(m: map<Path, Message>, a: seq<Path>, b: seq<Path>, now: int)
    ensures Messages(Purge(m, a, now), b, now) == Messages(m, b, now)
  {
    if b != [] { ReadPurged(m, a, b[1..], now); }
  }

  /** The prefixes of p from length hi down to length lo + 1. */
  function Chain(p: Path, hi: int, lo: int): seq<Path>
    requires -1 <= lo <= hi <= |p|
    decreases hi - lo
  {
    if hi == lo then [] else [p[..hi]] + Chain(p, hi - 1, lo)
  }

  /** From the longest prefix to the shortest. */
  lemma {:induction false} ChainMeans(p: Path, hi: int, lo: int)
    requires -1 <= lo <= hi <= |p|
    ensures |Chain(p, hi, lo)| == hi - lo
    ensures forall k :: 0 <= k < hi - lo ==> Chain(p, hi, lo)[k] == p[..hi - k]
    decreases hi - lo
  {
    if hi > lo {
      ChainMeans(p, hi - 1, lo);
    }
  }

  lemma {:induction false} ChainSnoc(p: Path, hi: int, lo: int)
    requires -1 <= lo < hi <= |p|
    ensures Chain(p, hi, lo) == Chain(p, hi, lo + 1) + [p[..lo + 1]]
    decreases hi - lo
  {
    if hi > lo + 1 { ChainSnoc(p, hi - 1, lo); }
  }

  /** The nodes at those prefixes; the root is never taken out. */
  ghost function Removed(p: Path, hi: int, lo: int): set<Path>
    requires -1 <= lo <= hi <= |p|
  {
    (set q | q in Chain(p, hi, lo)) - {[]}
  }

  function Notices(notify: bool, p: Path, hi: int, lo: int): seq<Path>
    requires -1 <= lo <= hi <= |p|
  {
    if notify then Chain(p, hi, lo) else []
  }

  lemma RemovedStep<T>(t: map<Path, T>, p: Path, hi: int, lo: int)
    requires -1 <= lo < hi <= |p|
    ensures (t - Removed(p, hi, lo + 1)) - (if lo + 1 == 0 then {} else {p[..lo + 1]}) == t - Removed(p, hi, lo)
  {
    ChainSnoc(p, hi, lo);
    assert lo + 1 != 0 ==> p[..lo + 1] != [];
  }

  lemma NothingYet<T>(t: map<Path, T>, c: seq<Path>, notify: bool, p: Path)
    ensures t - Removed(p, |p|, |p|) == t && c + Notices(notify, p, |p|, |p|) == c
  {
  }

  lemma NoticesStep(c: seq<Path>, notify: bool, p: Path, hi: int, lo: int)
    requires -1 <= lo < hi <= |p|
    ensures (c + Notices(notify, p, hi, lo + 1)) + (if notify then [p[..lo + 1]] else [])
              == c + Notices(notify, p, hi, lo)
  {
    if notify { ChainSnoc(p, hi, lo); }
  }

  lemma Parting(p: Path, n: nat)
    requires 0 < n <= |p|
    ensures Parent(p[..n]) == p[..n - 1] && Last(p[..n]) == p[n - 1]
  {
  }

  lemma ChildParts(p: Path, l: Level)
    ensures Child(p, l) != [] && Parent(Child(p, l)) == p && Last(Child(p, l)) == l && Child(p, l) != p
  {
  }

  lemma PathParts(p: Path)
    requires p != []
    ensures Child(Parent(p), Last(p)) == p && Parent(p) != p
  {
  }
}
