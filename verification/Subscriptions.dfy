/** What a publish collects: per subscriber, one entry for each matching subscription, or one merged entry
    in overlapping mode.  The specification speaks of a plain map from filters to subscribers; both tries
    are proved against it. */
module Subscriptions {
  import opened Paths
  import opened Sequences
  import opened Topics

  /** The address a subscriber hashes to. */
  type SubId = nat

  datatype Options = Options(qos: nat, noLocal: bool, retainAsPublished: bool)

  datatype Params = Params(granted: nat, ops: Options, id: nat)

  datatype Entry = Entry(qos: nat, ops: Options, ids: seq<nat>)

  type Subs = map<SubId, Params>
  type Publishes = map<SubId, seq<Entry>>

  /** Filters with at least one subscriber, and their subscribers. */
  type Content = map<Path, Subs>

  /** The subscriber is subscribed to the filter, with these parameters. */
  predicate Has(c: Content, f: Path, id: SubId, p: Params) {
    f in c && id in c[f] && c[f][id] == p
  }

  function SubsAt(c: Content, f: Path): Subs {
    if f in c then c[f] else map[]
  }

  function WithSubs(c: Content, f: Path, subs: Subs): Content {
    if subs == map[] then c - {f} else c[f := subs]
  }

  function Get(acc: Publishes, id: SubId): seq<Entry> {
    if id in acc then acc[id] else []
  }

  predicate NonEmpty(acc: Publishes) {
    forall id :: id in acc ==> acc[id] != []
  }

  lemma SamePublishes(a: Publishes, b: Publishes)
    requires NonEmpty(a) && NonEmpty(b)
    requires forall id :: Get(a, id) == Get(b, id)
    ensures a == b
  {
    forall id ensures id in a <==> id in b { assert Get(a, id) == Get(b, id); }
    forall id | id in a ensures a[id] == b[id] { assert Get(a, id) == Get(b, id); }
  }

  function Identifiers(s: Params): seq<nat> {
    if s.id > 0 then [s.id] else []
  }

  function Acquire(s: Params): Entry {
    Entry(s.granted, s.ops, Identifiers(s))
  }

  predicate Visible(s: Params, id: SubId, publisher: SubId) {
    !s.ops.noLocal || id != publisher
  }

  /** What one subscription does to the entries its subscriber has so far. */
  function Step(overlap: bool, cur: seq<Entry>, s: Params, id: SubId, publisher: SubId): seq<Entry> {
    if overlap && cur != [] then
      [Entry(if cur[0].qos < s.granted then s.granted else cur[0].qos, cur[0].ops, cur[0].ids + Identifiers(s))]
      + cur[1..]
    else if Visible(s, id, publisher) then cur + [Acquire(s)]
    else cur
  }

  function StepAt(overlap: bool, cur: seq<Entry>, subs: Subs, id: SubId, publisher: SubId): seq<Entry> {
    if id in subs then Step(overlap, cur, subs[id], id, publisher) else cur
  }

  /** All subscribers of one node. */
  function Collect(overlap: bool, acc: Publishes, subs: Subs, publisher: SubId): (r: Publishes)
    ensures NonEmpty(r)
    ensures forall id :: Get(r, id) == StepAt(overlap, Get(acc, id), subs, id, publisher)
  {
    map id | id in acc.Keys + subs.Keys && StepAt(overlap, Get(acc, id), subs, id, publisher) != []
      :: StepAt(overlap, Get(acc, id), subs, id, publisher)
  }

  /** What a subscription says, as an entry of its own. */
  function Plain(s: Params): Entry {
    Entry(s.granted, s.ops, if s.id > 0 then [s.id] else [])
  }

  /** The first entry gets the larger QoS and one more identifier, if there is one. */
  ghost predicate Merges(before: seq<Entry>, after: seq<Entry>, s: Params) {
    && |after| == |before| > 0 && after[1..] == before[1..] && after[0].ops == before[0].ops
    && after[0].qos >= before[0].qos && after[0].qos >= s.granted
    && (after[0].qos == before[0].qos || after[0].qos == s.granted)
    && after[0].ids == before[0].ids + if s.id > 0 then [s.id] else []
  }

  lemma CollectedPlain(acc: Publishes, subs: Subs, publisher: SubId)
    requires NonEmpty(acc)
    ensures var r := Collect(false, acc, subs, publisher);
            forall id ::
              if id in subs && !(subs[id].ops.noLocal && id == publisher)
              then id in r && r[id] == (if id in acc then acc[id] else []) + [Plain(subs[id])]
              else (id in r <==> id in acc) && (id in acc ==> r[id] == acc[id])
  {
    var r := Collect(false, acc, subs, publisher);
    forall id ensures Get(r, id) == StepAt(false, Get(acc, id), subs, id, publisher) {}
  }

  lemma CollectedMerged(acc: Publishes, subs: Subs, publisher: SubId)
    requires NonEmpty(acc)
    ensures var r := Collect(true, acc, subs, publisher);
            && (forall id :: id in subs && id in acc ==> id in r && Merges(acc[id], r[id], subs[id]))
            && (forall id :: id in subs && id !in acc && !(subs[id].ops.noLocal && id == publisher) ==>
                  id in r && r[id] == [Plain(subs[id])])
            && (forall id :: id !in subs || (id !in acc && subs[id].ops.noLocal && id == publisher) ==>
                  (id in r <==> id in acc) && (id in acc ==> r[id] == acc[id]))
  {
    var r := Collect(true, acc, subs, publisher);
    forall id ensures Get(r, id) == StepAt(true, Get(acc, id), subs, id, publisher) {}
  }

  /** Both collectors visit the subscribers of one node in any order. */
  method NonOverlappingSubscribers(subs: Subs, publisher: SubId, acc: Publishes) returns (r: Publishes)
    requires NonEmpty(acc)
    ensures r == Collect(false, acc, subs, publisher)
    ensures forall id :: id in subs && !(subs[id].ops.noLocal && id == publisher) ==>
              id in r && r[id] == (if id in acc then acc[id] else []) + [Plain(subs[id])]
    ensures forall id :: id !in subs || (subs[id].ops.noLocal && id == publisher) ==>
              (id in r <==> id in acc) && (id in acc ==> r[id] == acc[id])
  {
    r := acc;
    var pending := subs.Keys;
    while pending != {}
      invariant pending <= subs.Keys && NonEmpty(r)
      invariant forall k :: Get(r, k) == if k in pending then Get(acc, k)
                  else StepAt(false, Get(acc, k), subs, k, publisher)
    {
      var id :| id in pending;
      var sub := subs[id];
      if !sub.ops.noLocal || id != publisher {
        if id in r {
          r := r[id := r[id] + [Acquire(sub)]];
        } else {
          r := r[id := [Acquire(sub)]];
        }
      }
      pending := pending - {id};
    }
    SamePublishes(r, Collect(false, acc, subs, publisher));
    CollectedPlain(acc, subs, publisher);
  }

  method OverlappingSubscribers(subs: Subs, publisher: SubId, acc: Publishes) returns (r: Publishes)
    requires NonEmpty(acc)
    ensures r == Collect(true, acc, subs, publisher)
    ensures forall id :: id in subs && id in acc ==> id in r && Merges(acc[id], r[id], subs[id])
    ensures forall id :: id in subs && id !in acc && !(subs[id].ops.noLocal && id == publisher) ==>
              id in r && r[id] == [Plain(subs[id])]
    ensures forall id :: id !in subs || (id !in acc && subs[id].ops.noLocal && id == publisher) ==>
              (id in r <==> id in acc) && (id in acc ==> r[id] == acc[id])
  {
    r := acc;
    var pending := subs.Keys;
    while pending != {}
      invariant pending <= subs.Keys && NonEmpty(r)
      invariant forall k :: Get(r, k) == if k in pending then Get(acc, k)
                  else StepAt(true, Get(acc, k), subs, k, publisher)
    {
      var id :| id in pending;
      var sub := subs[id];
      if id in r {
        var first := r[id][0];
        if sub.id > 0 {
          first := first.(ids := first.ids + [sub.id]);
        }
        if first.qos < sub.granted {
          first := first.(qos := sub.granted);
        }
        MergeStep(r[id], first, sub, id, publisher);
        r := r[id := r[id][0 := first]];
      } else if !sub.ops.noLocal || id != publisher {
        r := r[id := [Acquire(sub)]];
      }
      pending := pending - {id};
    }
    SamePublishes(r, Collect(true, acc, subs, publisher));
    CollectedMerged(acc, subs, publisher);
  }

  lemma MergeStep(cur: seq<Entry>, first: Entry, s: Params, id: SubId, publisher: SubId)
    requires cur != [] && first.ops == cur[0].ops && first.ids == cur[0].ids + Identifiers(s)
    requires first.qos == if cur[0].qos < s.granted then s.granted else cur[0].qos
    ensures cur[0 := first] == Step(true, cur, s, id, publisher)
  {
    assert cur[0 := first] == [first] + cur[1..];
  }

  /** All nodes in visiting order. */
  function Gather(overlap: bool, c: Content, fs: seq<Path>, publisher: SubId, acc: Publishes): Publishes {
    if fs == [] then acc
    else Gather(overlap, c, fs[1..], publisher, Collect(overlap, acc, SubsAt(c, fs[0]), publisher))
  }

  lemma CollectNothing(overlap: bool, acc: Publishes, publisher: SubId)
    requires NonEmpty(acc)
    ensures Collect(overlap, acc, map[], publisher) == acc
  {
  }

  lemma {:induction false} GatherConcat(overlap: bool, c: Content, a: seq<Path>, b: seq<Path>, publisher: SubId,
      acc: Publishes)
    ensures Gather(overlap, c, a + b, publisher, acc)
         == Gather(overlap, c, b, publisher, Gather(overlap, c, a, publisher, acc))
  {
    if a == [] {
      assert a + b == b;
    } else {
      assert (a + b)[1..] == a[1..] + b;
      GatherConcat(overlap, c, a[1..], b, publisher, Collect(overlap, acc, SubsAt(c, a[0]), publisher));
    }
  }

  lemma {:induction false} GatherNothing(overlap: bool, c: Content, fs: seq<Path>, publisher: SubId, acc: Publishes)
    requires NonEmpty(acc)
    requires forall f :: f in fs ==> f !in c
    ensures Gather(overlap, c, fs, publisher, acc) == acc
  {
    if fs != [] {
      assert fs[0] in fs;
      CollectNothing(overlap, acc, publisher);
      GatherNothing(overlap, c, fs[1..], publisher, acc);
    }
  }

  lemma {:induction false} GatherNonEmpty(overlap: bool, c: Content, fs: seq<Path>, publisher: SubId, acc: Publishes)
    requires NonEmpty(acc)
    ensures NonEmpty(Gather(overlap, c, fs, publisher, acc))
  {
    if fs != [] {
      GatherNonEmpty(overlap, c, fs[1..], publisher, Collect(overlap, acc, SubsAt(c, fs[0]), publisher));
    }
  }

  /** The result of a whole search. */
  function Search(overlap: bool, c: Content, topic: Path, publisher: SubId): Publishes
    requires topic != []
  {
    Gather(overlap, c, TopicFilters(topic), publisher, map[])
  }

  // ---------------------------------------------------------------- one subscriber

  function GatherOne(overlap: bool, c: Content, fs: seq<Path>, publisher: SubId, id: SubId,
      cur: seq<Entry>): seq<Entry> {
    if fs == [] then cur
    else GatherOne(overlap, c, fs[1..], publisher, id, StepAt(overlap, cur, SubsAt(c, fs[0]), id, publisher))
  }

  lemma {:induction false} GatherPerSubscriber(overlap: bool, c: Content, fs: seq<Path>, publisher: SubId,
      acc: Publishes, id: SubId)
    ensures Get(Gather(overlap, c, fs, publisher, acc), id) == GatherOne(overlap, c, fs, publisher, id, Get(acc, id))
  {
    if fs != [] {
      var next := Collect(overlap, acc, SubsAt(c, fs[0]), publisher);
      GatherPerSubscriber(overlap, c, fs[1..], publisher, next, id);
      assert Get(next, id) == StepAt(overlap, Get(acc, id), SubsAt(c, fs[0]), id, publisher);
    }
  }

  /** The filters under which a subscriber is to be served, in the given order. */
  function Serving(c: Content, fs: seq<Path>, publisher: SubId, id: SubId): seq<Path> {
    if fs == [] then []
    else
      var rest := Serving(c, fs[1..], publisher, id);
      if id in SubsAt(c, fs[0]) && Visible(c[fs[0]][id], id, publisher) then [fs[0]] + rest else rest
  }

  predicate Served(c: Content, f: Path, publisher: SubId, id: SubId) {
    f in c && id in c[f] && Visible(c[f][id], id, publisher)
  }

  lemma {:induction false} ServingExact(c: Content, fs: seq<Path>, publisher: SubId, id: SubId)
    ensures forall f :: f in Serving(c, fs, publisher, id) <==> f in fs && Served(c, f, publisher, id)
    ensures NoDuplicates(fs) ==> NoDuplicates(Serving(c, fs, publisher, id))
  {
    if fs != [] {
      ServingExact(c, fs[1..], publisher, id);
      assert forall f :: f in fs <==> f == fs[0] || f in fs[1..];
      if NoDuplicates(fs) {
        assert fs[0] !in fs[1..];
        assert NoDuplicates(fs[1..]);
      }
    }
  }

  predicate AllServed(c: Content, fs: seq<Path>, publisher: SubId, id: SubId) {
    forall k :: 0 <= k < |fs| ==> Served(c, fs[k], publisher, id)
  }

  function EntriesFor(c: Content, fs: seq<Path>, publisher: SubId, id: SubId): seq<Entry>
    requires AllServed(c, fs, publisher, id)
  {
    seq(|fs|, k requires 0 <= k < |fs| => Acquire(c[fs[k]][id]))
  }

  lemma {:induction false} NonOverlappingEntries(c: Content, fs: seq<Path>, publisher: SubId, id: SubId,
      cur: seq<Entry>)
    ensures AllServed(c, Serving(c, fs, publisher, id), publisher, id)
    ensures GatherOne(false, c, fs, publisher, id, cur)
         == cur + EntriesFor(c, Serving(c, fs, publisher, id), publisher, id)
  {
    if fs != [] {
      NonOverlappingEntries(c, fs[1..], publisher, id, StepAt(false, cur, SubsAt(c, fs[0]), id, publisher));
    }
  }

  /** Non-overlapping search agrees with matching: the entries of a subscriber stand one to one, each
      exactly once, for its stored subscriptions whose filter matches and that No Local does not exclude. */
  lemma SearchAgreesWithMatching(c: Content, topic: Path, publisher: SubId, id: SubId) returns (filters: seq<Path>)
    requires topic != [] && WildcardFree(topic)
    ensures NoDuplicates(filters)
    ensures forall f :: f in filters <==>
              Matches(f, topic) && f in c && id in c[f] && !(c[f][id].ops.noLocal && id == publisher)
    ensures id != publisher ==> forall f :: f in filters <==> Matches(f, topic) && f in c && id in c[f]
    ensures AllServed(c, filters, publisher, id)
    ensures Get(Search(false, c, topic, publisher), id) == EntriesFor(c, filters, publisher, id)
    ensures var entries := Get(Search(false, c, topic, publisher), id);
            && |entries| == |filters|
            && forall k :: 0 <= k < |filters| && filters[k] in c && id in c[filters[k]] ==>
                 var s := c[filters[k]][id];
                 entries[k].qos == s.granted && entries[k].ops == s.ops && entries[k].ids == if s.id > 0
                     then [s.id] else []
  {
    var fs := TopicFilters(topic);
    filters := Serving(c, fs, publisher, id);
    TopicFiltersExact(topic);
    ServingExact(c, fs, publisher, id);
    GatherPerSubscriber(false, c, fs, publisher, map[], id);
    NonOverlappingEntries(c, fs, publisher, id, []);
    hide Search, TopicFilters, Matches, Serving, GatherOne;
  }

  /** Who is served, and who is excluded, written out: No Local excludes nobody but the publisher. */
  lemma ServedMeans(c: Content, f: Path, publisher: SubId, id: SubId)
    ensures Served(c, f, publisher, id) <==> f in c && id in c[f] && !(c[f][id].ops.noLocal && id == publisher)
    ensures Hidden(c, f, publisher, id) <==> f in c && id in c[f] && c[f][id].ops.noLocal && id == publisher
  {
  }

  // ---------------------------------------------------------------- overlapping mode

  predicate NoNoLocal(c: Content) {
    forall f, id :: f in c && id in c[f] ==> !c[f][id].ops.noLocal
  }

  /** The identifiers of a subscriber's subscriptions under the given filters, those that are not zero. */
  function AllIds(c: Content, fs: seq<Path>, id: SubId): seq<nat> {
    if fs == [] then []
    else (if id in SubsAt(c, fs[0]) then Identifiers(c[fs[0]][id]) else []) + AllIds(c, fs[1..], id)
  }

  /** They are the identifiers above zero, each as often as there is a subscription with it. */
  lemma {:induction false} AllIdsMean(c: Content, fs: seq<Path>, id: SubId, x: nat)
    ensures x in AllIds(c, fs, id) <==> x > 0 && exists f :: f in fs && f in c && id in c[f] && c[f][id].id == x
    ensures multiset(AllIds(c, fs, id))[x] == |Filter(c, fs, id, x)|
  {
    if fs != [] {
      AllIdsMean(c, fs[1..], id, x);
      assert forall f :: f in fs <==> f == fs[0] || f in fs[1..];
      if fs[0] in c && id in c[fs[0]] && c[fs[0]][id].id == x {
        assert fs[0] in fs;
      }
    }
  }

  /** The filters under which a subscriber has this identifier, which is not zero. */
  function Filter(c: Content, fs: seq<Path>, id: SubId, x: nat): seq<Path> {
    if fs == [] then []
    else (if x > 0 && fs[0] in c && id in c[fs[0]] && c[fs[0]][id].id == x then [fs[0]] else [])
         + Filter(c, fs[1..], id, x)
  }

  /** q is the largest of lo and the grants under the given filters. */
  predicate IsMaxGrant(c: Content, fs: seq<Path>, id: SubId, lo: nat, q: nat) {
    && lo <= q
    && (forall f :: f in fs && f in c && id in c[f] ==> c[f][id].granted <= q)
    && (q == lo || exists f :: f in fs && f in c && id in c[f] && c[f][id].granted == q)
  }

  lemma {:induction false} OverlappingMerge(c: Content, fs: seq<Path>, publisher: SubId, id: SubId, cur: Entry)
    ensures var r := GatherOne(true, c, fs, publisher, id, [cur]);
            |r| == 1 && r[0].ids == cur.ids + AllIds(c, fs, id) && r[0].ops == cur.ops
            && IsMaxGrant(c, fs, id, cur.qos, r[0].qos)
  {
    if fs != [] {
      var next := StepAt(true, [cur], SubsAt(c, fs[0]), id, publisher);
      assert |next| == 1 && next == [next[0]];
      OverlappingMerge(c, fs[1..], publisher, id, next[0]);
      var q := GatherOne(true, c, fs, publisher, id, [cur])[0].qos;
      assert forall f :: f in fs <==> f == fs[0] || f in fs[1..];
      if q != cur.qos && q == next[0].qos {
        assert fs[0] in fs && fs[0] in c && id in c[fs[0]] && c[fs[0]][id].granted == q;
      }
      if id in SubsAt(c, fs[0]) {
        assert c[fs[0]][id].granted <= next[0].qos;
      }
    }
  }

  /** The first filter under which the subscriber is to be served opens its entry; every later one is merged into
      it, whether No Local excludes it or not. */
  lemma {:induction false} OverlappingFirst(c: Content, fs: seq<Path>, publisher: SubId, id: SubId) returns (k: nat)
    ensures k <= |fs| && (forall i :: 0 <= i < k ==> !Served(c, fs[i], publisher, id))
    ensures k < |fs| ==> Served(c, fs[k], publisher, id)
    ensures var r := GatherOne(true, c, fs, publisher, id, []);
            if k == |fs| then r == []
            else |r| == 1 && r[0].ids == AllIds(c, fs[k..], id) && IsMaxGrant(c, fs[k..], id, 0, r[0].qos)
                 && r[0].ops == c[fs[k]][id].ops
  {
    if fs == [] {
      k := 0;
    } else if Served(c, fs[0], publisher, id) {
      k := 0;
      assert fs[0..] == fs;
      assert forall f :: f in fs <==> f == fs[0] || f in fs[1..];
      assert fs[0] in fs;
      var first := Acquire(c[fs[0]][id]);
      OverlappingMerge(c, fs[1..], publisher, id, first);
      var q := GatherOne(true, c, fs[1..], publisher, id, [first])[0].qos;
      assert StepAt(true, [], SubsAt(c, fs[0]), id, publisher) == [first];
      if q == first.qos { assert fs[0] in fs && c[fs[0]][id].granted == q; }
    } else {
      k := OverlappingFirst(c, fs[1..], publisher, id);
      assert fs[k + 1..] == fs[1..][k..];
      assert StepAt(true, [], SubsAt(c, fs[0]), id, publisher) == [];
      k := k + 1;
    }
  }

  lemma {:induction false} NoIdsBefore(c: Content, fs: seq<Path>, publisher: SubId, id: SubId, k: nat)
    requires NoNoLocal(c) && k <= |fs| && forall i :: 0 <= i < k ==> !Served(c, fs[i], publisher, id)
    ensures AllIds(c, fs, id) == AllIds(c, fs[k..], id)
  {
    if k == 0 {
      assert fs[0..] == fs;
    } else {
      assert fs[1..][k - 1..] == fs[k..];
      NoIdsBefore(c, fs[1..], publisher, id, k - 1);
    }
  }

  /** Overlapping search, with or without No Local: at most one entry per subscriber; it merges exactly the
      matching subscriptions from the first visible one on, in visiting order. */
  lemma OverlappingSearchFromFirst(c: Content, topic: Path, publisher: SubId, id: SubId)
      returns (filters: seq<Path>, k: nat)
    requires topic != [] && WildcardFree(topic)
    ensures filters == TopicFilters(topic) && NoDuplicates(filters)
    ensures forall f :: f in filters <==> Matches(f, topic)
    ensures k <= |filters| && (forall i :: 0 <= i < k ==> !Served(c, filters[i], publisher, id))
    ensures k < |filters| ==> Served(c, filters[k], publisher, id)
    ensures forall f :: Served(c, f, publisher, id) <==>
              f in c && id in c[f] && !(c[f][id].ops.noLocal && id == publisher)
    ensures var r := Get(Search(true, c, topic, publisher), id);
            if k == |filters| then r == []
            else |r| == 1 && r[0].ids == AllIds(c, filters[k..], id) && IsMaxGrant(c, filters[k..], id, 0, r[0].qos)
                 && r[0].ops == c[filters[k]][id].ops
  {
    filters := TopicFilters(topic);
    TopicFiltersExact(topic);
    GatherPerSubscriber(true, c, filters, publisher, map[], id);
    k := OverlappingFirst(c, filters, publisher, id);
  }

  /** Overlapping search without No Local: one entry per subscriber that has a matching subscription and
      none for any other; its QoS is the largest grant among them and its ids are their non-zero ids. */
  lemma OverlappingSearch(c: Content, topic: Path, publisher: SubId, id: SubId) returns (filters: seq<Path>)
    requires topic != [] && WildcardFree(topic) && NoNoLocal(c)
    ensures NoDuplicates(filters)
    ensures forall f :: f in filters <==> Matches(f, topic)
    ensures var r := Get(Search(true, c, topic, publisher), id);
            |r| <= 1
            && (r != [] <==> exists f :: Matches(f, topic) && f in c && id in c[f])
            && (r != [] ==> r[0].ids == AllIds(c, filters, id)
                            && IsMaxGrant(c, filters, id, 0, r[0].qos))
  {
    var k: nat;
    filters, k := OverlappingSearchFromFirst(c, topic, publisher, id);
    NoIdsBefore(c, filters, publisher, id, k);
    if k < |filters| {
      assert filters[k] in filters;
      forall f | f in filters && f in c && id in c[f] ensures f in filters[k..] {
        var i :| 0 <= i < |filters| && filters[i] == f;
        assert Served(c, f, publisher, id);
        assert filters[k..][i - k] == f;
      }
    }
  }

  // ---------------------------------------------------------------- No Local in overlapping mode

  /** A subscription that No Local excludes. */
  predicate Hidden(c: Content, f: Path, publisher: SubId, id: SubId) {
    f in c && id in c[f] && !Visible(c[f][id], id, publisher)
  }

  /** No subscription that is excluded has an identifier, and none grants more than some visible one. */
  predicate Harmless(c: Content, fs: seq<Path>, publisher: SubId, id: SubId) {
    forall f :: f in fs && Hidden(c, f, publisher, id) ==>
      c[f][id].id == 0 && exists g :: g in fs && Served(c, g, publisher, id) && c[f][id].granted <= c[g][id].granted
  }

  /** Leaving out the excluded subscriptions leaves the identifiers as they are exactly when none of those has one. */
  lemma {:induction false} HiddenIds(c: Content, fs: seq<Path>, publisher: SubId, id: SubId)
    ensures var visible := AllIds(c, Serving(c, fs, publisher, id), id);
            && |visible| <= |AllIds(c, fs, id)|
            && (visible == AllIds(c, fs, id) <==> |visible| == |AllIds(c, fs, id)|)
            && (visible == AllIds(c, fs, id) <==> forall f :: f in fs && Hidden(c, f, publisher, id) ==>
                c[f][id].id == 0)
  {
    if fs != [] {
      HiddenIds(c, fs[1..], publisher, id);
      assert forall f :: f in fs <==> f == fs[0] || f in fs[1..];
    }
  }

  lemma {:induction false} ServingSuffix(c: Content, fs: seq<Path>, publisher: SubId, id: SubId, k: nat)
    requires k <= |fs| && forall i :: 0 <= i < k ==> !Served(c, fs[i], publisher, id)
    ensures Serving(c, fs, publisher, id) == Serving(c, fs[k..], publisher, id)
  {
    if k == 0 {
      assert fs[0..] == fs;
    } else {
      assert fs[1..][k - 1..] == fs[k..];
      ServingSuffix(c, fs[1..], publisher, id, k - 1);
    }
  }

  /** The largest grant is that of the visible subscriptions alone exactly when no excluded one grants more. */
  lemma HiddenGrants(c: Content, fs: seq<Path>, publisher: SubId, id: SubId, q: nat)
    requires IsMaxGrant(c, fs, id, 0, q) && Serving(c, fs, publisher, id) != []
    ensures IsMaxGrant(c, Serving(c, fs, publisher, id), id, 0, q) <==>
            forall f :: f in fs && Hidden(c, f, publisher, id) ==>
              exists g :: g in fs && Served(c, g, publisher, id) && c[f][id].granted <= c[g][id].granted
  {
    var visible := Serving(c, fs, publisher, id);
    ServingExact(c, fs, publisher, id);
    var first := visible[0];
    assert first in visible;
    if IsMaxGrant(c, visible, id, 0, q) {
      var g := first;
      if q != 0 {
        g :| g in visible && g in c && id in c[g] && c[g][id].granted == q;
      }
      assert g in fs && Served(c, g, publisher, id) && q <= c[g][id].granted;
    }
    if !IsMaxGrant(c, visible, id, 0, q) {
      var f :| f in fs && f in c && id in c[f] && c[f][id].granted == q;
      assert Hidden(c, f, publisher, id);
    }
  }

  /** The merge keeps No Local: a subscriber's entry is the merge of its visible subscriptions alone, exactly when of
      those visited from the first visible one on, each that No Local excludes is harmless. */
  lemma NoLocalKept(c: Content, topic: Path, publisher: SubId, id: SubId) returns (filters: seq<Path>, k: nat)
    requires topic != [] && WildcardFree(topic)
    ensures filters == TopicFilters(topic) && k <= |filters|
    ensures forall i :: 0 <= i < k ==> !Served(c, filters[i], publisher, id)
    ensures k < |filters| ==> Served(c, filters[k], publisher, id)
    ensures var r, visible := Get(Search(true, c, topic, publisher), id), Serving(c, filters, publisher, id);
            && (r == [] <==> visible == [])
            && (r != [] ==> ((r[0].ids == AllIds(c, visible, id) && IsMaxGrant(c, visible, id, 0, r[0].qos))
                             <==> Harmless(c, filters[k..], publisher, id)))
  {
    filters, k := OverlappingSearchFromFirst(c, topic, publisher, id);
    ServingSuffix(c, filters, publisher, id, k);
    if k < |filters| {
      hide Search, AllIds, IsMaxGrant, Harmless;
      HiddenIds(c, filters[k..], publisher, id);
      FirstServes(c, filters, publisher, id, k);
      HiddenGrants(c, filters[k..], publisher, id, Get(Search(true, c, topic, publisher), id)[0].qos);
      HarmlessParts(c, filters[k..], publisher, id);
    }
  }

  lemma FirstServes(c: Content, fs: seq<Path>, publisher: SubId, id: SubId, k: nat)
    requires k < |fs| && Served(c, fs[k], publisher, id)
    ensures Serving(c, fs[k..], publisher, id) != []
  {
  }

  lemma HarmlessParts(c: Content, fs: seq<Path>, publisher: SubId, id: SubId)
    ensures Harmless(c, fs, publisher, id) <==>
            && (forall f :: f in fs && Hidden(c, f, publisher, id) ==> c[f][id].id == 0)
            && (forall f :: f in fs && Hidden(c, f, publisher, id) ==>
                  exists g :: g in fs && Served(c, g, publisher, id) && c[f][id].granted <= c[g][id].granted)
  {
  }

  /** No Local is not kept by the merge: a client that publishes to "a" and holds "a" with QoS 0 and "+" with
      No Local and QoS 2 is sent its own message with QoS 2. */
  lemma MergeIgnoresNoLocal(c: Content)
    requires c.Keys == {["a"], ["+"]}
    requires c[["a"]] == map[1 := Params(0, Options(0, false, false), 0)]
    requires c[["+"]] == map[1 := Params(2, Options(2, true, false), 0)]
    ensures !Visible(c[["+"]][1], 1, 1)
    ensures var r := Get(Search(true, c, ["a"], 1), 1); |r| == 1 && r[0].qos == 2
  {
    var filters, k := OverlappingSearchFromFirst(c, ["a"], 1, 1);
    VisitedForA();
    assert ["+"] in filters[k..] by {
      assert filters[1] == ["a"] && filters[3] == ["+"];
      assert Served(c, filters[1], 1, 1);
      assert filters[k..][3 - k] == ["+"];
    }
    assert k < |filters|;
  }

  lemma VisitedForA()
    ensures TopicFilters(["a"]) == [["#"], ["a"], ["a", "#"], ["+"], ["+", "#"]]
  {
    assert ["a"][1..] == [];
    var below: seq<Path> := [[], ["#"]];
    assert Filters([]) == below;
    UnderTwo("a");
    UnderTwo("+");
  }

  lemma UnderTwo(l: Level)
    ensures Under(l, [[], ["#"]]) == [[l], [l, "#"]]
  {
    var below: seq<Path> := [[], ["#"]];
    assert below[0] == [] && below[1] == ["#"];
    assert Under(l, below)[0] == [l] + [] == [l];
    assert Under(l, below)[1] == [l] + ["#"] == [l, "#"];
  }
}
