/** The outbound side of one connection joined to the inbound side of another by two FIFO channels.
    `popped` records what has left the queue, with whether it had expired by then and was not written. */
module QosSystem {
  import opened Options
  import opened FlowControl
  import opened Qos
  import opened Sequences

  datatype Popped = Popped(item: Item, expired: bool)

  datatype System = System(
    a: Sender,
    aOut: seq<Packet>,     // answers of the sender side, waiting in its generic queue
    ab: seq<Packet>,       // channel to the receiver
    b: Receiver,
    bOut: seq<Packet>,     // answers of the receiver side, waiting in its generic queue
    ba: seq<Packet>,       // channel to the sender
    submitted: seq<Item>,
    popped: seq<Popped>,
    leaked: multiset<nat>) // identifiers taken for expired publishes

  ghost predicate Init(s: System, q: int, r: int) {
    && 0 <= q <= MAX_ID && q <= r
    && s == System(Sender([], q, 0, {}, map[]), [], [], Receiver(r, map[], []), [], [], [], [], multiset{})
  }

  // ---------------------------------------------------------------- steps

  ghost predicate Submit(s: System, t: System, item: Item) {
    t == s.(a := s.a.(queue := s.a.queue + [item]), submitted := s.submitted + [item])
  }

  ghost predicate PopLive(s: System, t: System, id: nat) {
    && Pop(s.a, t.a, id)
    && t == s.(a := t.a, ab := s.ab + [Publish(id, s.a.queue[0])], popped := s.popped + [Popped(s.a.queue[0], false)])
  }

  /** The routine skips an expired publish after it has taken an identifier for it. */
  ghost predicate PopExpired(s: System, t: System, id: nat) {
    && Pop(s.a, t.a, id)
    && t == s.(a := t.a, popped := s.popped + [Popped(s.a.queue[0], true)], leaked := s.leaked + multiset{id})
  }

  ghost predicate FlushA(s: System, t: System) {
    s.aOut != [] && t == s.(aOut := s.aOut[1..], ab := s.ab + [s.aOut[0]])
  }

  ghost predicate FlushB(s: System, t: System) {
    s.bOut != [] && t == s.(bOut := s.bOut[1..], ba := s.ba + [s.bOut[0]])
  }

  /** The receiver handles the next packet; a refused publish would close the connection. */
  ghost predicate DeliverB(s: System, t: System) {
    && s.ab != []
    && match s.ab[0]
       case Publish(id, item) =>
         var (b, reply) := ReceivePublish(s.b, id, item);
         reply.Reply? && t == s.(ab := s.ab[1..], b := b, bOut := s.bOut + [reply.packet])
       case PubRel(id) =>
         var (b, reply) := ReceiveRelease(s.b, id);
         t == s.(ab := s.ab[1..], b := b, bOut := s.bOut + [reply])
       case _ => false
  }

  ghost predicate DeliverA(s: System, t: System) {
    && s.ba != []
    && var (a, reply) := Acknowledge(s.a, s.ba[0]);
       t == s.(ba := s.ba[1..], a := a, aOut := s.aOut + (if reply.Some? then [reply.value] else []))
  }

  /** Every step but the submission of a new message. */
  ghost predicate Work(s: System, t: System) {
    || (exists id :: PopLive(s, t, id))
    || (exists id :: PopExpired(s, t, id))
    || FlushA(s, t) || FlushB(s, t) || DeliverA(s, t) || DeliverB(s, t)
  }

  ghost predicate Next(s: System, t: System) {
    (exists item :: Submit(s, t, item)) || Work(s, t)
  }

  // ---------------------------------------------------------------- what is under way

  /** Identifiers of the packets of a channel, by kind. */
  function ToB(ps: seq<Packet>): multiset<nat> {
    multiset(Flatten((p: Packet) => if p.Publish? || p.PubRel? then [p.id] else [], ps))
  }

  function ToA(ps: seq<Packet>): multiset<nat> {
    multiset(Flatten((p: Packet) => if p.PubAck? || p.PubRec? || p.PubComp? then [p.id] else [], ps))
  }

  function Rels(ps: seq<Packet>): seq<nat> {
    Flatten((p: Packet) => if p.PubRel? then [p.id] else [], ps)
  }

  function Recs(ps: seq<Packet>): seq<nat> {
    Flatten((p: Packet) => if p.PubRec? then [p.id] else [], ps)
  }

  predicate OnlyToB(ps: seq<Packet>) {
    forall k :: 0 <= k < |ps| ==> ps[k].Publish? || ps[k].PubRel?
  }

  predicate OnlyToA(ps: seq<Packet>) {
    forall k :: 0 <= k < |ps| ==> ps[k].PubAck? || ps[k].PubComp? || (ps[k].PubRec? && !ps[k].failed)
  }

  /** Permitted messages of one level among publishes, items, and popped items that were written. */
  function Keep(level: Level, item: Item): seq<Item> {
    if item.qos == level && item.msg.permitted then [item] else []
  }

  function InChannel(level: Level, ps: seq<Packet>): seq<Item> {
    Flatten((p: Packet) => if p.Publish? then Keep(level, p.item) else [], ps)
  }

  function Of(level: Level, items: seq<Item>): seq<Item> {
    Flatten((item: Item) => Keep(level, item), items)
  }

  function Written(level: Level, ps: seq<Popped>): seq<Item> {
    Flatten((p: Popped) => if p.expired then [] else Keep(level, p.item), ps)
  }

  function ItemsOf(ps: seq<Popped>): seq<Item> {
    Flatten((p: Popped) => [p.item], ps)
  }

  /** The stored messages under the given identifiers, in that order. */
  function StoredFor(pubIn: map<nat, Message>, ids: seq<nat>): seq<Item> {
    Flatten((id: nat) => if id in pubIn then [Item(QoS2, pubIn[id])] else [], ids)
  }

  /** Identifiers whose message the receiver may hold: a PUBREL on its way is due before a PUBREC that has
      not been answered yet. */
  function Held(s: System): seq<nat> {
    Rels(s.ab) + Rels(s.aOut) + Recs(s.ba) + Recs(s.bOut)
  }

  // ---------------------------------------------------------------- invariant

  ghost predicate Books(s: System, q: int) {
    && Conserved(s.a, q)
    && OnlyToB(s.ab) && OnlyToB(s.aOut) && (forall k :: 0 <= k < |s.aOut| ==> s.aOut[k].PubRel?)
    && OnlyToA(s.ba) && OnlyToA(s.bOut)
    && multiset(s.a.inUse) == ToB(s.ab) + ToB(s.aOut) + ToA(s.ba) + ToA(s.bOut) + s.leaked
  }

  ghost predicate Receiving(s: System, r: int) {
    && s.b.rxQuota == r - |Held(s)|
    && (forall id :: id in s.b.pubIn ==> id in Held(s) && s.b.pubIn[id].permitted)
  }

  /** In order: what has been delivered, what the receiver holds in the order of its release, what is in the
      channel. */
  ghost predicate Ordered(s: System) {
    && Of(QoS2, s.b.delivered) + StoredFor(s.b.pubIn, Held(s)) + InChannel(QoS2, s.ab) == Written(QoS2, s.popped)
    && Of(QoS1, s.b.delivered) + InChannel(QoS1, s.ab) == Written(QoS1, s.popped)
    && ItemsOf(s.popped) + s.a.queue == s.submitted
  }

  ghost predicate Inv(s: System, q: int, r: int) {
    q <= r && Books(s, q) && Receiving(s, r) && Ordered(s)
  }

  // ---------------------------------------------------------------- appending and removing

  /** Everything listed for a packet is the concatenation of what each packet contributes. */
  lemma AppendIds(ps: seq<Packet>, p: Packet)
    ensures ToB(ps + [p]) == ToB(ps) + (if p.Publish? || p.PubRel? then multiset{p.id} else multiset{})
    ensures ToA(ps + [p]) == ToA(ps) + (if p.PubAck? || p.PubRec? || p.PubComp? then multiset{p.id} else multiset{})
  {
    hide Flatten;
    var b := (p: Packet) => if p.Publish? || p.PubRel? then [p.id] else [];
    var a := (p: Packet) => if p.PubAck? || p.PubRec? || p.PubComp? then [p.id] else [];
    FlattenConcat(b, ps, [p]);
    FlattenConcat(a, ps, [p]);
    FlattenOne(b, p);
    FlattenOne(a, p);
  }

  lemma AppendRels(ps: seq<Packet>, p: Packet)
    ensures Rels(ps + [p]) == Rels(ps) + (if p.PubRel? then [p.id] else [])
  {
    hide Flatten;
    var f := (p: Packet) => if p.PubRel? then [p.id] else [];
    FlattenConcat(f, ps, [p]);
    FlattenOne(f, p);
  }

  lemma AppendRecs(ps: seq<Packet>, p: Packet)
    ensures Recs(ps + [p]) == Recs(ps) + (if p.PubRec? then [p.id] else [])
  {
    hide Flatten;
    var f := (p: Packet) => if p.PubRec? then [p.id] else [];
    FlattenConcat(f, ps, [p]);
    FlattenOne(f, p);
  }

  lemma AppendChannel(l: Level, ps: seq<Packet>, p: Packet)
    ensures InChannel(l, ps + [p]) == InChannel(l, ps) + (if p.Publish? then Keep(l, p.item) else [])
  {
    hide Flatten;
    var f := (p: Packet) => if p.Publish? then Keep(l, p.item) else [];
    FlattenConcat(f, ps, [p]);
    FlattenOne(f, p);
  }

  lemma AppendPopped(l: Level, ps: seq<Popped>, p: Popped)
    ensures Written(l, ps + [p]) == Written(l, ps) + (if p.expired then [] else Keep(l, p.item))
    ensures ItemsOf(ps + [p]) == ItemsOf(ps) + [p.item]
  {
    hide Flatten;
    var f := (p: Popped) => if p.expired then [] else Keep(l, p.item);
    var g := (p: Popped) => [p.item];
    FlattenConcat(f, ps, [p]);
    FlattenOne(f, p);
    FlattenConcat(g, ps, [p]);
    FlattenOne(g, p);
  }

  lemma AppendItem(l: Level, items: seq<Item>, item: Item)
    ensures Of(l, items + [item]) == Of(l, items) + Keep(l, item)
  {
    hide Flatten;
    var f := (item: Item) => Keep(l, item);
    FlattenConcat(f, items, [item]);
    FlattenOne(f, item);
  }

  lemma StoredForConcat(pubIn: map<nat, Message>, a: seq<nat>, b: seq<nat>)
    ensures StoredFor(pubIn, a + b) == StoredFor(pubIn, a) + StoredFor(pubIn, b)
  {
    FlattenConcat((id: nat) => if id in pubIn then [Item(QoS2, pubIn[id])] else [], a, b);
  }

  lemma StoredForSame(m: map<nat, Message>, n: map<nat, Message>, ids: seq<nat>)
    requires forall id :: id in ids ==> (id in m <==> id in n) && (id in m ==> m[id] == n[id])
    ensures StoredFor(m, ids) == StoredFor(n, ids)
  {
    FlattenSame((id: nat) => if id in m then [Item(QoS2, m[id])] else [], (id: nat) => if id in n
        then [Item(QoS2, n[id])] else [], ids);
  }

  /** The first packet of a channel. */
  lemma Head(ps: seq<Packet>)
    requires ps != []
    ensures ToB(ps) == (if ps[0].Publish? || ps[0].PubRel? then multiset{ps[0].id} else multiset{}) + ToB(ps[1..])
    ensures ToA(ps) == (if ps[0].PubAck? || ps[0].PubRec? || ps[0].PubComp? then multiset{ps[0].id} else multiset{})
              + ToA(ps[1..])
    ensures Rels(ps) == (if ps[0].PubRel? then [ps[0].id] else []) + Rels(ps[1..])
    ensures Recs(ps) == (if ps[0].PubRec? then [ps[0].id] else []) + Recs(ps[1..])
  {
  }

  lemma HeadChannel(l: Level, ps: seq<Packet>)
    requires ps != []
    ensures InChannel(l, ps) == (if ps[0].Publish? then Keep(l, ps[0].item) else []) + InChannel(l, ps[1..])
  {
  }

  lemma {:induction false} KindsWithin(ps: seq<Packet>)
    ensures multiset(Rels(ps)) <= ToB(ps) && multiset(Recs(ps)) <= ToA(ps)
  {
    if ps == [] {
      assert Rels(ps) == [] && Recs(ps) == [];
    } else {
      hide ToB, ToA, Rels, Recs;
      Head(ps);
      KindsWithin(ps[1..]);
    }
  }

  lemma DistinctFromSet(ids: seq<nat>, inUse: set<nat>)
    requires multiset(ids) <= multiset(inUse)
    ensures forall i, j :: 0 <= i < j < |ids| ==> ids[i] != ids[j]
  {
    forall i, j | 0 <= i < j < |ids| ensures ids[i] != ids[j] {
      assert ids == ids[..i] + [ids[i]] + ids[i + 1..j] + [ids[j]] + ids[j + 1..];
      assert multiset(ids) == multiset(ids[..i]) + multiset{ids[i]} + multiset(ids[i + 1..j]) + multiset{ids[j]}
               + multiset(ids[j + 1..]);
      assert multiset(inUse)[ids[i]] <= 1;
    }
  }

  lemma SizeWithin(a: multiset<nat>, b: multiset<nat>)
    requires a <= b
    ensures |a| <= |b|
  {
    assert b == a + (b - a);
  }

  /** The identifiers held, and that of a publish about to arrive, are distinct and in use. */
  lemma HeldDistinct(s: System, q: int)
    requires Books(s, q)
    ensures multiset(Held(s)) <= multiset(s.a.inUse)
    ensures s.ab != [] && s.ab[0].Publish? ==> multiset(Held(s)) + multiset{s.ab[0].id} <= multiset(s.a.inUse)
    ensures forall i, j :: 0 <= i < j < |Held(s)| ==> Held(s)[i] != Held(s)[j]
  {
    hide Conserved, ToB, ToA, Rels, Recs;
    KindsWithin(s.ab);
    KindsWithin(s.aOut);
    KindsWithin(s.ba);
    KindsWithin(s.bOut);
    assert multiset(Held(s))
             == multiset(Rels(s.ab)) + multiset(Rels(s.aOut)) + multiset(Recs(s.ba)) + multiset(Recs(s.bOut));
    if s.ab != [] && s.ab[0].Publish? {
      Head(s.ab);
      KindsWithin(s.ab[1..]);
    }
    DistinctFromSet(Held(s), s.a.inUse);
  }

  lemma InUseByBooks(s: System, q: int, id: nat)
    requires Books(s, q) && id in ToB(s.ab) + ToB(s.aOut) + ToA(s.ba) + ToA(s.bOut)
    ensures id in s.a.inUse && id in s.a.pubOut
  {
    assert id in multiset(s.a.inUse);
  }

  // ---------------------------------------------------------------- the steps keep the invariant

  lemma SubmitKeeps(s: System, t: System, item: Item, q: int, r: int)
    requires Inv(s, q, r) && Submit(s, t, item)
    ensures Inv(t, q, r)
  {
    hide ToB, ToA, Rels, Recs, InChannel, Of, Written, ItemsOf, StoredFor;
    assert Held(t) == Held(s);
    assert ItemsOf(s.popped) + (s.a.queue + [item]) == s.submitted + [item];
  }

  lemma PopKeepsBooks(s: System, t: System, id: nat, q: int)
    requires Books(s, q) && (PopLive(s, t, id) || PopExpired(s, t, id))
    ensures Books(t, q)
  {
    hide FirstFree, ToB, ToA;
    PopConserves(s.a, t.a, id, q);
    AppendIds(s.ab, Publish(id, s.a.queue[0]));
    assert multiset(t.a.inUse) == multiset(s.a.inUse) + multiset{id};
  }

  lemma PopKeepsReceiving(s: System, t: System, id: nat, r: int)
    requires Receiving(s, r) && (PopLive(s, t, id) || PopExpired(s, t, id))
    ensures Held(t) == Held(s) && Receiving(t, r)
  {
    hide FirstFree, Rels, Recs;
    AppendRels(s.ab, Publish(id, s.a.queue[0]));
  }

  lemma PopKeepsOrdered(s: System, t: System, id: nat)
    requires Ordered(s) && Held(t) == Held(s) && (PopLive(s, t, id) || PopExpired(s, t, id))
    ensures Ordered(t)
  {
    hide FirstFree, Held, InChannel, Of, Written, ItemsOf, StoredFor, Keep;
    var item := s.a.queue[0];
    forall l ensures InChannel(l, t.ab) == InChannel(l, s.ab) + (if PopExpired(s, t, id) then [] else Keep(l, item))
      ensures Written(l, t.popped) == Written(l, s.popped) + (if PopExpired(s, t, id) then [] else Keep(l, item))
      ensures ItemsOf(t.popped) == ItemsOf(s.popped) + [item] {
      AppendChannel(l, s.ab, Publish(id, item));
      AppendPopped(l, s.popped, Popped(item, PopExpired(s, t, id)));
    }
    assert s.a.queue == [item] + t.a.queue;
  }

  lemma PopKeeps(s: System, t: System, id: nat, q: int, r: int)
    requires Inv(s, q, r) && (PopLive(s, t, id) || PopExpired(s, t, id))
    ensures Inv(t, q, r)
  {
    hide Books, Receiving, Ordered;
    PopKeepsBooks(s, t, id, q);
    PopKeepsReceiving(s, t, id, r);
    PopKeepsOrdered(s, t, id);
  }

  lemma FlushKeeps(s: System, t: System, q: int, r: int)
    requires Inv(s, q, r) && (FlushA(s, t) || FlushB(s, t))
    ensures Inv(t, q, r)
  {
    hide Conserved, ToB, ToA, Rels, Recs, InChannel, Of, Written, ItemsOf, StoredFor, Keep;
    if FlushA(s, t) {
      var p := s.aOut[0];
      AppendIds(s.ab, p);
      AppendRels(s.ab, p);
      AppendChannel(QoS1, s.ab, p);
      AppendChannel(QoS2, s.ab, p);
      Head(s.aOut);
    } else {
      AppendIds(s.ba, s.bOut[0]);
      AppendRecs(s.ba, s.bOut[0]);
      Head(s.bOut);
    }
    assert Held(t) == Held(s);
  }

  lemma DeliverAKeepsBooks(s: System, t: System, q: int)
    requires Books(s, q) && DeliverA(s, t)
    ensures Books(t, q)
  {
    hide Conserved, ToB, ToA;
    var p := s.ba[0];
    Head(s.ba);
    InUseByBooks(s, q, p.id);
    AcknowledgeConserves(s.a, p, q);
    if p.PubRec? {
      AppendIds(s.aOut, PubRel(p.id));
    } else {
      assert t.a.inUse == s.a.inUse - {p.id};
      assert multiset(t.a.inUse) == multiset(s.a.inUse) - multiset{p.id};
      assert t.aOut == s.aOut;
    }
  }

  lemma DeliverAKeepsHeld(s: System, t: System)
    requires OnlyToA(s.ba) && DeliverA(s, t)
    ensures Held(t) == Held(s)
  {
    hide Rels, Recs;
    Head(s.ba);
    if s.ba[0].PubRec? {
      AppendRels(s.aOut, PubRel(s.ba[0].id));
    } else {
      assert t.aOut == s.aOut;
    }
  }

  lemma DeliverAKeeps(s: System, t: System, q: int, r: int)
    requires Inv(s, q, r) && DeliverA(s, t)
    ensures Inv(t, q, r)
  {
    hide Held, ToB, ToA, InChannel, Of, Written, ItemsOf, StoredFor;
    DeliverAKeepsBooks(s, t, q);
    DeliverAKeepsHeld(s, t);
  }

  /** The receive quota is never used up when a PUBLISH arrives. */
  lemma QuotaLeft(s: System, q: int, r: int)
    requires Inv(s, q, r) && s.ab != [] && s.ab[0].Publish?
    ensures s.b.rxQuota > 0
  {
    HeldDistinct(s, q);
    SizeWithin(multiset(Held(s)) + multiset{s.ab[0].id}, multiset(s.a.inUse));
    assert |multiset(s.a.inUse)| == |s.a.inUse|;
    assert |multiset(Held(s))| == |Held(s)|;
  }

  lemma DeliverBKeepsBooks(s: System, t: System, q: int)
    requires Books(s, q) && DeliverB(s, t)
    ensures Books(t, q)
  {
    hide Conserved, ToB, ToA;
    Head(s.ab);
    AppendIds(s.bOut, t.bOut[|s.bOut|]);
  }

  lemma DeliverBHeld(s: System, t: System)
    requires DeliverB(s, t)
    ensures s.ab[0].PubRel? ==> Held(s) == [s.ab[0].id] + Held(t)
    ensures s.ab[0].Publish? ==> Held(t) == Held(s) + (if s.ab[0].item.qos == QoS2 then [s.ab[0].id] else [])
  {
    hide Rels, Recs;
    Head(s.ab);
    AppendRecs(s.bOut, t.bOut[|s.bOut|]);
  }

  lemma DeliverBPublish1(s: System, t: System, q: int, r: int)
    requires Inv(s, q, r) && DeliverB(s, t) && s.ab[0].Publish? && s.ab[0].item.qos == QoS1
    ensures Receiving(t, r) && Ordered(t)
  {
    hide Held, Books, InChannel, Of, Written, ItemsOf, StoredFor;
    DeliverBHeld(s, t);
    var item := s.ab[0].item;
    HeadChannel(QoS1, s.ab);
    HeadChannel(QoS2, s.ab);
    AppendItem(QoS1, s.b.delivered, item);
    AppendItem(QoS2, s.b.delivered, item);
    assert Of(QoS1, t.b.delivered) == Of(QoS1, s.b.delivered) + Keep(QoS1, item);
    assert Of(QoS2, t.b.delivered) == Of(QoS2, s.b.delivered);
    assert Held(t) == Held(s);
    assert InChannel(QoS2, s.ab) == InChannel(QoS2, t.ab);
    assert Of(QoS1, t.b.delivered) + InChannel(QoS1, t.ab) == Of(QoS1, s.b.delivered) + InChannel(QoS1, s.ab);
  }

  lemma DeliverBPublish2(s: System, t: System, q: int, r: int)
    requires Inv(s, q, r) && DeliverB(s, t) && s.ab[0].Publish? && s.ab[0].item.qos == QoS2
    ensures Receiving(t, r) && Ordered(t)
  {
    hide Held, Conserved, ToB, ToA, InChannel, Of, Written, ItemsOf, StoredFor;
    DeliverBHeld(s, t);
    var id, item := s.ab[0].id, s.ab[0].item;
    HeadChannel(QoS1, s.ab);
    HeadChannel(QoS2, s.ab);
    HeldDistinct(s, q);
    assert id !in multiset(Held(s)) by {
      assert multiset(s.a.inUse)[id] <= 1;
    }
    StoredForSame(s.b.pubIn, t.b.pubIn, Held(s));
    StoredForConcat(t.b.pubIn, Held(s), [id]);
    StoredForOne(t.b.pubIn, id);
    assert StoredFor(t.b.pubIn, Held(t)) == StoredFor(s.b.pubIn, Held(s)) + Keep(QoS2, item);
  }

  lemma StoredForOne(pubIn: map<nat, Message>, id: nat)
    ensures StoredFor(pubIn, [id]) == if id in pubIn then [Item(QoS2, pubIn[id])] else []
  {
    FlattenOne((id: nat) => if id in pubIn then [Item(QoS2, pubIn[id])] else [], id);
  }

  lemma ReleaseDistinct(s: System, t: System, q: int)
    requires Books(s, q) && DeliverB(s, t) && s.ab[0].PubRel?
    ensures s.ab[0].id !in Held(t)
  {
    hide Held, Books;
    DeliverBHeld(s, t);
    HeldDistinct(s, q);
    assert Held(s)[0] == s.ab[0].id;
    assert forall k :: 0 <= k < |Held(t)| ==> Held(s)[k + 1] == Held(t)[k];
  }

  lemma DeliverBRelease(s: System, t: System, q: int, r: int)
    requires Inv(s, q, r) && DeliverB(s, t) && s.ab[0].PubRel?
    ensures Receiving(t, r) && Ordered(t)
  {
    hide Held, Books, InChannel, Of, Written, ItemsOf, StoredFor;
    DeliverBHeld(s, t);
    ReleaseDistinct(s, t, q);
    var id := s.ab[0].id;
    HeadChannel(QoS1, s.ab);
    HeadChannel(QoS2, s.ab);
    StoredForConcat(s.b.pubIn, [id], Held(t));
    StoredForOne(s.b.pubIn, id);
    StoredForSame(s.b.pubIn, t.b.pubIn, Held(t));
    if id in s.b.pubIn {
      var item := Item(QoS2, s.b.pubIn[id]);
      AppendItem(QoS1, s.b.delivered, item);
      AppendItem(QoS2, s.b.delivered, item);
      assert Of(QoS1, t.b.delivered) == Of(QoS1, s.b.delivered);
      assert Of(QoS2, t.b.delivered) == Of(QoS2, s.b.delivered) + [item];
    }
  }

  lemma DeliverBKeeps(s: System, t: System, q: int, r: int)
    requires Inv(s, q, r) && DeliverB(s, t)
    ensures Inv(t, q, r)
  {
    hide Books, Receiving, Ordered;
    DeliverBKeepsBooks(s, t, q);
    if s.ab[0].PubRel? {
      DeliverBRelease(s, t, q, r);
    } else if s.ab[0].item.qos == QoS1 {
      DeliverBPublish1(s, t, q, r);
    } else {
      DeliverBPublish2(s, t, q, r);
    }
  }

  // ---------------------------------------------------------------- whole runs

  lemma InitInv(s: System, q: int, r: int)
    requires Init(s, q, r)
    ensures Inv(s, q, r)
  {
    assert ToB([]) == multiset{} && ToA([]) == multiset{} && Rels([]) == [] && Recs([]) == [];
  }

  lemma NextKeeps(s: System, t: System, q: int, r: int)
    requires Inv(s, q, r) && Next(s, t)
    ensures Inv(t, q, r)
  {
    hide Inv, Submit, PopLive, PopExpired, FlushA, FlushB, DeliverA, DeliverB;
    if item :| Submit(s, t, item) {
      SubmitKeeps(s, t, item, q, r);
    } else if id :| PopLive(s, t, id) || PopExpired(s, t, id) {
      PopKeeps(s, t, id, q, r);
    } else if FlushA(s, t) || FlushB(s, t) {
      FlushKeeps(s, t, q, r);
    } else if DeliverA(s, t) {
      DeliverAKeeps(s, t, q, r);
    } else {
      DeliverBKeeps(s, t, q, r);
    }
  }

  ghost predicate Run(run: seq<System>, q: int, r: int) {
    && run != [] && Init(run[0], q, r)
    && forall k :: 0 <= k < |run| - 1 ==> Next(run[k], run[k + 1])
  }

  lemma {:induction false} InvAlways(run: seq<System>, k: nat, q: int, r: int)
    requires Run(run, q, r) && k < |run|
    ensures Inv(run[k], q, r)
  {
    hide Inv, Init, Next;
    if k == 0 {
      InitInv(run[0], q, r);
    } else {
      InvAlways(run, k - 1, q, r);
      NextKeeps(run[k - 1], run[k], q, r);
    }
  }

  /** At most once, and in order: in every state of every run what has been delivered at either level is a
      prefix of the permitted messages that were written, and these left the queue in the order of submission. */
  lemma AtMostOnce(run: seq<System>, k: nat, q: int, r: int)
    requires Run(run, q, r) && k < |run|
    ensures var s := run[k];
      && Of(QoS2, s.b.delivered) <= Written(QoS2, s.popped)
      && Of(QoS1, s.b.delivered) <= Written(QoS1, s.popped)
      && ItemsOf(s.popped) <= s.submitted
  {
    hide Run, Books, Receiving, Of, Written, ItemsOf, InChannel, StoredFor;
    InvAlways(run, k, q, r);
  }

  /** The receive quota is never used up when a PUBLISH arrives, so no packet is ever refused. */
  lemma NeverRefused(run: seq<System>, k: nat, q: int, r: int)
    requires Run(run, q, r) && k < |run|
    ensures run[k].ab != [] && run[k].ab[0].Publish? ==> run[k].b.rxQuota > 0
    ensures run[k].ab != [] ==> exists t :: DeliverB(run[k], t)
  {
    hide Run;
    InvAlways(run, k, q, r);
    if run[k].ab != [] {
      var t := Delivered(run[k], q, r);
    }
  }

  lemma Delivered(s: System, q: int, r: int) returns (t: System)
    requires Inv(s, q, r) && s.ab != []
    ensures s.ab[0].Publish? ==> s.b.rxQuota > 0
    ensures DeliverB(s, t)
  {
    hide Conserved, Receiving, Ordered, ToB, ToA;
    if s.ab[0].Publish? {
      QuotaLeft(s, q, r);
      var (b, reply) := ReceivePublish(s.b, s.ab[0].id, s.ab[0].item);
      t := s.(ab := s.ab[1..], b := b, bOut := s.bOut + [reply.packet]);
    } else {
      assert s.ab[0].PubRel?;
      var (b, reply) := ReceiveRelease(s.b, s.ab[0].id);
      t := s.(ab := s.ab[1..], b := b, bOut := s.bOut + [reply]);
    }
  }

  // ---------------------------------------------------------------- draining

  function Sum<A>(f: A -> nat, s: seq<A>): nat {
    if s == [] then 0 else f(s[0]) + Sum(f, s[1..])
  }

  lemma {:induction false} SumAppend<A>(f: A -> nat, s: seq<A>, x: A)
    ensures Sum(f, s + [x]) == Sum(f, s) + f(x)
  {
    if s == [] {
      assert s + [x] == [x];
    } else {
      assert (s + [x])[1..] == s[1..] + [x];
      SumAppend(f, s[1..], x);
    }
  }

  /** Steps a packet still needs, by where it is. */
  function AtB(p: Packet): nat { if p.Publish? then 8 else 4 }
  function LeavingB(p: Packet): nat { if p.PubRec? then 7 else 3 }
  function AtA(p: Packet): nat { if p.PubRec? then 6 else 2 }
  function LeavingA(p: Packet): nat { 5 }

  function Left(s: System): nat {
    9 * |s.a.queue| + Sum(AtB, s.ab) + Sum(LeavingB, s.bOut) + Sum(AtA, s.ba) + Sum(LeavingA, s.aOut)
  }

  /** Every step that is not a submission brings the system closer to rest. */
  lemma WorkEnds(s: System, t: System, q: int, r: int)
    requires Inv(s, q, r) && Work(s, t)
    ensures Left(t) < Left(s)
  {
    hide Conserved, FirstFree, Receiving, Ordered, ToB, ToA;
    if id :| PopLive(s, t, id) || PopExpired(s, t, id) {
      SumAppend(AtB, s.ab, Publish(id, s.a.queue[0]));
    } else if FlushA(s, t) {
      SumAppend(AtB, s.ab, s.aOut[0]);
    } else if FlushB(s, t) {
      SumAppend(AtA, s.ba, s.bOut[0]);
    } else if DeliverA(s, t) {
      if s.ba[0].PubRec? {
        SumAppend(LeavingA, s.aOut, PubRel(s.ba[0].id));
      } else {
        assert t.aOut == s.aOut;
      }
    } else {
      SumAppend(LeavingB, s.bOut, t.bOut[|s.bOut|]);
    }
  }

  ghost predicate Idle(s: System) {
    s.ab == [] && s.ba == [] && s.aOut == [] && s.bOut == []
  }

  lemma NotIdle(s: System, q: int, r: int) returns (t: System)
    requires Inv(s, q, r) && !Idle(s)
    ensures Work(s, t)
  {
    hide Inv, Acknowledge;
    if s.ab != [] {
      t := Delivered(s, q, r);
    } else if s.ba != [] {
      var (a, reply) := Acknowledge(s.a, s.ba[0]);
      t := s.(ba := s.ba[1..], a := a, aOut := s.aOut + (if reply.Some? then [reply.value] else []));
      assert DeliverA(s, t);
    } else if s.aOut != [] {
      t := s.(aOut := s.aOut[1..], ab := s.ab + [s.aOut[0]]);
      assert FlushA(s, t);
    } else {
      t := s.(bOut := s.bOut[1..], ba := s.ba + [s.bOut[0]]);
      assert FlushB(s, t);
    }
  }

  lemma CanPop(s: System, q: int) returns (t: System)
    requires Books(s, q) && s.a.queue != [] && s.a.quota > 0
    ensures Work(s, t)
  {
    hide Pop, ToB, ToA;
    var a, id := PopEnabled(s.a, q);
    t := s.(a := a, ab := s.ab + [Publish(id, s.a.queue[0])], popped := s.popped + [Popped(s.a.queue[0], false)]);
    assert PopLive(s, t, id);
  }

  ghost predicate Drained(s: System) {
    forall t :: !Work(s, t)
  }

  /** Exactly when the system is at rest: nothing is under way, and either nothing waits or every identifier
      has been lost to an expired publish. */
  lemma AtRest(s: System, q: int, r: int)
    requires Inv(s, q, r)
    ensures Drained(s) <==> Idle(s) && (s.a.queue == [] || |s.leaked| == q)
  {
    hide Conserved, Receiving, Ordered, ToB, ToA;
    if !Idle(s) {
      var t := NotIdle(s, q, r);
    } else {
      IdleBooks(s, q);
      if s.a.queue != [] && |s.leaked| != q {
        var t := CanPop(s, q);
      }
    }
  }

  lemma IdleBooks(s: System, q: int)
    requires Books(s, q) && Idle(s)
    ensures multiset(s.a.inUse) == s.leaked && s.a.quota + |s.leaked| == q && 0 <= s.a.quota
  {
  }

  lemma DeliveredAll(s: System, q: int, r: int)
    requires Inv(s, q, r) && Drained(s)
    ensures Of(QoS2, s.b.delivered) == Written(QoS2, s.popped)
    ensures Of(QoS1, s.b.delivered) == Written(QoS1, s.popped)
    ensures ItemsOf(s.popped) + s.a.queue == s.submitted && (s.a.queue == [] || |s.leaked| == q)
  {
    hide Drained, Books;
    AtRest(s, q, r);
    assert Held(s) == [];
    assert StoredFor(s.b.pubIn, []) == [] && InChannel(QoS2, []) == [] && InChannel(QoS1, []) == [];
  }

  /** Exactly once: wherever a run comes to rest, the messages delivered are exactly the permitted ones that have left
      the queue without having expired, each once and in order; and every message submitted has left it, unless every
      identifier has been lost. */
  lemma ExactlyOnce(run: seq<System>, k: nat, q: int, r: int)
    requires Run(run, q, r) && k < |run| && Drained(run[k])
    ensures var s := run[k];
      && Of(QoS2, s.b.delivered) == Written(QoS2, s.popped)
      && Of(QoS1, s.b.delivered) == Written(QoS1, s.popped)
      && ItemsOf(s.popped) + s.a.queue == s.submitted && (s.a.queue == [] || |s.leaked| == q)
      && (s.a.queue == [] && (forall k :: 0 <= k < |s.popped| ==> !s.popped[k].expired) ==>
            Of(QoS2, s.b.delivered) == Of(QoS2, s.submitted) && Of(QoS1, s.b.delivered) == Of(QoS1, s.submitted))
  {
    hide Run, Inv, Drained, Of, Written, ItemsOf;
    InvAlways(run, k, q, r);
    var s := run[k];
    DeliveredAll(s, q, r);
    if s.a.queue == [] && forall k :: 0 <= k < |s.popped| ==> !s.popped[k].expired {
      assert ItemsOf(s.popped) == s.submitted;
      NoneExpired(QoS2, s.popped);
      NoneExpired(QoS1, s.popped);
    }
  }

  lemma {:induction false} NoneExpired(l: Level, ps: seq<Popped>)
    requires forall k :: 0 <= k < |ps| ==> !ps[k].expired
    ensures Written(l, ps) == Of(l, ItemsOf(ps))
  {
    if ps != [] {
      NoneExpired(l, ps[1..]);
      assert ItemsOf(ps) == [ps[0].item] + ItemsOf(ps[1..]);
    }
  }

  /** An identifier taken for an expired publish never comes back: it stays lost, no later publish is given it, and the
      quota is smaller by one for good. */
  lemma LeakedForever(s: System, t: System, q: int, r: int)
    requires Inv(s, q, r) && Next(s, t)
    ensures s.leaked <= t.leaked
    ensures t.a.quota + |t.leaked| <= q
    ensures |s.leaked| == q ==> t.popped == s.popped
    ensures forall u, id :: Pop(s.a, u, id) ==> id !in s.leaked
  {
    hide Inv, Next, Pop;
    LeakedTaken(s, q, r);
    LeakedGrows(s, t);
    NextKeeps(s, t, q, r);
    LeakedInUse(s, q, r);
    LeakedInUse(t, q, r);
  }

  lemma LeakedInUse(s: System, q: int, r: int)
    requires Inv(s, q, r)
    ensures s.a.quota + |s.leaked| <= q
  {
    hide ToB, ToA, Receiving, Ordered;
    SizeWithin(s.leaked, multiset(s.a.inUse));
    assert |multiset(s.a.inUse)| == |s.a.inUse|;
  }

  lemma LeakedGrows(s: System, t: System)
    requires Next(s, t)
    ensures s.leaked <= t.leaked && (t.popped == s.popped || s.a.quota > 0)
  {
    hide Acknowledge, FirstFree, ReceivePublish, ReceiveRelease;
  }

  lemma LeakedTaken(s: System, q: int, r: int)
    requires Inv(s, q, r)
    ensures forall u, id :: Pop(s.a, u, id) ==> id !in s.leaked
  {
    hide ToB, ToA, Receiving, Ordered;
    forall u, id | Pop(s.a, u, id) ensures id !in s.leaked {
      assert id !in multiset(s.a.inUse);
    }
  }

  // ---------------------------------------------------------------- starvation

  /** Every identifier can be lost: the given number of expired publishes, one after the other. */
  lemma {:induction false} Lose(item: Item, n: nat, q: int, r: int) returns (run: seq<System>)
    requires n <= q <= MAX_ID && q <= r
    ensures Run(run, q, r)
    ensures var s := run[|run| - 1]; Idle(s) && s.a.queue == [] && |s.leaked| == n && s.b.delivered == []
  {
    if n == 0 {
      run := [System(Sender([], q, 0, {}, map[]), [], [], Receiver(r, map[], []), [], [], [], [], multiset{})];
    } else {
      run := Lose(item, n - 1, q, r);
      var s := run[|run| - 1];
      InvAlways(run, |run| - 1, q, r);
      var t := s.(a := s.a.(queue := [item]), submitted := s.submitted + [item]);
      assert Submit(s, t, item);
      run := Longer(run, t, q, r);
      SubmitKeeps(s, t, item, q, r);
      var u := LoseOne(t, q, r);
      run := Longer(run, u, q, r);
    }
  }

  lemma Longer(run: seq<System>, t: System, q: int, r: int) returns (longer: seq<System>)
    requires Run(run, q, r) && Next(run[|run| - 1], t)
    ensures Run(longer, q, r) && longer[|longer| - 1] == t
  {
    hide Next, Init;
    longer := run + [t];
  }

  lemma LoseOne(s: System, q: int, r: int) returns (t: System)
    requires Inv(s, q, r) && Idle(s) && |s.a.queue| == 1 && |s.leaked| < q
    ensures Next(s, t) && Idle(t) && t.a.queue == [] && |t.leaked| == |s.leaked| + 1 && t.b == s.b
  {
    hide Pop, ToB, ToA, Receiving, Ordered;
    IdleBooks(s, q);
    var a, id := PopEnabled(s.a, q);
    t := s.(a := a, popped := s.popped + [Popped(s.a.queue[0], true)], leaked := s.leaked + multiset{id});
    assert PopExpired(s, t, id);
    Shorter(s.a, a, id);
  }

  lemma Shorter(s: Sender, t: Sender, id: nat)
    requires Pop(s, t, id)
    ensures t.queue == s.queue[1..]
  {
  }

  /** For every quota: when as many publishes as there are identifiers have expired in the queue, the next one waits for
      good although nothing is under way and it has not expired. */
  lemma Starves(item: Item, q: int, r: int) returns (run: seq<System>)
    requires 0 <= q <= MAX_ID && q <= r
    ensures Run(run, q, r)
    ensures var s := run[|run| - 1]; Drained(s) && s.a.queue == [item] && s.b.delivered == []
  {
    run := Lose(item, q, q, r);
    var s := run[|run| - 1];
    InvAlways(run, |run| - 1, q, r);
    var t := s.(a := s.a.(queue := [item]), submitted := s.submitted + [item]);
    assert Submit(s, t, item);
    SubmitKeeps(s, t, item, q, r);
    run := Longer(run, t, q, r);
    AtRest(t, q, r);
  }
}
