/** The drain loop of the writing routine (`routine`, `popPackets`) on its own, with nobody sending meanwhile: the
    exact order in which the three queues reach the wire. */
module WriterLoop {
  import opened Options
  import opened FlowControl
  import opened Qos
  import opened Sequences

  datatype Body = General(content: nat) | Acked(item: Item) | QoS0(content: nat)

  /** `id` is 0 but for a publish that is to be acknowledged. */
  datatype Out = Out(body: Body, id: nat)

  /** The packets of each kind, in order. */
  datatype Queues = Queues(general: seq<nat>, acked: seq<Item>, qos0: seq<nat>)

  function Size(q: Queues): nat { |q.general| + |q.acked| + |q.qos0| }

  function First<T>(s: seq<T>, k: nat): seq<T> {
    if k <= |s| then s[..k] else s
  }

  function Tail<T>(s: seq<T>): seq<T> {
    if s == [] then [] else s[1..]
  }

  function Rest(q: Queues): Queues { Queues(Tail(q.general), Tail(q.acked), Tail(q.qos0)) }

  function Prefix(q: Queues, k: nat): Queues { Queues(First(q.general, k), First(q.acked, k), First(q.qos0, k)) }

  function Join(a: Queues, b: Queues): Queues { Queues(a.general + b.general, a.acked + b.acked, a.qos0 + b.qos0) }

  /** One packet of each kind, as far as there is one. */
  function Heads(q: Queues): seq<Body> {
    (if q.general != [] then [General(q.general[0])] else [])
    + (if q.acked != [] then [Acked(q.acked[0])] else [])
    + (if q.qos0 != [] then [QoS0(q.qos0[0])] else [])
  }

  /** In a round the general packet comes first, then the publish to be acknowledged, then the other. */
  lemma HeadsMean(q: Queues)
    ensures var g := if q.general == [] then 0 else 1;
            var m := if q.acked == [] then 0 else 1;
            var z := if q.qos0 == [] then 0 else 1;
            && |Heads(q)| == g + m + z
            && (g == 1 ==> Heads(q)[0] == General(q.general[0]))
            && (m == 1 ==> Heads(q)[g] == Acked(q.acked[0]))
            && (z == 1 ==> Heads(q)[g + m] == QoS0(q.qos0[0]))
  {
  }

  /** The order of transmission: round after round. */
  function Rounds(q: Queues): seq<Body>
    decreases Size(q)
  {
    if Size(q) == 0 then [] else Heads(q) + Rounds(Rest(q))
  }

  /** The publishes for which there is quota. */
  function Ready(s: Sender): (r: seq<Item>)
    ensures r <= s.queue
    ensures r == [] <==> s.quota <= 0 || s.queue == []
  {
    if s.quota <= 0 then [] else if |s.queue| <= s.quota then s.queue else s.queue[..s.quota]
  }

  lemma ReadyPop(s: Sender, t: Sender, id: nat)
    requires Leaves(s, t, id)
    ensures Ready(s) != [] && Ready(s)[0] == s.queue[0] && Ready(t) == Ready(s)[1..]
    ensures s.queue[|Ready(s)|..] == t.queue[|Ready(t)|..]
    ensures t.pubOut[id] == PendingPublish(s.queue[0])
  {
  }

  function BodyOf(o: Out): seq<Body> { [o.body] }

  function Bodies(os: seq<Out>): seq<Body> { Flatten(BodyOf, os) }

  /** Only a publish can expire. */
  function Unexpired(expired: Body -> bool, bs: seq<Body>): seq<Body> { Flatten(Keep(expired), bs) }

  function Keep(expired: Body -> bool): Body -> seq<Body> {
    (b: Body) => if !b.General? && expired(b) then [] else [b]
  }

  /** What is kept, as often as it was there: everything but the publishes that have expired. */
  lemma {:induction false} UnexpiredMeans(expired: Body -> bool, bs: seq<Body>, b: Body)
    ensures multiset(Unexpired(expired, bs))[b] == if b.General? || !expired(b) then multiset(bs)[b] else 0
  {
    if bs != [] {
      UnexpiredMeans(expired, bs[1..], b);
      assert bs == [bs[0]] + bs[1..];
      assert Unexpired(expired, bs) == Keep(expired)(bs[0]) + Unexpired(expired, bs[1..]);
    }
  }

  lemma BodiesAppend(os: seq<Out>, o: Out)
    ensures Bodies(os + [o]) == Bodies(os) + [o.body]
  {
    FlattenConcat(BodyOf, os, [o]);
    FlattenOne(BodyOf, o);
  }

  lemma NoBodies()
    ensures Bodies([]) == []
    ensures forall expired :: Unexpired(expired, []) == []
  {
  }

  lemma UnexpiredConcat(expired: Body -> bool, a: seq<Body>, b: seq<Body>)
    ensures Unexpired(expired, a + b) == Unexpired(expired, a) + Unexpired(expired, b)
  {
    FlattenConcat(Keep(expired), a, b);
  }

  function GeneralOf(b: Body): seq<nat> { if b.General? then [b.content] else [] }
  function AckedOf(b: Body): seq<Item> { if b.Acked? then [b.item] else [] }
  function QoS0Of(b: Body): seq<nat> { if b.QoS0? then [b.content] else [] }

  function Apart(bs: seq<Body>): Queues {
    Queues(Flatten(GeneralOf, bs), Flatten(AckedOf, bs), Flatten(QoS0Of, bs))
  }

  lemma ApartConcat(a: seq<Body>, b: seq<Body>)
    ensures Apart(a + b) == Join(Apart(a), Apart(b))
  {
    FlattenConcat(GeneralOf, a, b);
    FlattenConcat(AckedOf, a, b);
    FlattenConcat(QoS0Of, a, b);
  }

  lemma ApartFew(b: Body)
    ensures Apart([]) == Queues([], [], [])
    ensures Apart([b]) == Queues(GeneralOf(b), AckedOf(b), QoS0Of(b))
  {
    FlattenOne(GeneralOf, b);
    FlattenOne(AckedOf, b);
    FlattenOne(QoS0Of, b);
  }

  lemma ApartOne(s: seq<Body>)
    requires |s| <= 1
    ensures Apart(s) == if s == [] then Queues([], [], []) else Queues(GeneralOf(s[0]), AckedOf(s[0]), QoS0Of(s[0]))
  {
    if s == [] {
      ApartFew(QoS0(0));
    } else {
      ApartFew(s[0]);
      assert s == [s[0]];
    }
  }

  lemma HeadsApart(q: Queues)
    ensures Apart(Heads(q)) == Prefix(q, 1) && |Heads(q)| <= 3
  {
    hide Apart, Flatten;
    var a: seq<Body> := if q.general != [] then [General(q.general[0])] else [];
    var b: seq<Body> := if q.acked != [] then [Acked(q.acked[0])] else [];
    var c: seq<Body> := if q.qos0 != [] then [QoS0(q.qos0[0])] else [];
    ApartConcat(a + b, c);
    ApartConcat(a, b);
    ApartOne(a);
    ApartOne(b);
    ApartOne(c);
  }

  lemma JoinPrefix(q: Queues, k: nat)
    requires k > 0
    ensures Join(Prefix(q, 1), Prefix(Rest(q), k - 1)) == Prefix(q, k)
    ensures Join(Prefix(q, 1), Rest(q)) == q
  {
    FirstOnwards(q.general, k);
    FirstOnwards(q.acked, k);
    FirstOnwards(q.qos0, k);
  }

  lemma FirstOnwards<T>(s: seq<T>, k: nat)
    requires k > 0
    ensures First(s, 1) + First(Tail(s), k - 1) == First(s, k) && First(s, 1) + Tail(s) == s
  {
  }

  /** Each queue goes out whole and in its own order: nothing is lost, doubled or overtaken within it. */
  lemma {:induction false} RoundsConserve(q: Queues)
    ensures Apart(Rounds(q)) == q
    decreases Size(q)
  {
    if Size(q) == 0 {
      ApartFew(QoS0(0));
    } else {
      RoundsConserve(Rest(q));
      hide Apart, Heads, Prefix, Join, Rest;
      ApartConcat(Heads(q), Rounds(Rest(q)));
      HeadsApart(q);
      JoinPrefix(q, 1);
    }
  }

  lemma Ahead<T>(a: seq<T>, b: seq<T>, n: nat)
    requires n <= |b|
    ensures (a + b)[..|a| + n] == a + b[..n]
  {
  }

  /** No queue starves another: within the first 3 * k packets are the first k of every kind. */
  lemma {:induction false} FairShare(q: Queues, k: nat) returns (n: nat)
    ensures n <= |Rounds(q)| && n <= 3 * k
    ensures Apart(Rounds(q)[..n]) == Prefix(q, k)
    decreases k
  {
    n := 0;
    if k == 0 || Size(q) == 0 {
      ApartFew(QoS0(0));
    } else {
      n := FairShare(Rest(q), k - 1);
      hide Apart, Heads, Prefix, Join, Rest;
      var heads, rest := Heads(q), Rounds(Rest(q));
      Ahead(heads, rest, n);
      ApartConcat(heads, rest[..n]);
      HeadsApart(q);
      JoinPrefix(q, k);
      n := |heads| + n;
    }
  }

  class Writer {
    var gMessages: seq<nat>
    var qos0Messages: seq<nat>
    const out: Outbound
    var alive: bool
    var wire: seq<Out>

    ghost predicate Valid()
      reads out, out.flow, out.pubOut
    {
      out.Valid()
    }

    constructor (quota: nat)
      requires quota <= MAX_ID
      ensures Valid() && Conserved(out.View(), quota) && fresh(out) && fresh(out.flow) && fresh(out.pubOut)
      ensures gMessages == [] && qos0Messages == [] && alive && wire == []
    {
      out := new Outbound(quota);
      gMessages, qos0Messages, alive, wire := [], [], true, [];
    }

    /** What the queues hold that may be written now. */
    ghost function Pending(): Queues
      reads `gMessages, `qos0Messages, out, out.flow, out.pubOut
    {
      Queues(gMessages, Ready(out.View()), qos0Messages)
    }

    /** What has to wait for quota. */
    ghost function Waiting(): seq<Item>
      reads out, out.flow, out.pubOut
    {
      out.queue[|Ready(out.View())|..]
    }

    method PopPackets() returns (packets: seq<Out>)
      requires Valid()
      modifies this`gMessages, this`qos0Messages, out, out.flow, out.pubOut
      ensures Valid()
      ensures !alive ==>
                packets == [] && gMessages == old(gMessages) && qos0Messages == old(qos0Messages) &&
                out.View() == old(out.View())
      ensures alive ==>
                Bodies(packets) == Heads(old(Pending())) && Pending() == Rest(old(Pending())) &&
                    Waiting() == old(Waiting())
      ensures Registered(packets)
      ensures forall q :: Conserved(old(out.View()), q) ==> Conserved(out.View(), q)
    {
      hide Conserved, Ready, Flatten;
      packets := [];
      NoBodies();
      if alive {
        if gMessages != [] {
          BodiesAppend([], Out(General(gMessages[0]), 0));
          packets := packets + [Out(General(gMessages[0]), 0)];
          gMessages := gMessages[1..];
        }
        var p := PopReady();
        if p.Some? {
          BodiesAppend(packets, p.value);
          packets := packets + [p.value];
        }
        if qos0Messages != [] {
          BodiesAppend(packets, Out(QoS0(qos0Messages[0]), 0));
          packets := packets + [Out(QoS0(qos0Messages[0]), 0)];
          qos0Messages := qos0Messages[1..];
        }
      }
    }

    method PopReady() returns (p: Option<Out>)
      requires Valid()
      modifies out, out.flow, out.pubOut
      ensures Valid() && Ready(out.View()) == Tail(old(Ready(out.View()))) && Waiting() == old(Waiting())
      ensures p == None <==> old(Ready(out.View())) == []
      ensures p.Some? ==> p.value.body == Acked(old(Ready(out.View()))[0]) && Registered([p.value])
      ensures forall q :: Conserved(old(out.View()), q) ==> Conserved(out.View(), q)
    {
      hide FirstFree, Conserved;
      var o := out.PopPacket();
      p := None;
      if o.Some? {
        ReadyPop(old(out.View()), out.View(), o.value.id);
        p := Some(Out(Acked(o.value.item), o.value.id));
      }
    }

    /** What goes out to be acknowledged waits in the table under its identifier. */
    ghost predicate Registered(packets: seq<Out>)
      reads out, out.pubOut
    {
      forall k :: 0 <= k < |packets| && packets[k].body.Acked? ==>
        && packets[k].id in out.pubOut.messages
        && out.pubOut.messages[packets[k].id] == PendingPublish(packets[k].body.item)
    }

    /** A packet of the batch is written unless it has expired. */
    method WriteBatch(packets: seq<Out>, expired: Body -> bool)
      modifies this`wire
      ensures old(wire) <= wire
      ensures Bodies(wire) == Bodies(old(wire)) + Unexpired(expired, Bodies(packets))
      ensures forall k :: |old(wire)| <= k < |wire| ==> wire[k] in packets
    {
      hide Flatten;
      NoBodies();
      for i := 0 to |packets|
        invariant old(wire) <= wire
        invariant Bodies(wire) == Bodies(old(wire)) + Unexpired(expired, Bodies(packets[..i]))
        invariant forall k :: |old(wire)| <= k < |wire| ==> wire[k] in packets
      {
        var p := packets[i];
        assert packets[..i + 1] == packets[..i] + [p];
        BodiesAppend(packets[..i], p);
        UnexpiredConcat(expired, Bodies(packets[..i]), [p.body]);
        FlattenOne(Keep(expired), p.body);
        if !(!p.body.General? && expired(p.body)) {
          BodiesAppend(wire, p);
          wire := wire + [p];
        }
      }
      assert packets[..|packets|] == packets;
    }

    /** What will have been written once the queues are empty. */
    ghost function Outlook(expired: Body -> bool): seq<Body>
      reads `wire, `gMessages, `qos0Messages, out, out.flow, out.pubOut
    {
      Bodies(wire) + Unexpired(expired, Rounds(Pending()))
    }

    /** One batch; true when it was empty. */
    method Round(expired: Body -> bool) returns (end: bool)
      requires Valid() && alive
      modifies this`gMessages, this`qos0Messages, this`wire, out, out.flow, out.pubOut
      ensures Valid() && old(wire) <= wire && Waiting() == old(Waiting()) && Outlook(expired) == old(Outlook(expired))
      ensures forall q :: Conserved(old(out.View()), q) ==> Conserved(out.View(), q)
      ensures end <==> old(Size(Pending())) == 0
      ensures if end then Size(Pending()) == 0 else Size(Pending()) < old(Size(Pending()))
    {
      hide Conserved, Heads, Ready, Rest, Rounds, Flatten, Registered;
      ghost var before := Pending();
      var packets := PopPackets();
      HeadsNone(packets, before);
      end := packets == [];
      UnexpiredConcat(expired, Heads(before), Rounds(Rest(before)));
      if !end {
        WriteBatch(packets, expired);
      }
    }

    /** Runs until a batch is empty. */
    method Routine(expired: Body -> bool)
      requires Valid()
      modifies this`gMessages, this`qos0Messages, this`wire, out, out.flow, out.pubOut
      ensures Valid() && old(wire) <= wire
      ensures forall q :: Conserved(old(out.View()), q) ==> Conserved(out.View(), q)
      ensures !alive ==> wire == old(wire) && Pending() == old(Pending()) && out.View() == old(out.View())
      ensures alive ==>
                && gMessages == [] && qos0Messages == [] && (out.queue == [] || out.flow.quota <= 0)
                && out.queue == old(Waiting())
                && Bodies(wire) == Bodies(old(wire)) + Unexpired(expired, Rounds(old(Pending())))
    {
      if !alive {
        return;
      }
      var end := false;
      while !end
        invariant Valid() && alive && old(wire) <= wire
        invariant Waiting() == old(Waiting()) && Outlook(expired) == old(Outlook(expired))
        invariant end ==> Size(Pending()) == 0
        invariant forall q :: Conserved(old(out.View()), q) ==> Conserved(out.View(), q)
        decreases Size(Pending()), if end then 0 else 1
      {
        end := Round(expired);
      }
      AllOut(expired);
    }

    lemma AllOut(expired: Body -> bool)
      requires Valid() && Size(Pending()) == 0
      ensures gMessages == [] && qos0Messages == [] && (out.queue == [] || out.flow.quota <= 0) &&
                Waiting() == out.queue
      ensures Bodies(wire) + Unexpired(expired, Rounds(Pending())) == Bodies(wire)
    {
    }
  }

  lemma HeadsNone(packets: seq<Out>, q: Queues)
    requires Bodies(packets) == Heads(q)
    ensures packets == [] <==> Size(q) == 0
    ensures Size(q) == 0 ==> Rest(q) == q
    ensures Size(q) > 0 ==> Size(Rest(q)) < Size(q)
    ensures Rounds(q) == if Size(q) == 0 then [] else Heads(q) + Rounds(Rest(q))
  {
  }
}
