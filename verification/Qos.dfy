/** Both ends of the QoS 1 and QoS 2 handshakes: `qos12PopPacket` and `onAck` towards a receiver, `onPublish`
    and `onReleaseIn` from a sender.  Each class is proved against a function on values. */
module Qos {
  import opened Options
  import opened FlowControl

  /** `permitted` is the verdict of the receiving side's access list on the message's topic. */
  datatype Message = Message(content: int, permitted: bool)

  datatype Level = QoS1 | QoS2

  datatype Item = Item(qos: Level, msg: Message)

  /** `failed`: the acknowledgement carries a reason code of 0x80 or above. */
  datatype Packet =
    | Publish(id: nat, item: Item)
    | PubAck(id: nat)
    | PubRec(id: nat, failed: bool)
    | PubRel(id: nat)
    | PubComp(id: nat)

  // ---------------------------------------------------------------- outbound side

  /** What waits for an acknowledgement under an identifier. */
  datatype Pending = PendingPublish(item: Item) | PendingRelease

  datatype Sender = Sender(queue: seq<Item>, quota: int, counter: nat, inUse: set<nat>, pubOut: map<nat, Pending>)

  /** A publish leaves the queue under an identifier. */
  ghost predicate Leaves(s: Sender, t: Sender, id: nat) {
    && s.quota > 0 && s.queue != [] && t.counter < WORD && IdOf(t.counter) == id
    && t == Sender(s.queue[1..], s.quota - 1, t.counter, s.inUse + {id}, s.pubOut[id := PendingPublish(s.queue[0])])
  }

  /** A publish leaves the queue under a fresh identifier. */
  ghost predicate Pop(s: Sender, t: Sender, id: nat) {
    Leaves(s, t, id) && FirstFree(s.counter, s.inUse, id)
  }

  function Freed(s: Sender, id: nat): Sender {
    s.(inUse := s.inUse - {id}, quota := s.quota + 1)
  }

  /** The effect of an acknowledgement and the answer to it. */
  function Acknowledge(s: Sender, p: Packet): (Sender, Option<Packet>) {
    match p
    case PubAck(id) => (if id in s.pubOut then Freed(s, id).(pubOut := s.pubOut - {id}) else s, None)
    case PubComp(id) => (if id in s.pubOut then Freed(s, id).(pubOut := s.pubOut - {id}) else s, None)
    case PubRec(id, failed) =>
      if failed then (Freed(s, id).(pubOut := s.pubOut - {id}), None)
      else (s.(pubOut := s.pubOut[id := PendingRelease]), Some(PubRel(id)))
    case _ => (s, None)
  }

  /** Every unit of quota that is spent is an identifier in use. */
  ghost predicate Counted(s: Sender, q: int) {
    && 0 <= s.quota && q <= MAX_ID && s.counter < WORD
    && s.quota + |s.inUse| == q
    && forall id :: id in s.inUse ==> IsId(id)
  }

  /** Identifiers and quota are conserved: the identifiers in use are exactly those that wait for an
      acknowledgement. */
  ghost predicate Conserved(s: Sender, q: int) {
    Counted(s, q) && s.pubOut.Keys == s.inUse
  }

  lemma PopConserves(s: Sender, t: Sender, id: nat, q: int)
    requires Conserved(s, q) && Pop(s, t, id)
    ensures Conserved(t, q) && id !in s.inUse
  {
  }

  /** With quota left the bounded search cannot fail. */
  lemma PopEnabled(s: Sender, q: int) returns (t: Sender, id: nat)
    requires Conserved(s, q) && s.quota > 0 && s.queue != []
    ensures Pop(s, t, id)
  {
    id := FirstFreeExists(s.counter, s.inUse);
    t := Sender(s.queue[1..], s.quota - 1, id, s.inUse + {id}, s.pubOut[id := PendingPublish(s.queue[0])]);
  }

  lemma {:induction false} FirstFreeExists(counter: nat, inUse: set<nat>) returns (id: nat)
    requires |inUse| < MAX_ID && forall k :: k in inUse ==> IsId(k)
    ensures FirstFree(counter, inUse, id)
  {
    var some := SomeFree(inUse);
    id := Nearest(counter, inUse, some);
  }

  lemma {:induction false} Nearest(counter: nat, inUse: set<nat>, some: nat) returns (id: nat)
    requires IsId(some) && some !in inUse
    ensures FirstFree(counter, inUse, id)
    decreases Distance(counter, some)
  {
    if g :| IsId(g) && g !in inUse && Distance(counter, g) < Distance(counter, some) {
      id := Nearest(counter, inUse, g);
    } else {
      id := some;
    }
  }

  /** Which acknowledgements keep the books straight: all but a PUBREC for an identifier that is not
      outstanding. */
  lemma AcknowledgeConserves(s: Sender, p: Packet, q: int)
    requires Conserved(s, q)
    ensures Conserved(Acknowledge(s, p).0, q) <==> (p.PubRec? ==> p.id in s.pubOut)
  {
  }

  // ---------------------------------------------------------------- a release in two steps

  /** Publishes popped one after the other, and their identifiers. */
  ghost predicate Pops(s: Sender, t: Sender, ids: seq<nat>)
    decreases |ids|
  {
    if ids == [] then s == t else exists u :: Pop(s, u, ids[0]) && Pops(u, t, ids[1..])
  }

  lemma PopCounts(s: Sender, t: Sender, id: nat, q: int)
    requires Counted(s, q) && Pop(s, t, id)
    ensures Counted(t, q) && t.inUse == s.inUse + {id} && t.pubOut.Keys == s.pubOut.Keys + {id}
  {
  }

  /** Between the two steps the table has an entry too many, unless the identifier has been taken again. */
  lemma {:induction false} BetweenSteps(s: Sender, t: Sender, ids: seq<nat>, id: nat, q: int)
    requires Pops(s, t, ids) && Counted(s, q) && s.pubOut.Keys == s.inUse + {id}
    ensures Counted(t, q) && t.pubOut.Keys == t.inUse + {id} && (id in t.inUse <==> id in s.inUse || id in ids)
    decreases |ids|
  {
    if ids != [] {
      hide Pop, Counted;
      var u :| Pop(s, u, ids[0]) && Pops(u, t, ids[1..]);
      PopCounts(s, u, ids[0], q);
      BetweenSteps(u, t, ids[1..], id, q);
      assert forall k :: k in ids <==> k == ids[0] || k in ids[1..];
    }
  }

  function Forgotten(s: Sender, id: nat): Sender { s.(pubOut := s.pubOut - {id}) }

  /** An acknowledgement gives the identifier back before it removes the entry of the table.  With publishes popped in
      between, the books are straight afterwards exactly when none of these was given the identifier; otherwise its
      entry is removed while it waits, and its acknowledgement frees nothing. */
  lemma ReleaseInTwoSteps(s: Sender, t: Sender, ids: seq<nat>, id: nat, q: int)
    requires Conserved(s, q) && id in s.pubOut && Pops(Freed(s, id), t, ids)
    ensures Conserved(Forgotten(t, id), q) <==> id !in ids
    ensures id in ids ==> id in t.inUse && Acknowledge(Forgotten(t, id), PubAck(id)) == (Forgotten(t, id), None)
  {
    hide Pops, FirstFree;
    BetweenSteps(Freed(s, id), t, ids, id, q);
  }

  /** For one publish: it is given the identifier exactly when that is the first free one after the counter. */
  lemma TakenInBetween(s: Sender, t: Sender, id: nat, taken: nat, q: int)
    requires Conserved(s, q) && id in s.pubOut && Pop(Freed(s, id), t, taken)
    ensures Conserved(Forgotten(t, id), q) <==> !FirstFree(s.counter, s.inUse - {id}, id)
  {
    OnePop(Freed(s, id), t, taken);
    ReleaseInTwoSteps(s, t, [taken], id, q);
    if FirstFree(s.counter, s.inUse - {id}, id) {
      FirstFreeUnique(s.counter, s.inUse - {id}, id, taken);
    }
  }

  lemma OnePop(s: Sender, t: Sender, id: nat)
    requires Pop(s, t, id)
    ensures Pops(s, t, [id])
  {
    assert [id][1..] == [] && Pops(t, t, []);
  }

  // ---------------------------------------------------------------- in place

  class AckQueue<T> {
    var messages: map<nat, T>

    constructor ()
      ensures messages == map[]
    {
      messages := map[];
    }

    method Store(id: nat, p: T)
      modifies this
      ensures messages == old(messages)[id := p]
    {
      messages := messages[id := p];
    }

    method Load(id: nat) returns (r: Option<T>)
      ensures r == if id in messages then Some(messages[id]) else None
    {
      r := if id in messages then Some(messages[id]) else None;
    }

    method Delete(id: nat)
      modifies this
      ensures messages == old(messages) - {id}
    {
      messages := messages - {id};
    }
  }

  class Outbound {
    const flow: Flow
    const pubOut: AckQueue<Pending>
    var queue: seq<Item>

    ghost predicate Valid()
      reads this, flow
    {
      flow.Valid()
    }

    ghost function View(): Sender
      reads this, flow, pubOut
    {
      Sender(queue, flow.quota, flow.counter, flow.inUse, pubOut.messages)
    }

    constructor (quota: nat)
      requires quota <= MAX_ID
      ensures Valid() && fresh(flow) && fresh(pubOut)
      ensures View() == Sender([], quota, 0, {}, map[]) && Conserved(View(), quota)
    {
      flow := new Flow(quota);
      pubOut := new AckQueue<Pending>();
      queue := [];
    }

    method Send(item: Item)
      requires Valid()
      modifies this
      ensures Valid() && View() == old(View()).(queue := old(queue) + [item])
    {
      queue := queue + [item];
    }

    /** Takes the next publish if the quota allows, under an identifier that was free if any was; straight books stay
        straight. */
    method PopPacket() returns (p: Option<Packet>)
      requires Valid()
      modifies this, flow, pubOut
      ensures Valid()
      ensures p == None <==> old(flow.quota) <= 0 || old(queue) == []
      ensures p == None ==> View() == old(View())
      ensures p != None ==>
                && p.value == Publish(p.value.id, old(queue)[0]) && Leaves(old(View()), View(), p.value.id)
                && (if |old(flow.inUse)| < MAX_ID then Pop(old(View()), View(), p.value.id)
                    else p.value.id in old(flow.inUse))
      ensures p != None ==>
                && queue == old(queue)[1..] && flow.quota == old(flow.quota) - 1
                && flow.inUse == old(flow.inUse) + {p.value.id}
                && pubOut.messages == old(pubOut.messages)[p.value.id := PendingPublish(old(queue)[0])]
      ensures forall q :: Conserved(old(View()), q) ==> Conserved(View(), q)
    {
      p := None;
      var available := flow.QuotaAvailable();
      if available && |queue| > 0 {
        ghost var before := View();
        var m := queue[0];
        queue := queue[1..];
        var a := flow.Acquire();
        var id := a.id;
        pubOut.Store(id, PendingPublish(m));
        p := Some(Publish(id, m));
        assert before.pubOut[id := PendingPublish(m)] == pubOut.messages;
        forall q | Conserved(before, q) ensures Conserved(View(), q) {
          PopConserves(before, View(), id, q);
        }
      }
    }

    method ReleaseId(id: nat)
      requires Valid()
      modifies flow
      ensures Valid() && View() == Freed(old(View()), id)
    {
      var _ := flow.Release(id);
    }

    /** Removes what waits under the identifier, after telling onReleaseOut. */
    method Release(p: Packet)
      requires Valid()
      modifies flow, pubOut
      ensures Valid()
      ensures View() == if p.id in old(pubOut.messages)
                        then Forgotten(if p.PubAck? || p.PubComp? then Freed(old(View()), p.id) else old(View()), p.id)
                        else old(View())
    {
      var orig := pubOut.Load(p.id);
      if orig.Some? {
        if p.PubAck? || p.PubComp? {
          ReleaseId(p.id);
        }
        pubOut.Delete(p.id);
      }
    }

    method OnAck(p: Packet) returns (resp: Option<Packet>)
      requires Valid()
      modifies flow, pubOut
      ensures Valid() && (View(), resp) == Acknowledge(old(View()), p)
      ensures queue == old(queue)
      ensures (p.PubAck? || p.PubComp?) && p.id in old(pubOut.messages) ==>
                && flow.quota == old(flow.quota) + 1 && flow.inUse == old(flow.inUse) - {p.id}
                && pubOut.messages == old(pubOut.messages) - {p.id} && resp == None
      ensures p.PubRec? && !p.failed ==>
                && flow.quota == old(flow.quota) && flow.inUse == old(flow.inUse)
                && pubOut.messages == old(pubOut.messages)[p.id := PendingRelease] && resp == Some(PubRel(p.id))
      ensures p.PubRec? && p.failed ==>
                && flow.quota == old(flow.quota) + 1 && flow.inUse == old(flow.inUse) - {p.id}
                && pubOut.messages == old(pubOut.messages) - {p.id} && resp == None
      ensures !p.PubRec? && (p.id !in old(pubOut.messages) || p.Publish? || p.PubRel?) ==>
                && flow.quota == old(flow.quota) && flow.inUse == old(flow.inUse)
                && pubOut.messages == old(pubOut.messages) && resp == None
    {
      resp := None;
      match p {
        case PubAck(_) => Release(p);
        case PubComp(_) => Release(p);
        case PubRec(id, failed) =>
          Release(p);
          assert pubOut.messages == old(pubOut.messages) - {id};
          if failed {
            ReleaseId(id);
          } else {
            resp := Some(PubRel(id));
            pubOut.Store(id, PendingRelease);
            assert pubOut.messages == old(pubOut.messages)[id := PendingRelease];
          }
        case _ =>
      }
    }
  }

  // ---------------------------------------------------------------- inbound side

  /** `delivered`: what has reached publishToTopic, in order. */
  datatype Receiver = Receiver(rxQuota: int, pubIn: map<nat, Message>, delivered: seq<Item>)

  datatype Reply = Reply(packet: Packet) | ReceiveMaximumExceeded

  function ReceivePublish(r: Receiver, id: nat, item: Item): (Receiver, Reply) {
    if r.rxQuota == 0 then (r, ReceiveMaximumExceeded)
    else match item.qos
      case QoS2 =>
        var held := if item.msg.permitted then r.pubIn[id := item.msg] else r.pubIn;
        (r.(rxQuota := r.rxQuota - 1, pubIn := held), Reply(PubRec(id, false)))
      case QoS1 =>
        (r.(delivered := if item.msg.permitted then r.delivered + [item] else r.delivered), Reply(PubAck(id)))
  }

  function ReceiveRelease(r: Receiver, id: nat): (Receiver, Packet) {
    var delivered := if id in r.pubIn then r.delivered + [Item(QoS2, r.pubIn[id])] else r.delivered;
    (Receiver(r.rxQuota + 1, r.pubIn - {id}, delivered), PubComp(id))
  }

  /** A PUBLISH turns one unit of the receive quota into one message held exactly when it is permitted and its
      identifier is free: a repeated one costs a unit for nothing. */
  lemma PublishBalance(r: Receiver, id: nat, item: Item)
    requires r.rxQuota != 0 && item.qos == QoS2
    ensures var t := ReceivePublish(r, id, item).0;
            t.rxQuota + |t.pubIn| == r.rxQuota + |r.pubIn| <==> item.msg.permitted && id !in r.pubIn
  {
  }

  /** A PUBREL gives the unit back exactly when a message is held under its identifier; any other one raises the
      quota. */
  lemma ReleaseBalance(r: Receiver, id: nat)
    ensures var t := ReceiveRelease(r, id).0;
            t.rxQuota + |t.pubIn| == r.rxQuota + |r.pubIn| <==> id in r.pubIn
  {
  }

  class Inbound {
    const pubIn: AckQueue<Message>
    var rxQuota: int
    var delivered: seq<Item>

    ghost function View(): Receiver
      reads this, pubIn
    {
      Receiver(rxQuota, pubIn.messages, delivered)
    }

    constructor (rxQuota: int)
      ensures fresh(pubIn) && View() == Receiver(rxQuota, map[], [])
    {
      pubIn := new AckQueue<Message>();
      this.rxQuota := rxQuota;
      delivered := [];
    }

    method PublishToTopic(item: Item)
      modifies this`delivered
      ensures delivered == old(delivered) + [item]
    {
      delivered := delivered + [item];
    }

    method OnPublish(id: nat, item: Item) returns (r: Reply)
      modifies this, pubIn
      ensures (View(), r) == ReceivePublish(old(View()), id, item)
      ensures r == ReceiveMaximumExceeded <==> old(rxQuota) == 0
      ensures r == ReceiveMaximumExceeded ==>
                rxQuota == old(rxQuota) && pubIn.messages == old(pubIn.messages) && delivered == old(delivered)
      ensures old(rxQuota) != 0 && item.qos == QoS2 ==>
                && r == Reply(PubRec(id, false)) && rxQuota == old(rxQuota) - 1 && delivered == old(delivered)
                && pubIn.messages == if item.msg.permitted then old(pubIn.messages)[id := item.msg]
                    else old(pubIn.messages)
      ensures old(rxQuota) != 0 && item.qos == QoS1 ==>
                && r == Reply(PubAck(id)) && rxQuota == old(rxQuota) && pubIn.messages == old(pubIn.messages)
                && delivered == if item.msg.permitted then old(delivered) + [item] else old(delivered)
      ensures old(rxQuota) >= 0 ==> rxQuota >= 0
    {
      if rxQuota == 0 {
        return ReceiveMaximumExceeded;
      }
      match item.qos {
        case QoS2 =>
          rxQuota := rxQuota - 1;
          if item.msg.permitted {
            pubIn.Store(id, item.msg);
          }
          r := Reply(PubRec(id, false));
        case QoS1 =>
          if item.msg.permitted {
            PublishToTopic(item);
          }
          r := Reply(PubAck(id));
      }
    }

    method OnRelease(id: nat) returns (p: Packet)
      modifies this, pubIn
      ensures (View(), p) == ReceiveRelease(old(View()), id)
      ensures p == PubComp(id) && rxQuota == old(rxQuota) + 1 && pubIn.messages == old(pubIn.messages) - {id}
      ensures delivered == if id in old(pubIn.messages) then old(delivered) + [Item(QoS2, old(pubIn.messages)[id])]
                           else old(delivered)
    {
      var stored := pubIn.Load(id);
      if stored.Some? {
        PublishToTopic(Item(QoS2, stored.value));
        pubIn.Delete(id);
      }
      assert pubIn.messages == old(pubIn.messages) - {id};
      rxQuota := rxQuota + 1;
      p := PubComp(id);
    }
  }

  // ---------------------------------------------------------------- a sender that ignores the receive maximum

  datatype Arrival = Publishes(id: nat, item: Item) | Releases(id: nat)

  function Returned(arrivals: seq<Arrival>): nat {
    if arrivals == [] then 0 else (if arrivals[0].Releases? then 1 else 0) + Returned(arrivals[1..])
  }

  /** The QoS 2 publishes that were not refused. */
  function Taken(arrivals: seq<Arrival>, answers: seq<Reply>): nat
    requires |arrivals| == |answers|
  {
    if arrivals == [] then 0
    else
      (if arrivals[0].Publishes? && arrivals[0].item.qos == QoS2 && answers[0] != ReceiveMaximumExceeded then 1 else 0)
      + Taken(arrivals[1..], answers[1..])
  }

  /** Whatever arrives, the receive quota never falls below 0: no more QoS 2 publishes are taken than the receive
      maximum and the identifiers that have been released; a publish is refused exactly when that many have been
      taken. */
  method Receive(rxQuota: nat, arrivals: seq<Arrival>) returns (b: Inbound, answers: seq<Reply>)
    ensures |answers| == |arrivals|
    ensures 0 <= b.rxQuota == rxQuota + Returned(arrivals) - Taken(arrivals, answers)
    ensures forall k :: 0 <= k < |arrivals| && arrivals[k].Publishes? ==>
              (answers[k] == ReceiveMaximumExceeded
               <==> rxQuota + Returned(arrivals[..k]) == Taken(arrivals[..k], answers[..k]))
  {
    b := new Inbound(rxQuota);
    answers := [];
    for k := 0 to |arrivals|
      invariant fresh(b) && fresh(b.pubIn) && |answers| == k
      invariant 0 <= b.rxQuota == rxQuota + Returned(arrivals[..k]) - Taken(arrivals[..k], answers)
      invariant forall j :: 0 <= j < k && arrivals[j].Publishes? ==>
                  (answers[j] == ReceiveMaximumExceeded
                   <==> rxQuota + Returned(arrivals[..j]) == Taken(arrivals[..j], answers[..j]))
    {
      var answer;
      match arrivals[k] {
        case Publishes(id, item) => answer := b.OnPublish(id, item);
        case Releases(id) =>
          var p := b.OnRelease(id);
          answer := Reply(p);
      }
      OneArrival(arrivals, answers, k, answer);
      EarlierAnswers(answers, answer);
      answers := answers + [answer];
    }
    assert arrivals[..|arrivals|] == arrivals;
  }

  lemma EarlierAnswers(answers: seq<Reply>, answer: Reply)
    ensures forall j :: 0 <= j <= |answers| ==> (answers + [answer])[..j] == answers[..j]
  {
  }

  lemma OneArrival(arrivals: seq<Arrival>, answers: seq<Reply>, k: nat, answer: Reply)
    requires k == |answers| < |arrivals|
    ensures Returned(arrivals[..k + 1]) == Returned(arrivals[..k]) + if arrivals[k].Releases? then 1 else 0
    ensures Taken(arrivals[..k + 1], answers + [answer]) == Taken(arrivals[..k], answers)
         + if arrivals[k].Publishes? && arrivals[k].item.qos == QoS2 && answer != ReceiveMaximumExceeded then 1 else 0
  {
    assert arrivals[..k + 1] == arrivals[..k] + [arrivals[k]];
    ReturnedMore(arrivals[..k], arrivals[k]);
    TakenMore(arrivals[..k], answers, arrivals[k], answer);
  }

  lemma {:induction false} ReturnedMore(arrivals: seq<Arrival>, a: Arrival)
    ensures Returned(arrivals + [a]) == Returned(arrivals) + if a.Releases? then 1 else 0
  {
    if arrivals != [] {
      assert (arrivals + [a])[1..] == arrivals[1..] + [a];
      ReturnedMore(arrivals[1..], a);
    }
  }

  lemma {:induction false} TakenMore(arrivals: seq<Arrival>, answers: seq<Reply>, a: Arrival, answer: Reply)
    requires |arrivals| == |answers|
    ensures Taken(arrivals + [a], answers + [answer]) == Taken(arrivals, answers)
         + if a.Publishes? && a.item.qos == QoS2 && answer != ReceiveMaximumExceeded then 1 else 0
  {
    if arrivals != [] {
      assert (arrivals + [a])[1..] == arrivals[1..] + [a] && (answers + [answer])[1..] == answers[1..] + [answer];
      TakenMore(arrivals[1..], answers[1..], a, answer);
    }
  }
}
