/** Topic aliases from the writer of one connection (`setTopicAlias`) to the reader of another (`onPublish`,
    `publishToTopic`). */
module TopicAlias {
  import opened Options

  type Topic = string

  /** What a PUBLISH carries: its topic, which may be left out, and an alias. */
  datatype Wire = Wire(topic: Topic, alias: Option<nat>)

  // ---------------------------------------------------------------- the sending side

  /** The aliases given out for the topics sent so far, as long as there are enough. */
  function Table(ts: seq<Topic>): map<Topic, nat> {
    if ts == [] then map[]
    else
      var m, t := Table(ts[..|ts| - 1]), ts[|ts| - 1];
      if t in m then m else m[t := |m| + 1]
  }

  /** How the i-th topic goes out. */
  function Sent(ts: seq<Topic>, i: nat): Wire
    requires i < |ts|
  {
    var m := Table(ts[..i]);
    if ts[i] in m then Wire("", Some(m[ts[i]])) else Wire(ts[i], Some(|m| + 1))
  }

  class Writer {
    var topicAlias: map<Topic, nat>
    var topicAliasCurrMax: nat
    const topicAliasMax: nat

    constructor (topicAliasMax: nat)
      ensures topicAlias == map[] && topicAliasCurrMax == 0 && this.topicAliasMax == topicAliasMax
    {
      topicAlias, topicAliasCurrMax, this.topicAliasMax := map[], 0, topicAliasMax;
    }

    /** `random` is the number drawn when every alias has been given out: one below the maximum, so that 0 can
        be drawn and the maximum cannot. */
    method SetTopicAlias(topic: Topic, random: nat) returns (w: Wire)
      requires random < topicAliasMax || topicAliasMax == 0
      modifies this
      ensures topicAliasMax == 0 ==> w == Wire(topic, None) && topicAlias == old(topicAlias)
      ensures topicAliasMax > 0 && topic in old(topicAlias) ==>
                w == Wire("", Some(old(topicAlias)[topic])) && topicAlias == old(topicAlias)
      ensures topicAliasMax > 0 && topic !in old(topicAlias) ==>
                var fits := old(topicAliasCurrMax) < topicAliasMax;
                && w == Wire(topic, Some(if fits then old(topicAliasCurrMax) + 1 else random))
                && topicAlias == old(topicAlias)[topic := w.alias.value]
      ensures topicAliasCurrMax == if 0 < topicAliasMax && topic !in old(topicAlias) &&
                old(topicAliasCurrMax) < topicAliasMax
                                   then old(topicAliasCurrMax) + 1 else old(topicAliasCurrMax)
    {
      w := Wire(topic, None);
      if topicAliasMax > 0 {
        var alias := 0;
        var known := topic in topicAlias;
        if !known {
          if topicAliasCurrMax < topicAliasMax {
            topicAliasCurrMax := topicAliasCurrMax + 1;
            alias := topicAliasCurrMax;
          } else {
            alias := random;
          }
          topicAlias := topicAlias[topic := alias];
        } else {
          alias := topicAlias[topic];
        }
        w := w.(alias := Some(alias));
        if known {
          w := w.(topic := "");
        }
      }
    }
  }

  /** What the writer sends: the first message on a topic carries it, every other only the alias of the first; and as
      long as there is an alias for every topic so far, it is the one that `Sent` says. */
  method SendAll(ts: seq<Topic>, randoms: seq<nat>, topicAliasMax: nat) returns (ws: seq<Wire>)
    requires |randoms| == |ts| && forall i :: 0 <= i < |ts| ==> randoms[i] < topicAliasMax || topicAliasMax == 0
    ensures |ws| == |ts|
    ensures topicAliasMax == 0 ==> forall i :: 0 <= i < |ts| ==> ws[i] == Wire(ts[i], None)
    ensures topicAliasMax > 0 ==> forall i :: 0 <= i < |ts| ==>
              && ws[i].topic == (if Introduces(ts, i) then ts[i] else "")
              && ws[i].alias.Some? && ws[i].alias.value <= topicAliasMax
              && forall j :: 0 <= j < i && ts[j] == ts[i] ==> ws[j].alias == ws[i].alias
    ensures topicAliasMax > 0 ==> forall i :: 0 <= i < |ts| && |Table(ts[..i + 1])| <= topicAliasMax ==>
              ws[i] == Sent(ts, i)
  {
    hide Table, Sent, Known, Orderly, Introduces;
    var w := new Writer(topicAliasMax);
    ws := [];
    NothingSent(ts, topicAliasMax);
    for i := 0 to |ts|
      invariant fresh(w) && |ws| == i && w.topicAliasMax == topicAliasMax && w.topicAliasCurrMax <= topicAliasMax
      invariant topicAliasMax == 0 ==> forall j :: 0 <= j < i ==> ws[j] == Wire(ts[j], None)
      invariant topicAliasMax > 0 ==> Known(ts, ws, w.topicAlias, topicAliasMax)
      invariant topicAliasMax > 0 ==> Orderly(ts, ws, w.topicAlias, w.topicAliasCurrMax, topicAliasMax)
    {
      ghost var m, n := w.topicAlias, w.topicAliasCurrMax;
      var x := w.SetTopicAlias(ts[i], randoms[i]);
      if topicAliasMax > 0 {
        KnownStep(ts, ws, m, topicAliasMax, x);
        OrderlyStep(ts, ws, m, n, topicAliasMax, x);
      }
      ws := ws + [x];
    }
    if topicAliasMax > 0 {
      KnownWires(ts, ws, w.topicAlias, topicAliasMax);
      OrderlyWires(ts, ws, w.topicAlias, w.topicAliasCurrMax, topicAliasMax);
    }
  }

  /** What has been sent so far, and the table behind it. */
  ghost predicate Known(ts: seq<Topic>, ws: seq<Wire>, m: map<Topic, nat>, topicAliasMax: nat) {
    && |ws| <= |ts| && Tabled(ts[..|ws|], m, topicAliasMax)
    && forall i :: 0 <= i < |ws| ==> Right(ts, ws[i], i, m)
  }

  ghost predicate Tabled(ts: seq<Topic>, m: map<Topic, nat>, topicAliasMax: nat) {
    forall t :: (t in m <==> t in ts) && (t in m ==> m[t] <= topicAliasMax)
  }

  ghost predicate Right(ts: seq<Topic>, w: Wire, i: nat, m: map<Topic, nat>) {
    i < |ts| && ts[i] in m && w.alias == Some(m[ts[i]]) && w.topic == if Introduces(ts, i) then ts[i] else ""
  }

  lemma KnownStep(ts: seq<Topic>, ws: seq<Wire>, m: map<Topic, nat>, topicAliasMax: nat, x: Wire)
    requires Known(ts, ws, m, topicAliasMax) && |ws| < |ts|
    requires var t := ts[|ws|]; if t in m then x == Wire("", Some(m[t]))
             else x.topic == t && x.alias.Some? && x.alias.value <= topicAliasMax
    ensures var t := ts[|ws|]; Known(ts, ws + [x], if t in m then m else m[t := x.alias.value], topicAliasMax)
  {
    var i, t := |ws|, ts[|ws|];
    var n := if t in m then m else m[t := x.alias.value];
    FirstOfTopic(ts, i);
    hide Introduces;
    assert ts[..i + 1] == ts[..i] + [t];
    assert Tabled(ts[..i + 1], n, topicAliasMax);
    assert t in m <==> !Introduces(ts, i);
    hide Tabled;
    assert Right(ts, x, i, n);
    forall j | 0 <= j < i ensures Right(ts, ws[j], j, n) {
      assert Right(ts, ws[j], j, m);
    }
  }

  lemma FirstOfTopic(ts: seq<Topic>, i: nat)
    requires i < |ts|
    ensures Introduces(ts, i) <==> ts[i] !in ts[..i]
  {
    if !Introduces(ts, i) {
      var j :| 0 <= j < i && ts[j] == ts[i];
      assert ts[..i][j] == ts[i];
    }
  }

  lemma KnownWires(ts: seq<Topic>, ws: seq<Wire>, m: map<Topic, nat>, topicAliasMax: nat)
    requires Known(ts, ws, m, topicAliasMax)
    ensures forall i :: 0 <= i < |ws| ==>
              && |ws| <= |ts| && ws[i].topic == (if Introduces(ts, i) then ts[i] else "")
              && ws[i].alias.Some? && ws[i].alias.value <= topicAliasMax
              && forall j :: 0 <= j < i && ts[j] == ts[i] ==> ws[j].alias == ws[i].alias
  {
    hide Introduces;
    forall i | 0 <= i < |ws| ensures Right(ts, ws[i], i, m) && m[ts[i]] <= topicAliasMax {}
  }

  /** As long as there is an alias for every topic, the table is `Table` and the messages are those of `Sent`. */
  ghost predicate Orderly(ts: seq<Topic>, ws: seq<Wire>, m: map<Topic, nat>, n: nat, topicAliasMax: nat) {
    && |ws| <= |ts| && (|Table(ts[..|ws|])| <= topicAliasMax ==> m == Table(ts[..|ws|]) && n == |m|)
    && (forall i :: 0 <= i < |ws| && |Table(ts[..i + 1])| <= topicAliasMax ==> ws[i] == Sent(ts, i))
  }

  lemma OrderlyStep(ts: seq<Topic>, ws: seq<Wire>, m: map<Topic, nat>, n: nat, topicAliasMax: nat, x: Wire)
    requires Orderly(ts, ws, m, n, topicAliasMax) && |ws| < |ts|
    requires var t := ts[|ws|]; if t in m then x == Wire("", Some(m[t]))
             else x.topic == t && x.alias.Some? && (n < topicAliasMax ==> x.alias.value == n + 1)
    ensures var t := ts[|ws|];
            Orderly(ts, ws + [x], if t in m then m else m[t := x.alias.value],
                    if t !in m && n < topicAliasMax then n + 1 else n, topicAliasMax)
  {
    hide Table, Sent;
    SendStep(ts, |ws|);
  }

  lemma OrderlyWires(ts: seq<Topic>, ws: seq<Wire>, m: map<Topic, nat>, n: nat, topicAliasMax: nat)
    requires Orderly(ts, ws, m, n, topicAliasMax)
    ensures forall i :: 0 <= i < |ws| && |ws| <= |ts| && |Table(ts[..i + 1])| <= topicAliasMax ==> ws[i] == Sent(ts, i)
  {
  }

  lemma NothingSent(ts: seq<Topic>, topicAliasMax: nat)
    ensures Known(ts, [], map[], topicAliasMax) && Orderly(ts, [], map[], 0, topicAliasMax)
  {
    TableOfNone(ts);
  }

  lemma TableOfNone(ts: seq<Topic>)
    ensures Table(ts[..0]) == map[]
  {
  }

  /** One message: what the writer finds in its table is what `Sent` looks up. */
  lemma SendStep(ts: seq<Topic>, i: nat)
    requires i < |ts|
    ensures var m, t := Table(ts[..i]), ts[i];
            && (t in m ==> Sent(ts, i) == Wire("", Some(m[t])) && Table(ts[..i + 1]) == m)
            && (t !in m ==>
                  && Sent(ts, i) == Wire(t, Some(|m| + 1))
                  && Table(ts[..i + 1]) == m[t := |m| + 1]
                  && |Table(ts[..i + 1])| == |m| + 1)
  {
    TableStep(ts, i);
  }

  lemma TableStep(ts: seq<Topic>, i: nat)
    requires i < |ts|
    ensures var m := Table(ts[..i]); Table(ts[..i + 1]) == if ts[i] in m then m else m[ts[i] := |m| + 1]
  {
    assert ts[..i + 1][..i] == ts[..i];
  }

  /** The table knows exactly the topics sent, under distinct aliases from 1 to its size. */
  lemma {:induction false} TableFacts(ts: seq<Topic>)
    ensures forall t :: t in Table(ts) <==> t in ts
    ensures forall t :: t in Table(ts) ==> 1 <= Table(ts)[t] <= |Table(ts)|
    ensures forall t, u :: t in Table(ts) && u in Table(ts) && Table(ts)[t] == Table(ts)[u] ==> t == u
  {
    if ts != [] {
      TableFacts(ts[..|ts| - 1]);
      assert ts == ts[..|ts| - 1] + [ts[|ts| - 1]];
    }
  }

  lemma {:induction false} TableGrows(ts: seq<Topic>, i: nat, j: nat)
    requires i <= j <= |ts|
    ensures forall t :: t in Table(ts[..i]) ==> t in Table(ts[..j]) && Table(ts[..j])[t] == Table(ts[..i])[t]
    ensures |Table(ts[..i])| <= |Table(ts[..j])|
    decreases j - i
  {
    if i < j {
      TableStep(ts, i);
      TableGrows(ts, i + 1, j);
    }
  }

  /** The alias of a topic does not depend on where it is sent. */
  lemma AliasFixed(ts: seq<Topic>, i: nat)
    requires i < |ts|
    ensures ts[i] in Table(ts) && Sent(ts, i).alias == Some(Table(ts)[ts[i]])
    ensures Introduces(ts, i) ==> Sent(ts, i).topic == ts[i]
    ensures !Introduces(ts, i) ==> Sent(ts, i).topic == ""
  {
    TableStep(ts, i);
    TableGrows(ts, i + 1, |ts|);
    assert ts[..|ts|] == ts;
    TableFacts(ts[..i]);
    if !Introduces(ts, i) {
      var j :| 0 <= j < i && ts[j] == ts[i];
      assert ts[..i][j] == ts[i];
    }
  }

  /** The first message on its topic: the one that carries it. */
  ghost predicate Introduces(ts: seq<Topic>, i: nat)
    requires i < |ts|
  {
    forall j :: 0 <= j < i ==> ts[j] != ts[i]
  }

  lemma {:induction false} Introducer(ts: seq<Topic>, i: nat) returns (j: nat)
    requires i < |ts|
    ensures j <= i && ts[j] == ts[i] && Introduces(ts, j)
  {
    if Introduces(ts, i) {
      j := i;
    } else {
      var k :| 0 <= k < i && ts[k] == ts[i];
      j := Introducer(ts, k);
    }
  }

  // ---------------------------------------------------------------- the receiving side

  datatype Resolved = Ok(topic: Topic) | InvalidTopicAlias

  class Reader {
    var topicAlias: map<nat, Topic>
    const maxRxTopicAlias: nat

    constructor (maxRxTopicAlias: nat)
      ensures topicAlias == map[] && this.maxRxTopicAlias == maxRxTopicAlias
    {
      topicAlias, this.maxRxTopicAlias := map[], maxRxTopicAlias;
    }

    /** The check on arrival. */
    method OnPublish(w: Wire) returns (ok: bool)
      ensures ok <==> w.alias.None? || 1 <= w.alias.value <= maxRxTopicAlias
    {
      ok := !(w.alias.Some? && (w.alias.value == 0 || w.alias.value > maxRxTopicAlias));
    }

    /** The topic under which the message is published. */
    method PublishToTopic(w: Wire) returns (r: Resolved)
      modifies this
      ensures (topicAlias, r) == Resolve(old(topicAlias), w)
      ensures w.alias.None? ==> r == Ok(w.topic) && topicAlias == old(topicAlias)
      ensures w.alias.Some? && w.topic != "" ==>
                r == Ok(w.topic) && topicAlias == old(topicAlias)[w.alias.value := w.topic]
      ensures w.alias.Some? && w.topic == "" ==>
                && topicAlias == old(topicAlias)
                && r == if w.alias.value in topicAlias then Ok(topicAlias[w.alias.value]) else InvalidTopicAlias
    {
      r := Ok(w.topic);
      if w.alias.Some? {
        if |w.topic| != 0 {
          topicAlias := topicAlias[w.alias.value := w.topic];
        } else if w.alias.value in topicAlias {
          r := Ok(topicAlias[w.alias.value]);
        } else {
          r := InvalidTopicAlias;
        }
      }
    }
  }

  function Resolve(table: map<nat, Topic>, w: Wire): (map<nat, Topic>, Resolved) {
    if w.alias.None? then (table, Ok(w.topic))
    else if w.topic != "" then (table[w.alias.value := w.topic], Ok(w.topic))
    else if w.alias.value in table then (table, Ok(table[w.alias.value]))
    else (table, InvalidTopicAlias)
  }

  // ---------------------------------------------------------------- from end to end

  /** The messages in the order in which they are published: a QoS 2 message only when it is released. */
  ghost predicate Order(ts: seq<Topic>, order: seq<nat>) {
    && (forall k :: 0 <= k < |order| ==> order[k] < |ts|)
    && (forall k :: 0 <= k < |ts| ==> ts[k] != "")
  }

  /** The reader's table after the given messages. */
  function TableAfter(ts: seq<Topic>, order: seq<nat>): map<nat, Topic>
    requires forall k :: 0 <= k < |order| ==> order[k] < |ts|
  {
    if order == [] then map[]
    else Resolve(TableAfter(ts, order[..|order| - 1]), Sent(ts, order[|order| - 1])).0
  }

  ghost predicate Introduced(ts: seq<Topic>, order: seq<nat>, t: Topic)
    requires forall k :: 0 <= k < |order| ==> order[k] < |ts|
  {
    exists k :: 0 <= k < |order| && ts[order[k]] == t && Introduces(ts, order[k])
  }

  lemma IntroducedStep(ts: seq<Topic>, order: seq<nat>, t: Topic)
    requires order != [] && forall k :: 0 <= k < |order| ==> order[k] < |ts|
    ensures var i := order[|order| - 1];
            Introduced(ts, order, t) <==> Introduced(ts, order[..|order| - 1], t) || (ts[i] == t && Introduces(ts, i))
  {
  }

  /** The reader knows a topic, under the alias the writer gave it, exactly when its introduction has been
      published. */
  lemma {:induction false} TablesAgree(ts: seq<Topic>, order: seq<nat>)
    requires Order(ts, order)
    ensures forall t :: t in Table(ts) ==>
              (Table(ts)[t] in TableAfter(ts, order) <==> Introduced(ts, order, t))
              && (Table(ts)[t] in TableAfter(ts, order) ==> TableAfter(ts, order)[Table(ts)[t]] == t)
  {
    TableFacts(ts);
    if order != [] {
      var init, i := order[..|order| - 1], order[|order| - 1];
      TablesAgree(ts, init);
      AliasFixed(ts, i);
      forall t | t in Table(ts)
        ensures Table(ts)[t] in TableAfter(ts, order) <==> Introduced(ts, order, t)
        ensures Table(ts)[t] in TableAfter(ts, order) ==> TableAfter(ts, order)[Table(ts)[t]] == t
      {
        IntroducedStep(ts, order, t);
      }
    }
  }

  /** For every order of publication: a message reaches its own topic exactly when the message that introduced the
      topic is published with or before it, and otherwise it is refused. */
  lemma Delivered(ts: seq<Topic>, order: seq<nat>, i: nat)
    requires Order(ts, order) && i < |ts|
    ensures var r := Resolve(TableAfter(ts, order), Sent(ts, i)).1;
            && (r == Ok(ts[i]) <==> Introduces(ts, i) || Introduced(ts, order, ts[i]))
            && (r != Ok(ts[i]) ==> r == InvalidTopicAlias)
  {
    TablesAgree(ts, order);
    AliasFixed(ts, i);
  }

  /** In the order of sending every message reaches its topic. */
  lemma DeliveredInOrder(ts: seq<Topic>, order: seq<nat>, i: nat)
    requires Order(ts, order) && i < |ts| && |order| == i && forall k :: 0 <= k < i ==> order[k] == k
    ensures Resolve(TableAfter(ts, order), Sent(ts, i)).1 == Ok(ts[i])
  {
    Delivered(ts, order, i);
    var j := Introducer(ts, i);
    if j < i { assert order[j] == j; }
  }

  /** A QoS 2 message introduces a topic only when it is released: a QoS 0 message on the same topic that is sent
      right after it is refused. */
  lemma RefusedBehindQoS2()
    ensures Order(["a", "a"], []) && Resolve(TableAfter(["a", "a"], []), Sent(["a", "a"], 1)).1 == InvalidTopicAlias
  {
  }
}
