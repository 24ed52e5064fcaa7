/** The send limit over whole runs of the writer: quota is spent by each QoS 1 or QoS 2 publish that is taken, and comes
    back with each identifier that is returned. */
module WriterQuota {
  import opened Sequences
  import opened WriterProtocol

  /** Each publish that has left its queue has cost one unit. */
  ghost predicate Spent(s: State, start: int) {
    s.queues.quota + |Of(QoS12, s.log.submitted)| == start + s.released + |s.queues.qos12|
  }

  lemma SendSpends(s: State, t: State, c: nat, p: Packet, start: int)
    requires Spent(s, start) && Send(s, t, c, p)
    ensures Spent(t, start)
  {
    hide Of;
    OfConcat(QoS12, s.log.submitted, [p]);
    OfOne(QoS12, p);
  }

  lemma RoutineSpends(s: State, t: State, r: nat, start: int)
    requires Spent(s, start) && RoutineStep(s, t, r)
    ensures Spent(t, start)
  {
    var m := s.routines[r];
    if PopStep(s, t, r, m) {
      hide Of;
    } else {
      KeepsSpent(s, t, r);
    }
  }

  lemma KeepsSpent(s: State, t: State, r: nat)
    requires RoutineStep(s, t, r) && !PopStep(s, t, r, s.routines[r])
    ensures t.queues == s.queues && t.log.submitted == s.log.submitted && t.released == s.released
  {
    hide PopStep;
    var m := s.routines[r];
    if WriteStep(s, t, r, m) {
      var o :| Written(m, t.routines[r], s.log, t.log, o);
      assert t.log.submitted == s.log.submitted;
    }
  }

  lemma NextSpends(s: State, t: State, start: int)
    requires Spent(s, start) && Next(s, t)
    ensures Spent(t, start)
  {
    hide Of, RoutineStep, Send;
    if c, p :| Send(s, t, c, p) {
      SendSpends(s, t, c, p, start);
    } else if r :| RoutineStep(s, t, r) {
      RoutineSpends(s, t, r, start);
    }
  }

  lemma {:induction false} AlwaysSpent(run: seq<State>, k: nat)
    requires Run(run) && k < |run|
    ensures Spent(run[k], run[0].queues.quota)
  {
    hide Next;
    if k > 0 {
      AlwaysSpent(run, k - 1);
      hide Spent, Init;
      NextSpends(run[k - 1], run[k], run[0].queues.quota);
    }
  }

  /** In every state of every run the quota is what it was at the start, and what has been returned since, less one for
      every QoS 1 or QoS 2 publish that a routine holds or has dealt with; only one routine, if any, holds packets. */
  lemma QuotaSpent(run: seq<State>, k: nat) returns (batch: seq<Packet>)
    requires Run(run) && k < |run|
    ensures var s := run[k];
            && (forall a :: a in s.routines && s.routines[a].batch != [] ==> s.routines[a].batch == batch)
            && (batch == [] || exists a :: a in s.routines && s.routines[a].batch == batch)
            && s.queues.quota >= 0
            && s.queues.quota == run[0].queues.quota + s.released - |Of(QoS12, Packets(s.log.handled) + batch)|
  {
    hide Run, Of, Packets;
    var h, i := InvAlways(run, k);
    AlwaysSpent(run, k);
    var s := run[k];
    batch := BatchOf(s, i);
    OfConcat(QoS12, Packets(s.log.handled), batch);
    assert Queue(s.queues, QoS12) == s.queues.qos12;
    HeldByOne(s, h, i);
  }

  lemma HeldByOne(s: State, h: Who, i: Who)
    requires Inv(s, h, i)
    ensures forall a :: a in s.routines && s.routines[a].batch != [] ==> s.routines[a].batch == BatchOf(s, i)
    ensures BatchOf(s, i) == [] || exists a :: a in s.routines && s.routines[a].batch == BatchOf(s, i)
  {
    hide Accounted, InOrder, Awake;
    forall a | a in s.routines && s.routines[a].batch != [] ensures s.routines[a].batch == BatchOf(s, i) {
      assert Tidy(s.routines[a]);
      ExclusiveAt(s, a, h, i);
    }
  }

  /** Never more than the limit: in every state of every run the QoS 1 and QoS 2 publishes on the wire are no more than
      the quota at the start and the identifiers returned since. */
  lemma SendLimit(run: seq<State>, k: nat)
    requires Run(run) && k < |run|
    ensures |Of(QoS12, run[k].log.wire)| <= run[0].queues.quota + run[k].released
  {
    hide Run, Of, Packets, Live, Subsequence;
    var batch := QuotaSpent(run, k);
    var l := run[k].log;
    WrittenInOrder(run, k, QoS12);
    FewerOf(QoS12, l.wire, Live(l.handled));
    LiveFewer(QoS12, l.handled);
    OfConcat(QoS12, Packets(l.handled), batch);
  }

  /** And never less: where a publish waits although nobody is at work, the writer is alive and no write has failed, the
      limit has been used up to the last unit. */
  lemma LimitUsed(run: seq<State>, k: nat)
    requires Run(run) && k < |run| && AllIdle(run[k]) && run[k].alive && !run[k].log.failed
    requires run[k].queues.qos12 != []
    ensures |Of(QoS12, Packets(run[k].log.handled))| == run[0].queues.quota + run[k].released
  {
    hide Run, Of, Packets, Live;
    var batch := QuotaSpent(run, k);
    NoLostWakeup(run, k);
    assert Packets(run[k].log.handled) + [] == Packets(run[k].log.handled);
  }

  lemma {:induction false} FewerOf(k: Kind, a: seq<Packet>, b: seq<Packet>)
    requires Subsequence(a, b)
    ensures |Of(k, a)| <= |Of(k, b)|
  {
    if a != [] {
      if Subsequence(a, b[1..]) {
        FewerOf(k, a, b[1..]);
      } else {
        FewerOf(k, a[1..], b[1..]);
      }
    }
  }

  lemma {:induction false} LiveFewer(k: Kind, hs: seq<Handled>)
    ensures |Of(k, Live(hs))| <= |Of(k, Packets(hs))|
  {
    if hs != [] {
      LiveFewer(k, hs[1..]);
      var first, rest := [hs[0]], hs[1..];
      assert hs == first + rest;
      HandledConcat(first, rest);
      HandledOne(hs[0]);
      hide Of, Packets, Live;
      OfConcat(k, Packets(first), Packets(rest));
      OfConcat(k, Live(first), Live(rest));
      OfOne(k, hs[0].packet);
    }
  }
}
