/** The writer comes to rest: without further calls every step of an actor brings it closer to the state in which nobody
    is at work. */
module WriterRest {
  import opened Sequences
  import opened WriterProtocol

  /** A step of a caller that has begun or of a routine: neither a new call nor `stop`. */
  ghost predicate Work(s: State, t: State) {
    (exists c, r :: CallerStep(s, t, c, r)) || exists r :: RoutineStep(s, t, r)
  }

  // ---------------------------------------------------------------- sums over maps

  ghost function Pick<T>(m: map<nat, T>): nat
    requires m != map[]
  {
    var k :| k in m; k
  }

  ghost function Total<T>(f: T -> nat, m: map<nat, T>): nat
    decreases |m|
  {
    if m == map[] then 0 else f(m[Pick(m)]) + Total(f, m - {Pick(m)})
  }

  lemma {:induction false} TotalWithout<T>(f: T -> nat, m: map<nat, T>, k: nat)
    requires k in m
    ensures Total(f, m) == f(m[k]) + Total(f, m - {k})
    decreases |m|
  {
    var j := Pick(m);
    if j != k {
      TotalWithout(f, m - {j}, k);
      TotalWithout(f, m - {k}, j);
      assert (m - {j}) - {k} == (m - {k}) - {j};
    }
  }

  lemma TotalSet<T>(f: T -> nat, m: map<nat, T>, k: nat, v: T)
    ensures Total(f, m[k := v]) == f(v) + Total(f, m - {k})
    ensures k !in m ==> m - {k} == m
  {
    TotalWithout(f, m[k := v], k);
    assert m[k := v] - {k} == m - {k};
  }

  // ---------------------------------------------------------------- the measure

  function Waiting(q: Queues): nat { |q.general| + |q.qos12| + |q.qos0| }

  /** A packet that a routine would still take. */
  predicate Quota12(q: Queues) { q.quota > 0 && q.qos12 != [] }
  predicate Available(q: Queues) { q.general != [] || q.qos0 != [] || Quota12(q) }

  /** A routine that has passed by a packet, or seen one after it has drained, may start another one. */
  predicate MayRestart(m: Routine, q: Queues, alive: bool) {
    match m.pc
    case CheckQuota => alive && m.batch == [] && q.general != []
    case PopQoS12 => alive && m.batch == [] && q.general != []
    case PopQoS0 => alive && m.batch == [] && (q.general != [] || Quota12(q))
    case Test => alive && m.batch == [] && Available(q)
    case Clearing(failed) => alive && !failed && Available(q)
    case Flush => alive && Available(q)
    case Flushing => alive && Available(q)
    case AnyGeneral => alive && Available(q)
    case AnyQoS0 => alive && (q.qos0 != [] || Quota12(q))
    case AnyQuota => alive && Quota12(q)
    case AnyQoS12 => alive && q.qos12 != []
    case Restarting => alive
    case Reswapping => true
    case _ => false
  }

  function Rank(pc: Pc): nat {
    match pc
    case Waiting => 30
    case Started => 29
    case Joining => 28
    case Writing => 28
    case Loop => 27
    case PopGeneral => 26
    case CheckQuota => 25
    case PopQoS12 => 24
    case PopQoS0 => 23
    case Test => 22
    case Clearing(_) => 21
    case Flush => 20
    case Flushing => 19
    case AnyGeneral => 18
    case AnyQoS0 => 17
    case AnyQuota => 16
    case AnyQoS12 => 15
    case Restarting => 14
    case Reswapping => 13
    case Leaving => 1
  }

  /** The steps a routine may still take, those of a routine it starts included, while it takes no packet. */
  function Ahead(m: Routine, q: Queues, alive: bool): nat {
    Rank(m.pc)
    + (if m.batch == [] then 0 else 2 * |m.batch| + (if m.pc.Writing? then 0 else 40))
    + (if MayRestart(m, q, alive) then 40 else 0)
  }

  function CallAhead(c: Caller): nat {
    match c
    case Resting => 0
    case Signalling => 33
    case Starting => 32
    case Swapping => 31
  }

  ghost function Left(s: State): nat {
    Total(CallAhead, s.callers) + Total((m: Routine) => Ahead(m, s.queues, s.alive), s.routines)
  }

  ghost predicate Closer(s: State, t: State) {
    Waiting(t.queues) < Waiting(s.queues) || (Waiting(t.queues) == Waiting(s.queues) && Left(t) < Left(s))
  }

  // ---------------------------------------------------------------- every step leads closer

  lemma CallerCloser(s: State, t: State, c: nat, r: nat)
    requires CallerStep(s, t, c, r)
    ensures Closer(s, t)
  {
    hide Total;
    var f := (m: Routine) => Ahead(m, s.queues, s.alive);
    TotalWithout(CallAhead, s.callers, c);
    TotalSet(CallAhead, s.callers, c, t.callers[c]);
    if t.routines != s.routines {
      TotalSet(f, s.routines, r, Routine(Pc.Waiting, [], []));
    }
  }

  /** One routine has moved on without taking a packet, and perhaps started another. */
  lemma RoutineCloser(s: State, t: State, r: nat, m: Routine)
    requires r in s.routines && t.callers == s.callers && t.queues == s.queues && t.alive == s.alive
    requires t.routines == s.routines[r := m] && Ahead(m, s.queues, s.alive) < Ahead(s.routines[r], s.queues, s.alive)
    ensures Closer(s, t)
  {
    hide Total;
    var f := (m: Routine) => Ahead(m, s.queues, s.alive);
    TotalWithout(f, s.routines, r);
    TotalSet(f, s.routines, r, m);
  }

  lemma ExitCloser(s: State, t: State, r: nat)
    requires r in s.routines && t.callers == s.callers && t.queues == s.queues && t.alive == s.alive
    requires t.routines == s.routines - {r}
    ensures Closer(s, t)
  {
    hide Total;
    TotalWithout((m: Routine) => Ahead(m, s.queues, s.alive), s.routines, r);
  }

  lemma SpawnCloser(s: State, t: State, r: nat, n: nat, m: Routine)
    requires r in s.routines && n !in s.routines && t.callers == s.callers && t.queues == s.queues && t.alive == s.alive
    requires t.routines == s.routines[r := m][n := Routine(Pc.Waiting, [], [])]
    requires Ahead(m, s.queues, s.alive) + 30 < Ahead(s.routines[r], s.queues, s.alive)
    ensures Closer(s, t)
  {
    hide Total;
    var f := (m: Routine) => Ahead(m, s.queues, s.alive);
    TotalWithout(f, s.routines, r);
    TotalSet(f, s.routines, r, m);
    TotalSet(f, s.routines[r := m], n, Routine(Pc.Waiting, [], []));
  }

  lemma PopCloser(s: State, t: State, r: nat)
    requires r in s.routines && PopStep(s, t, r, s.routines[r])
    ensures Closer(s, t)
  {
    hide Left;
    if t.queues == s.queues {
      RoutineCloser(s, t, r, t.routines[r]);
    }
  }

  lemma LookCloser(s: State, t: State, r: nat)
    requires r in s.routines && LookStep(s, t, r, s.routines[r])
    ensures Closer(s, t)
  {
    hide Left;
    RoutineCloser(s, t, r, t.routines[r]);
  }

  lemma WriteCloser(s: State, t: State, r: nat)
    requires r in s.routines && WriteStep(s, t, r, s.routines[r])
    ensures Closer(s, t)
  {
    hide Left;
    RoutineCloser(s, t, r, t.routines[r]);
  }

  lemma FlushCloser(s: State, t: State, r: nat, k: nat)
    requires r in s.routines && FlushStep(s, t, r, s.routines[r], k)
    ensures Closer(s, t)
  {
    hide Left;
    RoutineCloser(s, t, r, t.routines[r]);
  }

  lemma SyncCloser(s: State, t: State, r: nat, n: nat)
    requires r in s.routines && SyncStep(s, t, r, s.routines[r], n)
    ensures Closer(s, t)
  {
    hide Left, Closer;
    if s.routines[r].pc.Reswapping? {
      SwapCloser(s, t, r, n);
    } else if r !in t.routines {
      ExitCloser(s, t, r);
    } else {
      RoutineCloser(s, t, r, t.routines[r]);
    }
  }

  /** Trying to start another routine. */
  lemma SwapCloser(s: State, t: State, r: nat, n: nat)
    requires r in s.routines && s.routines[r].pc.Reswapping? && SyncStep(s, t, r, s.routines[r], n)
    ensures Closer(s, t)
  {
    hide Left, Closer;
    if s.running {
      RoutineCloser(s, t, r, t.routines[r]);
    } else {
      SpawnCloser(s, t, r, n, t.routines[r]);
    }
  }

  /** Every step of work leads closer to rest, whatever state it starts from. */
  lemma WorkEnds(s: State, t: State)
    requires Work(s, t)
    ensures Closer(s, t)
  {
    hide Closer, PopStep, LookStep, WriteStep, FlushStep, SyncStep, CallerStep;
    if c, r :| CallerStep(s, t, c, r) {
      CallerCloser(s, t, c, r);
    } else {
      var r :| RoutineStep(s, t, r);
      var m := s.routines[r];
      if PopStep(s, t, r, m) {
        PopCloser(s, t, r);
      } else if LookStep(s, t, r, m) {
        LookCloser(s, t, r);
      } else if WriteStep(s, t, r, m) {
        WriteCloser(s, t, r);
      } else if k :| FlushStep(s, t, r, m, k) {
        FlushCloser(s, t, r, k);
      } else {
        var n :| SyncStep(s, t, r, m, n);
        SyncCloser(s, t, r, n);
      }
    }
  }

  /** From every state that a run reaches, work alone leads to the state in which nobody is at work; so what
      `NoLostWakeup` says of that state comes true. */
  lemma {:induction false} ComesToRest(run: seq<State>) returns (longer: seq<State>)
    requires Run(run)
    ensures Run(longer) && run <= longer && AllIdle(longer[|longer| - 1])
    ensures forall k :: |run| - 1 <= k < |longer| - 1 ==> Work(longer[k], longer[k + 1])
    decreases Waiting(run[|run| - 1].queues), Left(run[|run| - 1])
  {
    hide AllIdle, Left, Next, Init, CallerStep, RoutineStep, Waiting;
    var s := run[|run| - 1];
    longer := run;
    if !AllIdle(s) {
      NoDeadlock(run, |run| - 1);
      var t := SomeWork(s);
      WorkEnds(s, t);
      WorkIsNext(s, t);
      longer := ComesToRest(run + [t]);
      assert longer[|run| - 1] == s && longer[|run|] == t;
    }
  }

  lemma SomeWork(s: State) returns (t: State)
    requires (exists t, c, r :: CallerStep(s, t, c, r)) || exists t, r :: RoutineStep(s, t, r)
    ensures Work(s, t)
  {
    hide CallerStep, RoutineStep;
    if u, c, r :| CallerStep(s, u, c, r) {
      t := u;
    } else {
      var u, r :| RoutineStep(s, u, r);
      t := u;
    }
  }

  lemma WorkIsNext(s: State, t: State)
    requires Work(s, t)
    ensures Next(s, t)
  {
    hide CallerStep, RoutineStep;
  }
}
