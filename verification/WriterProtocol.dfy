/** The writer of one connection (`writer.go`) as a step system: any number of callers that queue packets or
    release packet identifiers, and the writing routines they start, interleaved between any two accesses to
    shared state. */
module WriterProtocol {
  import opened Sequences

  datatype Kind = General | QoS12 | QoS0

  datatype Packet = Packet(kind: Kind, content: nat)

  /** A packet the routine has dealt with: written, unless it had expired. */
  datatype Handled = Handled(packet: Packet, expired: bool)

  /** Where a caller is: in signalTxQuotaAvailable, before isAlive in run, before the compare-and-swap. */
  datatype Caller = Resting | Signalling | Starting | Swapping

  datatype Pc =
    | Waiting                      // for the previous routine
    | Started | Joining            // isAlive, wgRunSync.Add
    | Loop | PopGeneral | CheckQuota | PopQoS12 | PopQoS0 | Test | Writing
    | Clearing(failed: bool)       // deferred: running is still set
    | Flush | Flushing
    | AnyGeneral | AnyQoS0 | AnyQuota | AnyQoS12
    | Restarting | Reswapping      // run, from the routine itself
    | Leaving                      // wgRunSync.Done

  datatype Routine = Routine(pc: Pc, batch: seq<Packet>, buf: seq<Packet>)

  datatype Queues = Queues(general: seq<Packet>, qos12: seq<Packet>, qos0: seq<Packet>, quota: int)

  /** Histories: `failed` and `gap` record that writing a packet, or writing or flushing one, has failed;
      `cut` that a routine has dropped its buffer after `stop`. */
  datatype Log = Log(submitted: seq<Packet>, handled: seq<Handled>, wire: seq<Packet>, failed: bool,
      gap: bool, cut: bool)

  /** `released`: how many identifiers have been returned. */
  datatype State = State(queues: Queues, log: Log, running: bool, alive: bool, wg: int, callers: map<nat, Caller>,
      routines: map<nat, Routine>, released: nat)

  ghost predicate Init(s: State) {
    && s.queues.quota >= 0
    && (forall c :: c in s.callers ==> s.callers[c] == Resting)
    && s == State(Queues([], [], [], s.queues.quota), Log([], [], [], false, false, false), false, true, 0,
        s.callers, map[], 0)
  }

  // ---------------------------------------------------------------- steps of callers

  function At(s: State, c: nat, pc: Caller): State { s.(callers := s.callers[c := pc]) }

  function Queue(q: Queues, k: Kind): seq<Packet> {
    match k case General => q.general case QoS12 => q.qos12 case QoS0 => q.qos0
  }

  function Enqueue(q: Queues, p: Packet): Queues {
    match p.kind
    case General => q.(general := q.general + [p])
    case QoS12 => q.(qos12 := q.qos12 + [p])
    case QoS0 => q.(qos0 := q.qos0 + [p])
  }

  function Spawn(s: State, r: nat): State {
    s.(running := true, routines := s.routines[r := Routine(Waiting, [], [])])
  }

  ghost predicate Send(s: State, t: State, c: nat, p: Packet) {
    && c in s.callers && s.callers[c] == Resting
    && t == At(s.(queues := Enqueue(s.queues, p), log := s.log.(submitted := s.log.submitted + [p])), c, Starting)
  }

  /** An acknowledgement returns an identifier; only the step from 0 to 1 signals. */
  ghost predicate Release(s: State, t: State, c: nat) {
    && c in s.callers && s.callers[c] == Resting
    && t == At(s.(queues := s.queues.(quota := s.queues.quota + 1), released := s.released + 1), c,
               if s.queues.quota == 0 then Signalling else Resting)
  }

  /** `r` is the name of the routine that a successful compare-and-swap starts. */
  ghost predicate CallerStep(s: State, t: State, c: nat, r: nat) {
    && c in s.callers
    && match s.callers[c]
       case Resting => false
       case Signalling => t == At(s, c, if s.queues.qos12 != [] then Starting else Resting)
       case Starting => t == At(s, c, if s.alive then Swapping else Resting)
       case Swapping =>
         if s.running then t == At(s, c, Resting)
         else r !in s.routines && t == Spawn(At(s, c, Resting), r)
  }

  // ---------------------------------------------------------------- steps of routines

  function Go(s: State, r: nat, m: Routine): State { s.(routines := s.routines[r := m]) }

  function Exit(s: State, r: nat): State { s.(routines := s.routines - {r}) }

  /** How writing goes: the packet has expired, the buffer passes `k` packets on, or that fails after `k`. */
  datatype Outcome = Expire | Pass(k: nat) | Fail(k: nat)

  function Unwritten(batch: seq<Packet>): seq<Handled> { Flatten((p: Packet) => [Handled(p, false)], batch) }

  /** What writing the first packet of the batch does to the routine and to the log. */
  ghost predicate Written(m: Routine, m': Routine, l: Log, l': Log, o: Outcome)
    requires m.batch != []
  {
    var p, rest := m.batch[0], m.batch[1..];
    match o
    case Expire => p.kind != General && m' == m.(batch := rest) && l' == l.(handled := l.handled + [Handled(p, true)])
    case Pass(k) =>
      var buf := m.buf + [p];
      k <= |buf| && m' == m.(batch := rest, buf := buf[k..]) &&
          l' == l.(handled := l.handled + [Handled(p, false)], wire := l.wire + buf[..k])
    case Fail(k) =>
      && k <= |m.buf| && m' == Routine(Clearing(true), [], [])
      && l' == l.(handled := l.handled + Unwritten(m.batch), wire := l.wire + m.buf[..k], failed := true, gap := true)
  }

  ghost predicate WriteStep(s: State, t: State, r: nat, m: Routine) {
    && m.pc == Writing && m.batch != [] && r in t.routines
    && (exists o :: Written(m, t.routines[r], s.log, t.log, o))
    && t == Go(s.(log := t.log), r, t.routines[r])
  }

  /** popPackets: at most one packet of each kind, one of the second kind only within the quota. */
  ghost predicate Popped(m: Routine, m': Routine, q: Queues, q': Queues) {
    match m.pc
    case PopGeneral =>
      if q.general == [] then m' == m.(pc := CheckQuota) && q' == q
      else m' == m.(pc := CheckQuota, batch := m.batch + [q.general[0]]) && q' == q.(general := q.general[1..])
    case PopQoS12 =>
      if q.qos12 == [] then m' == m.(pc := PopQoS0) && q' == q
      else
        && m' == m.(pc := PopQoS0, batch := m.batch + [q.qos12[0]])
        && q' == q.(qos12 := q.qos12[1..], quota := q.quota - 1)
    case PopQoS0 =>
      if q.qos0 == [] then m' == m.(pc := Test) && q' == q
      else m' == m.(pc := Test, batch := m.batch + [q.qos0[0]]) && q' == q.(qos0 := q.qos0[1..])
    case _ => false
  }

  ghost predicate PopStep(s: State, t: State, r: nat, m: Routine) {
    && r in t.routines && Popped(m, t.routines[r], s.queues, t.queues)
    && t == Go(s.(queues := t.queues), r, t.routines[r])
  }

  ghost predicate FlushStep(s: State, t: State, r: nat, m: Routine, k: nat) {
    match m.pc
    case Flush =>
      if s.alive then t == Go(s, r, m.(pc := Flushing))
          else t == Go(s.(log := s.log.(cut := true)), r, m.(pc := AnyGeneral, buf := []))
    case Flushing =>
      && k <= |m.buf|
      && t == Go(s.(log := s.log.(wire := s.log.wire + m.buf[..k], gap := s.log.gap || k < |m.buf|)), r,
          m.(pc := AnyGeneral, buf := []))
    case _ => false
  }

  /** Where a step that only looks leads. */
  function Look(m: Routine, q: Queues, alive: bool): Pc {
    match m.pc
    case Loop => if alive then PopGeneral else Test
    case CheckQuota => if q.quota > 0 then PopQoS12 else PopQoS0
    case Test => if m.batch == [] then Clearing(false) else Writing
    case Writing => if m.batch == [] then Loop else Writing
    case AnyGeneral => if q.general != [] then Restarting else AnyQoS0
    case AnyQoS0 => if q.qos0 != [] then Restarting else AnyQuota
    case AnyQuota => if q.quota > 0 then AnyQoS12 else Leaving
    case AnyQoS12 => if q.qos12 != [] then Restarting else Leaving
    case Restarting => if alive then Reswapping else Leaving
    case pc => pc
  }

  ghost predicate LookStep(s: State, t: State, r: nat, m: Routine) {
    Look(m, s.queues, s.alive) != m.pc && t == Go(s, r, m.(pc := Look(m, s.queues, s.alive)))
  }

  /** Steps on the running flag and the wait group. */
  ghost predicate SyncStep(s: State, t: State, r: nat, m: Routine, n: nat) {
    match m.pc
    case Waiting => s.wg == 0 && t == Go(s, r, m.(pc := Started))
    case Started => if s.alive then t == Go(s, r, m.(pc := Joining)) else t == Exit(s, r)
    case Joining => t == Go(s.(wg := s.wg + 1), r, m.(pc := Loop))
    case Clearing(err) => t == Go(s.(running := false), r, m.(pc := if err then Leaving else Flush))
    case Reswapping =>
      if s.running then t == Go(s, r, m.(pc := Leaving))
      else n !in s.routines && t == Spawn(Go(s, r, m.(pc := Leaving)), n)
    case Leaving => t == Exit(s.(wg := s.wg - 1), r)
    case _ => false
  }

  ghost predicate RoutineStep(s: State, t: State, r: nat) {
    && r in s.routines
    && var m := s.routines[r];
       || PopStep(s, t, r, m) || LookStep(s, t, r, m) || WriteStep(s, t, r, m)
       || (exists k :: FlushStep(s, t, r, m, k))
       || (exists n :: SyncStep(s, t, r, m, n))
  }

  ghost predicate Next(s: State, t: State) {
    || (exists c, p :: Send(s, t, c, p)) || (exists c :: Release(s, t, c))
    || (exists c, r :: CallerStep(s, t, c, r)) || (exists r :: RoutineStep(s, t, r))
    || t == s.(alive := false)
  }

  // ---------------------------------------------------------------- one writer at a time

  /** Before the running flag is cleared. */
  predicate Holds(pc: Pc) {
    pc.Waiting? || pc.Started? || pc.Joining? || Draining(pc)
  }

  predicate Draining(pc: Pc) {
    pc.Loop? || pc.PopGeneral? || pc.CheckQuota? || pc.PopQoS12? || pc.PopQoS0? || pc.Test? || pc.Writing? ||
        pc.Clearing?
  }

  /** Between wgRunSync.Add and wgRunSync.Done. */
  predicate Inside(pc: Pc) {
    !pc.Waiting? && !pc.Started? && !pc.Joining?
  }

  datatype Who = Nobody | The(r: nat)

  /** The routine that holds the running flag is `h`, the one between Add and Done is `i`, and a routine that
      has seen the wait group at zero has it to itself. */
  ghost predicate Exclusive(s: State, h: Who, i: Who) {
    && (forall a :: a in s.routines ==> (Holds(s.routines[a].pc) <==> h == The(a)))
    && (forall a :: a in s.routines ==> (Inside(s.routines[a].pc) <==> i == The(a)))
    && (h.The? ==> h.r in s.routines && s.running) && (i.The? ==> i.r in s.routines)
    && (s.alive && s.running ==> h.The?)
    && s.wg == (if i.The? then 1 else 0)
    && (forall a :: a in s.routines && (s.routines[a].pc == Started || s.routines[a].pc == Joining) ==> i == Nobody)
  }

  function After(w: Who, r: nat, holds: bool): Who {
    if holds then The(r) else if w == The(r) then Nobody else w
  }

  /** One routine has come to another place. */
  lemma ExclusiveGo(s: State, t: State, r: nat, m: Routine, h: Who, i: Who)
    requires Exclusive(s, h, i) && t.routines == s.routines[r := m]
    requires Holds(m.pc) ==> h == After(h, r, true) || h == Nobody
    requires Inside(m.pc) ==> i == After(i, r, true) || i == Nobody
    requires Holds(m.pc) ==> t.running
    requires t.alive ==> s.alive
    requires t.running == (if Holds(m.pc) then true else if h == The(r) then false else s.running)
    requires t.wg == if After(i, r, Inside(m.pc)).The? then 1 else 0
    requires m.pc == Started || m.pc == Joining ==> i == Nobody
    requires Inside(m.pc) ==> i == The(r) || forall a :: a in s.routines && a != r ==>
               s.routines[a].pc != Started && s.routines[a].pc != Joining
    ensures Exclusive(t, After(h, r, Holds(m.pc)), After(i, r, Inside(m.pc)))
  {
  }

  /** What the invariant says of one routine. */
  lemma ExclusiveAt(s: State, r: nat, h: Who, i: Who)
    requires Exclusive(s, h, i)
    ensures r in s.routines ==>
              (Holds(s.routines[r].pc) <==> h == The(r)) && (Inside(s.routines[r].pc) <==> i == The(r))
    ensures r in s.routines && (s.routines[r].pc == Started || s.routines[r].pc == Joining) ==> i == Nobody
    ensures r !in s.routines ==> h != The(r) && i != The(r)
    ensures h.The? ==> h.r in s.routines && s.running
    ensures !s.running ==> h == Nobody
    ensures s.wg == if i.The? then 1 else 0
  {
  }

  lemma ExclusiveWait(s: State, h: Who, i: Who)
    requires Exclusive(s, h, i)
    ensures forall a :: a in s.routines && h != The(a) ==> s.routines[a].pc != Started && s.routines[a].pc != Joining
  {
  }

  lemma ExclusiveCaller(s: State, t: State, c: nat, r: nat, h: Who, i: Who) returns (h': Who)
    requires Exclusive(s, h, i) && CallerStep(s, t, c, r)
    ensures Exclusive(t, h', i)
  {
    hide Exclusive;
    ExclusiveAt(s, r, h, i);
    if t.running != s.running {
      ExclusiveGo(s, t, r, Routine(Waiting, [], []), h, i);
      h' := The(r);
    } else {
      ExclusiveSame(s, t, h, i);
      h' := h;
    }
  }

  lemma ExclusiveSame(s: State, t: State, h: Who, i: Who)
    requires Exclusive(s, h, i) && t.routines == s.routines && t.running == s.running && t.wg == s.wg &&
               (t.alive ==> s.alive)
    ensures Exclusive(t, h, i)
  {
  }

  lemma ExclusiveExit(s: State, t: State, r: nat, h: Who, i: Who)
    requires Exclusive(s, h, i) && r in s.routines && t.routines == s.routines - {r} && t.running == s.running &&
               t.alive == s.alive
    requires t.wg == (if i.The? && i.r != r then 1 else 0) && (h == The(r) ==> !t.alive)
    ensures Exclusive(t, After(h, r, false), After(i, r, false))
  {
  }

  lemma ExclusiveSync(s: State, t: State, r: nat, n: nat, h: Who, i: Who) returns (h': Who, i': Who)
    requires Exclusive(s, h, i) && r in s.routines && SyncStep(s, t, r, s.routines[r], n)
    ensures Exclusive(t, h', i')
  {
    hide Exclusive;
    ExclusiveAt(s, r, h, i);
    ExclusiveWait(s, h, i);
    if r !in t.routines {
      ExclusiveExit(s, t, r, h, i);
      h', i' := After(h, r, false), After(i, r, false);
    } else if t.running && !s.running {
      var u := Go(s, r, s.routines[r].(pc := Leaving));
      ExclusiveGo(s, u, r, u.routines[r], h, i);
      ExclusiveAt(u, n, h, i);
      ExclusiveGo(u, t, n, Routine(Waiting, [], []), h, i);
      h', i' := The(n), i;
    } else {
      ExclusiveGo(s, t, r, t.routines[r], h, i);
      h', i' := After(h, r, Holds(t.routines[r].pc)), After(i, r, Inside(t.routines[r].pc));
    }
  }

  lemma ExclusiveOther(s: State, t: State, r: nat, h: Who, i: Who)
    requires Exclusive(s, h, i) && r in s.routines && r in t.routines
    requires Inside(s.routines[r].pc) && Inside(t.routines[r].pc) && Holds(s.routines[r].pc) == Holds(t.routines[r].pc)
    requires t.routines == s.routines[r := t.routines[r]] && t.running == s.running && t.wg == s.wg &&
               t.alive == s.alive
    ensures Exclusive(t, h, i)
  {
  }

  // ---------------------------------------------------------------- no lost wake-up

  ghost predicate Calling(callers: map<nat, Caller>) {
    exists c :: c in callers && (callers[c] == Starting || callers[c] == Swapping)
  }

  ghost predicate Signalled(callers: map<nat, Caller>) {
    exists c :: c in callers && callers[c] == Signalling
  }

  lemma CallerMoves(m: map<nat, Caller>, c: nat, pc: Caller)
    requires c in m
    ensures pc == Starting || pc == Swapping ==> Calling(m[c := pc])
    ensures pc == Signalling ==> Signalled(m[c := pc])
    ensures Calling(m) && m[c] != Starting && m[c] != Swapping ==> Calling(m[c := pc])
    ensures Signalled(m) && m[c] != Signalling ==> Signalled(m[c := pc])
  {
    var n := m[c := pc];
    assert c in n && n[c] == pc;
    if d :| d in m && d != c && (m[d] == Starting || m[d] == Swapping) {
      assert d in n && n[d] == m[d];
    }
    if d :| d in m && d != c && m[d] == Signalling {
      assert d in n && n[d] == m[d];
    }
  }

  /** Where the routine between Add and Done is. */
  function Place(s: State, i: Who): Pc {
    if i.The? && i.r in s.routines then s.routines[i.r].pc else Leaving
  }

  /** Whatever waits, somebody is still going to look at it. */
  ghost predicate Attended(q: Queues, held: bool, pc: Pc, callers: map<nat, Caller>) {
    var awake := held || pc.Flush? || pc.Flushing? || pc.AnyGeneral? || pc.Restarting? || pc.Reswapping? ||
        Calling(callers);
    && (q.general != [] ==> awake)
    && (q.qos0 != [] ==> awake || pc.AnyQoS0?)
    && (q.qos12 != [] && q.quota > 0 ==> awake || pc.AnyQoS0? || pc.AnyQuota? || pc.AnyQoS12? || Signalled(callers))
  }

  ghost predicate Awake(s: State, h: Who, i: Who) {
    && s.queues.quota >= 0 && (Place(s, i).PopQoS12? ==> s.queues.quota > 0)
    && (s.alive && !s.log.failed ==> Attended(s.queues, h.The?, Place(s, i), s.callers))
    && (Place(s, i) == Clearing(true) ==> s.log.failed)
  }

  lemma SendAwake(s: State, t: State, c: nat, p: Packet, h: Who, i: Who)
    requires Awake(s, h, i) && Send(s, t, c, p)
    ensures Awake(t, h, i)
  {
    CallerMoves(s.callers, c, Starting);
  }

  lemma ReleaseAwake(s: State, t: State, c: nat, h: Who, i: Who)
    requires Awake(s, h, i) && Release(s, t, c)
    ensures Awake(t, h, i)
  {
    CallerMoves(s.callers, c, t.callers[c]);
  }

  lemma CallerAwake(s: State, t: State, c: nat, r: nat, h: Who, i: Who, h': Who)
    requires Awake(s, h, i) && Exclusive(s, h, i) && CallerStep(s, t, c, r) && Exclusive(t, h', i)
    ensures Awake(t, h', i)
  {
    CallerMoves(s.callers, c, t.callers[c]);
    ExclusivePlaces(s, h, i);
    ExclusivePlaces(t, h', i);
  }

  lemma ExclusivePlaces(s: State, h: Who, i: Who)
    requires Exclusive(s, h, i)
    ensures s.alive ==> (s.running <==> h.The?)
    ensures Draining(Place(s, i)) ==> h == i && h.The?
    ensures h.The? && h != i ==> h.r in s.routines && !Inside(s.routines[h.r].pc)
  {
  }

  /** A step of the routine between Add and Done that touches neither the running flag nor the wait group. */
  ghost predicate InsideStep(s: State, t: State, r: nat) {
    && r in s.routines
    && (PopStep(s, t, r, s.routines[r]) || LookStep(s, t, r, s.routines[r]) || WriteStep(s, t, r, s.routines[r])
        || exists k :: FlushStep(s, t, r, s.routines[r], k))
  }

  ghost predicate Moved(s: State, t: State, r: nat) {
    && r in s.routines && r in t.routines && t.routines == s.routines[r := t.routines[r]]
    && t.running == s.running && t.wg == s.wg && t.alive == s.alive && t.callers == s.callers
    && Inside(s.routines[r].pc) && Inside(t.routines[r].pc)
    && Holds(s.routines[r].pc) == Holds(t.routines[r].pc) && Draining(s.routines[r].pc) == Draining(t.routines[r].pc)
  }

  lemma PopMoves(s: State, t: State, r: nat)
    requires r in s.routines && PopStep(s, t, r, s.routines[r])
    ensures Moved(s, t, r)
  {
  }

  lemma LookMoves(s: State, t: State, r: nat)
    requires r in s.routines && LookStep(s, t, r, s.routines[r])
    ensures Moved(s, t, r)
  {
  }

  lemma WriteMoves(s: State, t: State, r: nat)
    requires r in s.routines && WriteStep(s, t, r, s.routines[r])
    ensures Moved(s, t, r)
  {
  }

  lemma InsideMoves(s: State, t: State, r: nat)
    requires InsideStep(s, t, r)
    ensures Moved(s, t, r)
  {
    hide Moved, PopStep, LookStep, WriteStep, FlushStep;
    if PopStep(s, t, r, s.routines[r]) {
      PopMoves(s, t, r);
    } else if LookStep(s, t, r, s.routines[r]) {
      LookMoves(s, t, r);
    } else if WriteStep(s, t, r, s.routines[r]) {
      WriteMoves(s, t, r);
    } else {
      var k :| FlushStep(s, t, r, s.routines[r], k);
      FlushMoves(s, t, r, k);
    }
  }

  lemma FlushMoves(s: State, t: State, r: nat, k: nat)
    requires r in s.routines && FlushStep(s, t, r, s.routines[r], k)
    ensures Moved(s, t, r)
  {
  }

  lemma InsideExclusive(s: State, t: State, r: nat, h: Who, i: Who)
    requires Exclusive(s, h, i) && InsideStep(s, t, r)
    ensures Exclusive(t, h, i) && i == The(r)
  {
    hide Exclusive, InsideStep;
    InsideMoves(s, t, r);
    ExclusiveAt(s, r, h, i);
    ExclusiveOther(s, t, r, h, i);
  }

  lemma InsideAwake(s: State, t: State, r: nat, h: Who)
    requires Awake(s, h, The(r)) && InsideStep(s, t, r) && (Draining(s.routines[r].pc) ==> h.The?)
    ensures Awake(t, h, The(r))
  {
    hide Calling, Signalled, LookStep, PopStep, WriteStep, Awake;
    var m := s.routines[r];
    if LookStep(s, t, r, m) {
      LookAwake(s, t, r, h);
    } else if PopStep(s, t, r, m) {
      PopAwake(s, t, r, h);
    } else if WriteStep(s, t, r, m) {
      WriteAwake(s, t, r, h);
    } else {
      FlushAwake(s, t, r, h);
    }
  }

  lemma LookAwake(s: State, t: State, r: nat, h: Who)
    requires Awake(s, h, The(r)) && r in s.routines && LookStep(s, t, r, s.routines[r])
    requires Draining(s.routines[r].pc) ==> h.The?
    ensures Awake(t, h, The(r))
  {
    hide Calling, Signalled;
    assert t.queues == s.queues && t.log == s.log;
  }

  lemma PopAwake(s: State, t: State, r: nat, h: Who)
    requires Awake(s, h, The(r)) && r in s.routines && PopStep(s, t, r, s.routines[r])
    requires Draining(s.routines[r].pc) ==> h.The?
    ensures Awake(t, h, The(r))
  {
    hide Calling, Signalled;
    assert t.log == s.log && h.The?;
  }

  lemma WriteAwake(s: State, t: State, r: nat, h: Who)
    requires Awake(s, h, The(r)) && r in s.routines && WriteStep(s, t, r, s.routines[r])
    requires Draining(s.routines[r].pc) ==> h.The?
    ensures Awake(t, h, The(r))
  {
    hide Calling, Signalled;
    assert t.queues == s.queues && h.The?;
  }

  lemma FlushAwake(s: State, t: State, r: nat, h: Who)
    requires Awake(s, h, The(r)) && r in s.routines && exists k :: FlushStep(s, t, r, s.routines[r], k)
    ensures Awake(t, h, The(r))
  {
    hide Calling, Signalled;
    assert t.queues == s.queues && t.log.failed == s.log.failed;
  }

  lemma SyncAwake(s: State, t: State, r: nat, n: nat, h: Who, i: Who, h': Who, i': Who)
    requires Awake(s, h, i) && Exclusive(s, h, i) && Exclusive(t, h', i')
    requires r in s.routines && SyncStep(s, t, r, s.routines[r], n)
    ensures Awake(t, h', i')
  {
    hide Exclusive, Calling, Signalled;
    ExclusivePlaces(s, h, i);
    ExclusivePlaces(t, h', i');
    ExclusiveAt(s, r, h, i);
    ExclusiveAt(t, r, h', i');
  }

  // ---------------------------------------------------------------- order of what is written

  function Of(k: Kind, ps: seq<Packet>): seq<Packet> { Flatten((p: Packet) => if p.kind == k then [p] else [], ps) }

  function Packets(hs: seq<Handled>): seq<Packet> { Flatten((h: Handled) => [h.packet], hs) }

  /** The packets that had not expired. */
  function Live(hs: seq<Handled>): seq<Packet> { Flatten((h: Handled) => if h.expired then [] else [h.packet], hs) }

  lemma OfConcat(k: Kind, a: seq<Packet>, b: seq<Packet>)
    ensures Of(k, a + b) == Of(k, a) + Of(k, b)
  {
    FlattenConcat((p: Packet) => if p.kind == k then [p] else [], a, b);
  }

  lemma OfOne(k: Kind, p: Packet)
    ensures Of(k, [p]) == if p.kind == k then [p] else []
  {
    FlattenOne((p: Packet) => if p.kind == k then [p] else [], p);
  }

  lemma HandledConcat(a: seq<Handled>, b: seq<Handled>)
    ensures Packets(a + b) == Packets(a) + Packets(b) && Live(a + b) == Live(a) + Live(b)
  {
    FlattenConcat((h: Handled) => [h.packet], a, b);
    FlattenConcat((h: Handled) => if h.expired then [] else [h.packet], a, b);
  }

  lemma HandledOne(h: Handled)
    ensures Packets([h]) == [h.packet] && Live([h]) == if h.expired then [] else [h.packet]
  {
    FlattenOne((h: Handled) => [h.packet], h);
    FlattenOne((h: Handled) => if h.expired then [] else [h.packet], h);
  }

  lemma {:induction false} UnwrittenPackets(batch: seq<Packet>)
    ensures Packets(Unwritten(batch)) == batch && Live(Unwritten(batch)) == batch
  {
    if batch == [] {
      assert Unwritten(batch) == [] && Packets([]) == [] && Live([]) == [];
    } else {
      assert Unwritten(batch) == [Handled(batch[0], false)] + Unwritten(batch[1..]);
      HandledConcat([Handled(batch[0], false)], Unwritten(batch[1..]));
      HandledOne(Handled(batch[0], false));
      UnwrittenPackets(batch[1..]);
    }
  }

  /** Nothing is lost on the way to the routine: per kind, what has been handled, what the routine holds and
      what waits make up what was submitted, in that order. */
  ghost predicate Accounted(l: Log, q: Queues, batch: seq<Packet>) {
    && (forall k :: Of(k, l.submitted) == Of(k, Packets(l.handled)) + Of(k, batch) + Queue(q, k))
    && (forall k, j :: 0 <= j < |Queue(q, k)| ==> Queue(q, k)[j].kind == k)
  }

  /** What is on the wire and in the buffer is what was handled in order, without the expired ones, as long as
      no write has failed; after a failure it is a subsequence. */
  ghost predicate InOrder(l: Log, buf: seq<Packet>) {
    && Subsequence(l.wire + buf, Live(l.handled))
    && (!l.gap ==> l.wire + buf <= Live(l.handled))
    && (!l.gap && !l.cut ==> l.wire + buf == Live(l.handled))
  }

  lemma AccountedSubmit(l: Log, q: Queues, batch: seq<Packet>, p: Packet)
    requires Accounted(l, q, batch)
    ensures Accounted(l.(submitted := l.submitted + [p]), Enqueue(q, p), batch)
  {
    hide Of, Packets;
    forall k ensures Of(k, l.submitted + [p]) == Of(k, Packets(l.handled)) + Of(k, batch) + Queue(Enqueue(q, p), k)
    {
      OfConcat(k, l.submitted, [p]);
      OfOne(k, p);
    }
  }

  lemma AccountedPop(l: Log, q: Queues, m: Routine, m': Routine, q': Queues)
    requires Accounted(l, q, m.batch) && Popped(m, m', q, q')
    ensures Accounted(l, q', m'.batch)
  {
    hide Of, Packets;
    if q' != q {
      var kind := if m.pc.PopGeneral? then General else if m.pc.PopQoS12? then QoS12 else QoS0;
      var p := Queue(q, kind)[0];
      AccountedTake(l, q, m.batch, kind, q');
    }
  }

  lemma AccountedTake(l: Log, q: Queues, batch: seq<Packet>, kind: Kind, q': Queues)
    requires Accounted(l, q, batch) && Queue(q, kind) != []
    requires forall k :: Queue(q', k) == if k == kind then Queue(q, k)[1..] else Queue(q, k)
    ensures Accounted(l, q', batch + [Queue(q, kind)[0]])
  {
    hide Of, Packets;
    var p := Queue(q, kind)[0];
    assert Queue(q, kind) == [p] + Queue(q', kind);
    forall k ensures Of(k, l.submitted) == Of(k, Packets(l.handled)) + Of(k, batch + [p]) + Queue(q', k) {
      OfConcat(k, batch, [p]);
      OfOne(k, p);
    }
  }

  lemma AccountedWrite(l: Log, q: Queues, m: Routine, m': Routine, l': Log, o: Outcome)
    requires m.batch != [] && Accounted(l, q, m.batch) && Written(m, m', l, l', o)
    ensures Accounted(l', q, m'.batch)
  {
    hide Of, Packets, Unwritten;
    var p, rest := m.batch[0], m.batch[1..];
    var done := if o.Fail? then Unwritten(m.batch) else [Handled(p, o.Expire?)];
    HandledConcat(l.handled, done);
    assert m.batch == [p] + rest;
    if o.Fail? {
      UnwrittenPackets(m.batch);
    } else {
      HandledOne(done[0]);
    }
    assert m.batch == Packets(done) + m'.batch;
    forall k ensures Of(k, l'.submitted) == Of(k, Packets(l'.handled)) + Of(k, m'.batch) + Queue(q, k) {
      OfConcat(k, Packets(l.handled), Packets(done));
      OfConcat(k, Packets(done), m'.batch);
      Regroup(Of(k, Packets(l.handled)), Of(k, Packets(done)), Of(k, m'.batch), Queue(q, k));
    }
  }

  lemma Regroup<T>(a: seq<T>, b: seq<T>, c: seq<T>, d: seq<T>)
    ensures a + (b + c) + d == (a + b) + c + d
  {
  }

  lemma {:induction false} SubsequenceMore<T>(a: seq<T>, b: seq<T>, c: seq<T>)
    requires Subsequence(a, b)
    ensures Subsequence(a, b + c)
    decreases |c|
  {
    if c == [] {
      assert b + c == b;
    } else {
      SubsequenceExtend(a, b, c[0]);
      SubsequenceMore(a, b + [c[0]], c[1..]);
      assert b + [c[0]] + c[1..] == b + c;
    }
  }

  lemma PassedOn(wire: seq<Packet>, buf: seq<Packet>, p: Packet, k: nat)
    requires k <= |buf + [p]|
    ensures (wire + (buf + [p])[..k]) + (buf + [p])[k..] == (wire + buf) + [p]
  {
    var b := buf + [p];
    assert b == b[..k] + b[k..];
  }

  lemma InOrderWrite(l: Log, m: Routine, m': Routine, l': Log, o: Outcome)
    requires m.batch != [] && !l.cut && InOrder(l, m.buf) && Written(m, m', l, l', o)
    ensures InOrder(l', m'.buf)
  {
    hide Subsequence, Live, Packets, Unwritten;
    var p := m.batch[0];
    match o
    case Expire =>
      HandledConcat(l.handled, [Handled(p, true)]);
      HandledOne(Handled(p, true));
      assert Live(l'.handled) == Live(l.handled);
    case Pass(k) =>
      HandledConcat(l.handled, [Handled(p, false)]);
      HandledOne(Handled(p, false));
      SubsequenceExtend(l.wire + m.buf, Live(l.handled), p);
      PassedOn(l.wire, m.buf, p, k);
    case Fail(k) =>
      HandledConcat(l.handled, Unwritten(m.batch));
      UnwrittenPackets(m.batch);
      assert l.wire + m.buf == (l.wire + m.buf[..k]) + m.buf[k..];
      SubsequencePrefix(l.wire + m.buf[..k], m.buf[k..], Live(l.handled));
      SubsequenceMore(l.wire + m.buf[..k], Live(l.handled), m.batch);
      assert l'.wire + [] == l'.wire;
  }

  lemma InOrderFlush(l: Log, buf: seq<Packet>, k: nat)
    requires InOrder(l, buf) && k <= |buf|
    ensures InOrder(l.(wire := l.wire + buf[..k], gap := l.gap || k < |buf|), [])
    ensures InOrder(l.(cut := true), [])
  {
    hide Subsequence, Live;
    assert l.wire + buf == (l.wire + buf[..k]) + buf[k..];
    SubsequencePrefix(l.wire + buf[..k], buf[k..], Live(l.handled));
    SubsequencePrefix(l.wire, buf, Live(l.handled));
    assert l.wire + buf[..k] + [] == l.wire + buf[..k];
    assert l.wire + [] == l.wire;
  }

  // ---------------------------------------------------------------- invariant of all runs

  /** Where a routine can be holding packets. */
  ghost predicate Tidy(m: Routine) {
    && (m.batch != [] ==> m.pc.CheckQuota? || m.pc.PopQoS12? || m.pc.PopQoS0? || m.pc.Test? || m.pc.Writing?)
    && (m.buf != [] ==> (Draining(m.pc) || m.pc.Flush? || m.pc.Flushing?) && m.pc != Clearing(true))
  }

  function BatchOf(s: State, i: Who): seq<Packet> { if i.The? && i.r in s.routines then s.routines[i.r].batch else [] }

  function BufOf(s: State, i: Who): seq<Packet> { if i.The? && i.r in s.routines then s.routines[i.r].buf else [] }

  ghost predicate Ledger(s: State, i: Who) {
    && (forall a :: a in s.routines ==> Tidy(s.routines[a]))
    && Accounted(s.log, s.queues, BatchOf(s, i)) && InOrder(s.log, BufOf(s, i))
    && (s.log.cut ==> !s.alive && !Draining(Place(s, i)) && !Place(s, i).Flush? && !Place(s, i).Flushing?
                      && forall a :: a in s.routines ==> !s.routines[a].pc.Joining?)
  }

  ghost predicate Inv(s: State, h: Who, i: Who) {
    Exclusive(s, h, i) && Awake(s, h, i) && Ledger(s, i)
  }

  lemma SendLedger(s: State, t: State, c: nat, p: Packet, i: Who)
    requires Ledger(s, i) && Send(s, t, c, p)
    ensures Ledger(t, i)
  {
    hide Accounted, Subsequence, Live, Tidy;
    AccountedSubmit(s.log, s.queues, BatchOf(s, i), p);
  }

  lemma QuotaAccounted(l: Log, q: Queues, batch: seq<Packet>, quota: int)
    requires Accounted(l, q, batch)
    ensures Accounted(l, q.(quota := quota), batch)
  {
  }

  lemma CallerLedger(s: State, t: State, c: nat, r: nat, i: Who)
    requires Ledger(s, i) && (Release(s, t, c) || CallerStep(s, t, c, r)) && (i.The? ==> i.r in s.routines)
    ensures Ledger(t, i)
  {
    hide Accounted, InOrder;
    QuotaAccounted(s.log, s.queues, BatchOf(s, i), t.queues.quota);
  }

  lemma PopLedger(s: State, t: State, r: nat)
    requires Ledger(s, The(r)) && r in s.routines && PopStep(s, t, r, s.routines[r])
    ensures Ledger(t, The(r))
  {
    hide Accounted, InOrder;
    AccountedPop(s.log, s.queues, s.routines[r], t.routines[r], t.queues);
  }

  lemma LookLedger(s: State, t: State, r: nat)
    requires Ledger(s, The(r)) && r in s.routines && LookStep(s, t, r, s.routines[r])
    ensures Ledger(t, The(r))
  {
    hide Accounted, InOrder;
  }

  lemma WriteLedger(s: State, t: State, r: nat)
    requires Ledger(s, The(r)) && r in s.routines && WriteStep(s, t, r, s.routines[r])
    ensures Ledger(t, The(r))
  {
    hide Accounted, InOrder;
    var m, m' := s.routines[r], t.routines[r];
    var o :| Written(m, m', s.log, t.log, o);
    AccountedWrite(s.log, s.queues, m, m', t.log, o);
    InOrderWrite(s.log, m, m', t.log, o);
    WrittenTidy(m, m', s.log, t.log, o);
    hide Written;
  }

  lemma WrittenTidy(m: Routine, m': Routine, l: Log, l': Log, o: Outcome)
    requires m.pc == Writing && m.batch != [] && Tidy(m) && Written(m, m', l, l', o)
    ensures Tidy(m') && l'.cut == l.cut && (m'.pc == Writing || m'.pc == Clearing(true))
  {
  }

  lemma FlushLedger(s: State, t: State, r: nat, k: nat, h: Who)
    requires Ledger(s, The(r)) && r in s.routines && FlushStep(s, t, r, s.routines[r], k) && Exclusive(s, h, The(r))
    ensures Ledger(t, The(r))
  {
    hide Accounted, InOrder;
    var m := s.routines[r];
    InOrderFlush(s.log, m.buf, if m.pc.Flushing? then k else 0);
    LogAccounted(s.log, t.log, s.queues, m.batch);
  }

  lemma LogAccounted(l: Log, l': Log, q: Queues, batch: seq<Packet>)
    requires Accounted(l, q, batch) && l'.submitted == l.submitted && l'.handled == l.handled
    ensures Accounted(l', q, batch)
  {
  }

  lemma SyncWho(s: State, t: State, r: nat, n: nat, h: Who, i: Who, h': Who, i': Who)
    requires Exclusive(s, h, i) && Exclusive(t, h', i')
    requires r in s.routines && SyncStep(s, t, r, s.routines[r], n)
    ensures match s.routines[r].pc
            case Joining => i == Nobody && i' == The(r)
            case Leaving => i == The(r) && i' == Nobody
            case _ => i' == i
  {
    hide Exclusive;
    ExclusiveAt(s, r, h, i);
    ExclusiveAt(t, r, h', i');
    if i.The? {
      ExclusiveAt(s, i.r, h, i);
      ExclusiveAt(t, i.r, h', i');
    }
    if i'.The? {
      ExclusiveAt(s, i'.r, h, i);
      ExclusiveAt(t, i'.r, h', i');
    }
  }

  lemma SyncLedger(s: State, t: State, r: nat, n: nat, h: Who, i: Who, h': Who, i': Who)
    requires Ledger(s, i) && Exclusive(s, h, i) && Exclusive(t, h', i')
    requires r in s.routines && SyncStep(s, t, r, s.routines[r], n)
    ensures Ledger(t, i')
  {
    hide Exclusive, Accounted, InOrder;
    SyncWho(s, t, r, n, h, i, h', i');
    ExclusiveAt(s, r, h, i);
  }

  lemma InsideLedger(s: State, t: State, r: nat, h: Who)
    requires Ledger(s, The(r)) && Exclusive(s, h, The(r)) && InsideStep(s, t, r)
    ensures Ledger(t, The(r))
  {
    hide Ledger, Exclusive, PopStep, LookStep, WriteStep, FlushStep;
    if PopStep(s, t, r, s.routines[r]) {
      PopLedger(s, t, r);
    } else if LookStep(s, t, r, s.routines[r]) {
      LookLedger(s, t, r);
    } else if WriteStep(s, t, r, s.routines[r]) {
      WriteLedger(s, t, r);
    } else {
      var k :| FlushStep(s, t, r, s.routines[r], k);
      FlushLedger(s, t, r, k, h);
    }
  }

  lemma NextKeeps(s: State, t: State, h: Who, i: Who) returns (h': Who, i': Who)
    requires Inv(s, h, i) && Next(s, t)
    ensures Inv(t, h', i')
  {
    hide Exclusive, Awake, Ledger, Send, Release, CallerStep, RoutineStep;
    h', i' := h, i;
    if c, p :| Send(s, t, c, p) {
      SendSame(s, t, c, p);
      ExclusiveSame(s, t, h, i);
      SendAwake(s, t, c, p, h, i);
      SendLedger(s, t, c, p, i);
    } else if c :| Release(s, t, c) {
      ReleaseSame(s, t, c);
      ExclusiveAt(s, 0, h, i);
      ExclusiveSame(s, t, h, i);
      ReleaseAwake(s, t, c, h, i);
      CallerLedgers(s, t, c, 0, h, i);
    } else if c, r :| CallerStep(s, t, c, r) {
      h' := ExclusiveCaller(s, t, c, r, h, i);
      CallerAwake(s, t, c, r, h, i, h');
      CallerLedgers(s, t, c, r, h, i);
    } else if r :| RoutineStep(s, t, r) {
      h', i' := RoutineKeeps(s, t, r, h, i);
    } else {
      StopKeeps(s, t, h, i);
    }
  }

  lemma SendSame(s: State, t: State, c: nat, p: Packet)
    requires Send(s, t, c, p)
    ensures t.routines == s.routines && t.running == s.running && t.wg == s.wg && t.alive == s.alive
  {
  }

  lemma ReleaseSame(s: State, t: State, c: nat)
    requires Release(s, t, c)
    ensures t.routines == s.routines && t.running == s.running && t.wg == s.wg && t.alive == s.alive
  {
  }

  lemma CallerLedgers(s: State, t: State, c: nat, r: nat, h: Who, i: Who)
    requires Ledger(s, i) && Exclusive(s, h, i) && (Release(s, t, c) || CallerStep(s, t, c, r))
    ensures Ledger(t, i)
  {
    hide Ledger, Release, CallerStep;
    CallerLedger(s, t, c, r, i);
  }

  lemma StopKeeps(s: State, t: State, h: Who, i: Who)
    requires Inv(s, h, i) && t == s.(alive := false)
    ensures Inv(t, h, i)
  {
    hide Accounted, InOrder, Attended;
    ExclusiveSame(s, t, h, i);
  }

  lemma RoutineKeeps(s: State, t: State, r: nat, h: Who, i: Who) returns (h': Who, i': Who)
    requires Inv(s, h, i) && RoutineStep(s, t, r)
    ensures Inv(t, h', i')
  {
    hide Exclusive, Awake, Ledger, PopStep, LookStep, WriteStep, FlushStep, SyncStep;
    if n :| SyncStep(s, t, r, s.routines[r], n) {
      h', i' := ExclusiveSync(s, t, r, n, h, i);
      SyncAwake(s, t, r, n, h, i, h', i');
      SyncLedger(s, t, r, n, h, i, h', i');
    } else {
      h', i' := h, i;
      assert InsideStep(s, t, r);
      InsideExclusive(s, t, r, h, i);
      ExclusiveAt(s, r, h, i);
      InsideAwake(s, t, r, h);
      InsideLedger(s, t, r, h);
    }
  }

  ghost predicate Run(run: seq<State>) {
    run != [] && Init(run[0]) && forall k :: 0 <= k < |run| - 1 ==> Next(run[k], run[k + 1])
  }

  lemma InitInv(s: State)
    requires Init(s)
    ensures Inv(s, Nobody, Nobody)
  {
  }

  lemma {:induction false} InvAlways(run: seq<State>, k: nat) returns (h: Who, i: Who)
    requires Run(run) && k < |run|
    ensures Inv(run[k], h, i)
  {
    hide Init, Next, Inv;
    if k == 0 {
      InitInv(run[0]);
      h, i := Nobody, Nobody;
    } else {
      h, i := InvAlways(run, k - 1);
      h, i := NextKeeps(run[k - 1], run[k], h, i);
    }
  }

  // ---------------------------------------------------------------- main results

  /** Although running is cleared before the flush, at most one routine is ever between Add and Done, and at
      most one has not cleared it. */
  lemma OneWriter(run: seq<State>, k: nat, a: nat, b: nat)
    requires Run(run) && k < |run| && a in run[k].routines && b in run[k].routines
    ensures Inside(run[k].routines[a].pc) && Inside(run[k].routines[b].pc) ==> a == b
    ensures Holds(run[k].routines[a].pc) && Holds(run[k].routines[b].pc) ==> a == b
    ensures run[k].wg == 1 <==> exists c :: c in run[k].routines && Inside(run[k].routines[c].pc)
  {
    hide Run, Awake, Ledger;
    var h, i := InvAlways(run, k);
  }

  ghost predicate AllIdle(s: State) {
    s.routines == map[] && forall c :: c in s.callers ==> s.callers[c] == Resting
  }

  /** No lost wake-up: when nobody is at work, the writer is alive and no packet has failed to be written, then
      only publishes that wait for quota are left, and everything else that had not expired is on the wire
      unless a flush has failed. */
  lemma NoLostWakeup(run: seq<State>, k: nat)
    requires Run(run) && k < |run| && AllIdle(run[k]) && run[k].alive && !run[k].log.failed
    ensures var s := run[k];
      && s.queues.general == [] && s.queues.qos0 == [] && (s.queues.qos12 == [] || s.queues.quota == 0)
      && Of(General, Packets(s.log.handled)) == Of(General, s.log.submitted)
      && Of(QoS0, Packets(s.log.handled)) == Of(QoS0, s.log.submitted)
      && Of(QoS12, Packets(s.log.handled)) + s.queues.qos12 == Of(QoS12, s.log.submitted)
      && (!s.log.gap ==> s.log.wire == Live(s.log.handled))
  {
    hide Run, Of, Packets, Live, Exclusive, Awake, Ledger;
    var h, i := InvAlways(run, k);
    IdleQueues(run[k], h, i);
    IdleLedger(run[k], h, i);
  }

  lemma IdleWho(s: State, h: Who, i: Who)
    requires Exclusive(s, h, i) && s.routines == map[]
    ensures h == Nobody && i == Nobody
  {
  }

  lemma IdleQueues(s: State, h: Who, i: Who)
    requires Exclusive(s, h, i) && Awake(s, h, i) && AllIdle(s) && s.alive && !s.log.failed
    ensures s.queues.general == [] && s.queues.qos0 == [] && (s.queues.qos12 == [] || s.queues.quota == 0)
  {
    IdleWho(s, h, i);
    hide Exclusive;
  }

  lemma IdleLedger(s: State, h: Who, i: Who)
    requires Exclusive(s, h, i) && Ledger(s, i) && AllIdle(s) && s.alive
    ensures forall k :: Of(k, Packets(s.log.handled)) + Queue(s.queues, k) == Of(k, s.log.submitted)
    ensures !s.log.gap ==> s.log.wire == Live(s.log.handled)
  {
    IdleWho(s, h, i);
    hide Exclusive, Of, Packets, Live, Subsequence;
    OfNone();
    assert s.log.wire + [] == s.log.wire;
  }

  lemma OfNone()
    ensures forall k :: Of(k, []) == []
  {
  }

  /** Order: in every state of every run, what is on the wire of one kind is a prefix of what was submitted of
      that kind, without the expired packets, unless a write has failed; and then still a subsequence. */
  lemma WrittenInOrder(run: seq<State>, k: nat, kind: Kind)
    requires Run(run) && k < |run|
    ensures var l := run[k].log;
      && Of(kind, Packets(l.handled)) <= Of(kind, l.submitted)
      && Subsequence(l.wire, Live(l.handled))
      && (!l.gap ==> l.wire <= Live(l.handled) && Of(kind, l.wire) <= Of(kind, Live(l.handled)))
  {
    hide Run, Of, Packets, Live, Subsequence;
    var h, i := InvAlways(run, k);
    var l, buf := run[k].log, BufOf(run[k], i);
    SubsequencePrefix(l.wire, buf, Live(l.handled));
    if !l.gap {
      var all := Live(l.handled);
      assert all == l.wire + all[|l.wire|..];
      OfConcat(kind, l.wire, all[|l.wire|..]);
    }
  }

  lemma {:induction false} Fresh<T>(m: map<nat, T>) returns (r: nat)
    ensures r !in m
  {
    r := Above(m.Keys);
  }

  lemma {:induction false} Above(names: set<nat>) returns (r: nat)
    ensures forall x :: x in names ==> x < r
  {
    if names == {} {
      r := 0;
    } else {
      var x :| x in names;
      var b := Above(names - {x});
      r := if x < b then b else x + 1;
      assert forall y :: y in names ==> y == x || y in names - {x};
    }
  }

  lemma CallerEnabled(s: State, c: nat) returns (t: State, r: nat)
    requires c in s.callers && s.callers[c] != Resting
    ensures CallerStep(s, t, c, r)
  {
    r := Fresh(s.routines);
    match s.callers[c]
    case Signalling => t := At(s, c, if s.queues.qos12 != [] then Starting else Resting);
    case Starting => t := At(s, c, if s.alive then Swapping else Resting);
    case Swapping => t := if s.running then At(s, c, Resting) else Spawn(At(s, c, Resting), r);
  }

  lemma SyncEnabled(s: State, r: nat) returns (t: State)
    requires r in s.routines && (s.routines[r].pc.Waiting? ==> s.wg == 0)
    requires !Inside(s.routines[r].pc) || s.routines[r].pc.Clearing? || s.routines[r].pc.Reswapping? ||
               s.routines[r].pc.Leaving?
    ensures RoutineStep(s, t, r)
  {
    var n := Fresh(s.routines);
    var m := s.routines[r];
    if m.pc.Waiting? {
      t := Go(s, r, m.(pc := Started));
    } else if m.pc.Started? {
      t := if s.alive then Go(s, r, m.(pc := Joining)) else Exit(s, r);
    } else if m.pc.Joining? {
      t := Go(s.(wg := s.wg + 1), r, m.(pc := Loop));
    } else if m.pc.Clearing? {
      t := Go(s.(running := false), r, m.(pc := if m.pc.failed then Leaving else Flush));
    } else if m.pc.Reswapping? {
      t := if s.running then Go(s, r, m.(pc := Leaving)) else Spawn(Go(s, r, m.(pc := Leaving)), n);
    } else {
      t := Exit(s.(wg := s.wg - 1), r);
    }
    assert SyncStep(s, t, r, m, n);
  }

  lemma PopEnabled(s: State, r: nat) returns (t: State)
    requires r in s.routines &&
               (s.routines[r].pc.PopGeneral? || s.routines[r].pc.PopQoS12? || s.routines[r].pc.PopQoS0?)
    ensures RoutineStep(s, t, r)
  {
    var m, q := s.routines[r], s.queues;
    var next := if m.pc.PopGeneral? then CheckQuota else if m.pc.PopQoS12? then PopQoS0 else Test;
    var kind := if m.pc.PopGeneral? then General else if m.pc.PopQoS12? then QoS12 else QoS0;
    if Queue(q, kind) == [] {
      t := Go(s, r, m.(pc := next));
    } else {
      var q' := if kind == General then q.(general := q.general[1..])
                else if kind == QoS12 then q.(qos12 := q.qos12[1..], quota := q.quota - 1)
                else q.(qos0 := q.qos0[1..]);
      t := Go(s.(queues := q'), r, m.(pc := next, batch := m.batch + [Queue(q, kind)[0]]));
    }
    assert PopStep(s, t, r, m);
  }

  lemma WriteEnabled(s: State, r: nat) returns (t: State)
    requires r in s.routines && s.routines[r].pc.Writing? && s.routines[r].batch != []
    ensures RoutineStep(s, t, r)
  {
    var m, l := s.routines[r], s.log;
    var m' := m.(batch := m.batch[1..], buf := (m.buf + [m.batch[0]])[0..]);
    var l' := l.(handled := l.handled + [Handled(m.batch[0], false)], wire := l.wire + (m.buf + [m.batch[0]])[..0]);
    assert Written(m, m', l, l', Pass(0));
    t := Go(s.(log := l'), r, m');
    assert WriteStep(s, t, r, m);
  }

  lemma RoutineEnabled(s: State, r: nat) returns (t: State)
    requires r in s.routines && (s.routines[r].pc.Waiting? ==> s.wg == 0)
    ensures RoutineStep(s, t, r)
  {
    hide RoutineStep;
    var m := s.routines[r];
    if !Inside(m.pc) || m.pc.Clearing? || m.pc.Reswapping? || m.pc.Leaving? {
      t := SyncEnabled(s, r);
    } else if m.pc.PopGeneral? || m.pc.PopQoS12? || m.pc.PopQoS0? {
      t := PopEnabled(s, r);
    } else if m.pc.Writing? && m.batch != [] {
      t := WriteEnabled(s, r);
    } else {
      t := LookOrFlush(s, r);
    }
  }

  lemma LookOrFlush(s: State, r: nat) returns (t: State)
    requires r in s.routines && var m := s.routines[r];
      Look(m, s.queues, s.alive) != m.pc || m.pc.Flush? || m.pc.Flushing?
    ensures RoutineStep(s, t, r)
  {
    var m := s.routines[r];
    if m.pc.Flush? {
      t := if s.alive then Go(s, r, m.(pc := Flushing))
          else Go(s.(log := s.log.(cut := true)), r, m.(pc := AnyGeneral, buf := []));
      assert FlushStep(s, t, r, m, 0);
    } else if m.pc.Flushing? {
      t := Go(s.(log := s.log.(wire := s.log.wire + m.buf[..0], gap := s.log.gap || 0 < |m.buf|)), r,
          m.(pc := AnyGeneral, buf := []));
      assert FlushStep(s, t, r, m, 0);
    } else {
      t := Go(s, r, m.(pc := Look(m, s.queues, s.alive)));
      assert LookStep(s, t, r, m);
    }
  }

  /** No deadlock: while anybody is at work, somebody can go on. */
  lemma NoDeadlock(run: seq<State>, k: nat)
    requires Run(run) && k < |run| && !AllIdle(run[k])
    ensures (exists t, c, r :: CallerStep(run[k], t, c, r)) || exists t, r :: RoutineStep(run[k], t, r)
  {
    hide Run, CallerStep, RoutineStep, Awake, Ledger;
    var s := run[k];
    var h, i := InvAlways(run, k);
    if c :| c in s.callers && s.callers[c] != Resting {
      var t, r := CallerEnabled(s, c);
    } else {
      assert s.routines.Keys != {};
      var a :| a in s.routines;
      var t := RoutineEnabled(s, if i.The? then i.r else a);
    }
  }
}
