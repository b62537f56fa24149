/**
 Graceful shutdown as a system of interleaved steps. Each step is one critical section of the
 coordinator's mutex, one entry into a lease's once-guard, or one choice of a drainer's select.
 */
module DrainProtocol {
  import opened Prelude

  datatype Phase = Running | Draining | Forced

  datatype OutcomeKind = Completed | TimedOut | ForcedOut

  datatype Outcome = Outcome(kind: OutcomeKind, activeAtStart: int, remaining: int)

  /**
   What the mutex protects. Channels are numbered in order of creation; `closed` flags them and
   `changed` is the one handed to waiters. Closing a closed channel or finishing with nothing
   active panics.
   */
  datatype Core = Core(phase: Phase, active: int, closed: seq<bool>, changed: nat, panicked: bool)

  const INITIAL := Core(Running, 0, [false], 0, false)

  // ----- critical sections

  predicate Sound(c: Core) {
    c.changed < |c.closed|
  }

  /** Close the current channel and make a new one. */
  function Notify(c: Core): Core
    requires Sound(c)
  {
    c.(closed := c.closed[c.changed := true] + [false],
       changed := |c.closed|,
       panicked := c.panicked || c.closed[c.changed])
  }

  function Begin(c: Core): (bool, Core) {
    if c.phase != Running then (false, c) else (true, c.(active := c.active + 1))
  }

  function Finish(c: Core): Core
    requires Sound(c)
  {
    if c.active <= 0 then c.(panicked := true) else Notify(c.(active := c.active - 1))
  }

  function StartDraining(c: Core): (bool, Core)
    requires Sound(c)
  {
    if c.phase != Running then (false, c) else (true, Notify(c.(phase := Draining)))
  }

  function Force(c: Core): (bool, Core)
    requires Sound(c)
  {
    if c.phase == Forced then (false, c) else (true, Notify(c.(phase := Forced)))
  }

  /** First look of a drainer after it started draining. */
  function Enter(c: Core): Option<Outcome> {
    if c.phase == Forced then Some(Outcome(ForcedOut, 0, c.active))
    else if c.active == 0 then Some(Outcome(Completed, 0, 0))
    else None
  }

  /** Look at the top of the wait loop. */
  function Check(c: Core, start: int): Option<Outcome> {
    if c.active == 0 then Some(Outcome(Completed, start, 0))
    else if c.phase == Forced then Some(Outcome(ForcedOut, 0, c.active))
    else None
  }

  /** The drain timer fired. */
  function Timeout(c: Core, start: int): (Outcome, Core)
    requires Sound(c)
  {
    if c.active == 0 then (Outcome(Completed, start, 0), c)
    else (Outcome(TimedOut, 0, c.active), Notify(c.(phase := Forced)))
  }

  // ----- the interleaved system

  datatype Lease = Held | Finishing | Finished

  /** Where a call of Drain stands; a waiter remembers its channel and the count it saw. */
  datatype Drainer =
    | Called
    | Started
    | Looping(start: int)
    | Waiting(start: int, channel: nat, saw: int)
    | Expired(start: int)
    | Returned(outcome: Outcome)

  datatype System = System(core: Core, leases: seq<Lease>, drainers: seq<Drainer>)

  const START := System(INITIAL, [], [])

  datatype Action =
    | BeginRequest
    | EnterFinish(lease: nat)
    | RunFinish(lease: nat)
    | FinishAgain(lease: nat)
    | CallStartDraining
    | CallForce
    | CallDrain
    | StepDrain(drainer: nat)
    | Wake(drainer: nat)
    | FireTimer(drainer: nat)

  ghost predicate Enabled(s: System, a: Action) {
    Sound(s.core) &&
    match a
    case BeginRequest => true
    case EnterFinish(l) => l < |s.leases| && s.leases[l] == Held
    case RunFinish(l) => l < |s.leases| && s.leases[l] == Finishing
    case FinishAgain(l) => l < |s.leases| && s.leases[l] == Finished
    case CallStartDraining => true
    case CallForce => true
    case CallDrain => true
    case StepDrain(d) => d < |s.drainers| && !s.drainers[d].Waiting? && !s.drainers[d].Returned?
    case Wake(d) => d < |s.drainers| && s.drainers[d].Waiting?
                    && s.drainers[d].channel < |s.core.closed| && s.core.closed[s.drainers[d].channel]
    case FireTimer(d) => d < |s.drainers| && s.drainers[d].Waiting?
  }

  /** One critical section of drainer `d`. */
  ghost function DrainerStep(c: Core, d: Drainer): (Core, Drainer)
    requires Sound(c) && !d.Waiting? && !d.Returned?
  {
    match d
    case Called => (StartDraining(c).1, Started)
    case Started => (c, match Enter(c) case Some(o) => Returned(o) case None => Looping(c.active))
    case Looping(start) =>
      (c, match Check(c, start) case Some(o) => Returned(o) case None => Waiting(start, c.changed, c.active))
    case Expired(start) => (Timeout(c, start).1, Returned(Timeout(c, start).0))
  }

  ghost function Apply(s: System, a: Action): System
    requires Enabled(s, a)
  {
    match a
    case BeginRequest =>
      var (admitted, c) := Begin(s.core);
      s.(core := c, leases := if admitted then s.leases + [Held] else s.leases)
    case EnterFinish(l) => s.(leases := s.leases[l := Finishing])
    case RunFinish(l) => s.(core := Finish(s.core), leases := s.leases[l := Finished])
    case FinishAgain(l) => s
    case CallStartDraining => s.(core := StartDraining(s.core).1)
    case CallForce => s.(core := Force(s.core).1)
    case CallDrain => s.(drainers := s.drainers + [Called])
    case StepDrain(d) =>
      var (c, next) := DrainerStep(s.core, s.drainers[d]);
      s.(core := c, drainers := s.drainers[d := next])
    case Wake(d) => s.(drainers := s.drainers[d := Looping(s.drainers[d].start)])
    case FireTimer(d) => s.(drainers := s.drainers[d := Expired(s.drainers[d].start)])
  }

  ghost predicate IsRun(s: System, actions: seq<Action>)
    decreases |actions|
  {
    actions == [] || (Enabled(s, actions[0]) && IsRun(Apply(s, actions[0]), actions[1..]))
  }

  ghost function After(s: System, actions: seq<Action>): System
    requires IsRun(s, actions)
    decreases |actions|
  {
    if actions == [] then s else After(Apply(s, actions[0]), actions[1..])
  }

  // ----- the invariant

  /** Leases begun and not finished. */
  ghost function Outstanding(leases: seq<Lease>): nat {
    if leases == [] then 0
    else Outstanding(leases[..|leases| - 1]) + (if leases[|leases| - 1] == Finished then 0 else 1)
  }

  /** The newest channel is current and open; every other one is closed. */
  ghost predicate ChannelsOk(c: Core) {
    && c.changed + 1 == |c.closed|
    && forall i :: 0 <= i < |c.closed| ==> (c.closed[i] <==> i != c.changed)
  }

  ghost predicate DrainerOk(c: Core, d: Drainer) {
    match d
    case Called => true
    case Started => c.phase != Running
    case Looping(_) => c.phase != Running
    case Waiting(_, channel, saw) =>
      && c.phase != Running && channel <= c.changed
      && (channel == c.changed ==> c.phase == Draining && c.active == saw && saw > 0)
    case Expired(_) => c.phase != Running
    case Returned(o) =>
      && c.phase != Running
      && (if o.kind == Completed then c.active == 0 && o.remaining == 0 else c.phase == Forced)
  }

  ghost predicate Inv(s: System) {
    && !s.core.panicked
    && ChannelsOk(s.core)
    && s.core.active == Outstanding(s.leases)
    && forall d :: d in s.drainers ==> DrainerOk(s.core, d)
  }

  lemma {:induction false} OutstandingUpdate(leases: seq<Lease>, l: nat, v: Lease)
    requires l < |leases|
    ensures Outstanding(leases[l := v])
         == Outstanding(leases) - (if leases[l] == Finished then 0 else 1) + (if v == Finished then 0 else 1)
    decreases |leases|
  {
    var n := |leases| - 1;
    if l == n {
      assert leases[l := v][..n] == leases[..n];
    } else {
      assert leases[l := v][..n] == leases[..n][l := v];
      OutstandingUpdate(leases[..n], l, v);
    }
  }

  lemma {:induction false} OutstandingPositive(leases: seq<Lease>, l: nat)
    requires l < |leases| && leases[l] != Finished
    ensures Outstanding(leases) > 0
    decreases |leases|
  {
    if l == |leases| - 1 {
    } else {
      OutstandingPositive(leases[..|leases| - 1], l);
    }
  }

  lemma NotifyOk(c: Core)
    requires ChannelsOk(c)
    ensures ChannelsOk(Notify(c)) && Notify(c).panicked == c.panicked
    ensures Notify(c).changed > c.changed
    ensures Notify(c).phase == c.phase && Notify(c).active == c.active
  {}

  /**
   How one critical section may change what drainers rely on: nothing, or a new channel is
   current, the phase does not go back, and completion is never undone.
   */
  ghost predicate Advances(c: Core, n: Core) {
    && (n == c || (n.changed == c.changed && n.phase == Running && c.phase == Running) || n.changed > c.changed)
    && PhaseRank(c.phase) <= PhaseRank(n.phase)
    && (c.phase != Running && c.active == 0 ==> n.active == 0)
  }

  function PhaseRank(p: Phase): nat {
    match p case Running => 0 case Draining => 1 case Forced => 2
  }

  lemma DrainerKept(c: Core, n: Core, d: Drainer)
    requires DrainerOk(c, d) && Advances(c, n)
    ensures DrainerOk(n, d)
  {}

  lemma DrainersKept(c: Core, n: Core, ds: seq<Drainer>)
    requires forall d :: d in ds ==> DrainerOk(c, d)
    requires Advances(c, n)
    ensures forall d :: d in ds ==> DrainerOk(n, d)
  {
    forall d | d in ds ensures DrainerOk(n, d) {
      DrainerKept(c, n, d);
    }
  }

  /** A critical section went well: nothing panicked, the channels are in order, nobody is misled. */
  ghost predicate Moves(c: Core, n: Core) {
    Advances(c, n) && ChannelsOk(n) && !n.panicked
  }

  lemma StayMoves(c: Core)
    requires ChannelsOk(c) && !c.panicked
    ensures Moves(c, c)
  {}

  lemma BeginMoves(c: Core)
    requires ChannelsOk(c) && !c.panicked && c.active >= 0
    ensures Moves(c, Begin(c).1)
  {}

  lemma FinishMoves(c: Core)
    requires ChannelsOk(c) && !c.panicked && c.active > 0
    ensures Moves(c, Finish(c)) && Finish(c).active == c.active - 1
  {
    hide ChannelsOk;
    NotifyAny(c, c.(active := c.active - 1));
  }

  lemma StartMoves(c: Core)
    requires ChannelsOk(c) && !c.panicked
    ensures Moves(c, StartDraining(c).1) && StartDraining(c).1.active == c.active
  {
    hide ChannelsOk;
    NotifyAny(c, c.(phase := Draining));
  }

  lemma ForceMoves(c: Core)
    requires ChannelsOk(c) && !c.panicked
    ensures Moves(c, Force(c).1) && Force(c).1.active == c.active
  {
    hide ChannelsOk;
    NotifyAny(c, c.(phase := Forced));
  }

  lemma TimeoutMoves(c: Core, start: int)
    requires ChannelsOk(c) && !c.panicked
    ensures Moves(c, Timeout(c, start).1) && Timeout(c, start).1.active == c.active
  {
    hide ChannelsOk;
    NotifyAny(c, c.(phase := Forced));
  }

  lemma DrainerMoves(c: Core, d: Drainer)
    requires ChannelsOk(c) && !c.panicked && !d.Waiting? && !d.Returned?
    ensures Moves(c, DrainerStep(c, d).0) && DrainerStep(c, d).0.active == c.active
  {
    assert Sound(c);
    hide ChannelsOk, Moves, StartDraining, Timeout, Enter, Check;
    match d
    case Called => StartMoves(c);
    case Started => StayMoves(c);
    case Looping(_) => StayMoves(c);
    case Expired(start) => TimeoutMoves(c, start);
  }

  lemma CoreStepOk(s: System, a: Action)
    requires Inv(s) && Enabled(s, a)
    ensures Moves(s.core, Apply(s, a).core)
    ensures Apply(s, a).core.active == Outstanding(Apply(s, a).leases)
  {
    hide DrainerOk, ChannelsOk, Moves, Begin, Finish, StartDraining, Force, DrainerStep;
    match a
    case BeginRequest =>
      BeginMoves(s.core);
      BeginCounts(s.core, s.leases);
    case EnterFinish(l) =>
      StayMoves(s.core);
      OutstandingUpdate(s.leases, l, Finishing);
    case RunFinish(l) =>
      OutstandingPositive(s.leases, l);
      OutstandingUpdate(s.leases, l, Finished);
      FinishMoves(s.core);
    case CallStartDraining => StartMoves(s.core);
    case CallForce => ForceMoves(s.core);
    case StepDrain(d) => DrainerMoves(s.core, s.drainers[d]);
    case FinishAgain(_) => StayMoves(s.core);
    case CallDrain => StayMoves(s.core);
    case Wake(_) => StayMoves(s.core);
    case FireTimer(_) => StayMoves(s.core);
  }

  lemma BeginCounts(c: Core, leases: seq<Lease>)
    requires c.active == Outstanding(leases)
    ensures var (admitted, n) := Begin(c);
      n.active == Outstanding(if admitted then leases + [Held] else leases)
  {
    assert (leases + [Held])[..|leases|] == leases;
  }

  lemma NotifyAny(c: Core, n: Core)
    requires ChannelsOk(c) && n.changed == c.changed && n.closed == c.closed
    ensures ChannelsOk(Notify(n)) && Notify(n).panicked == n.panicked && Notify(n).changed > c.changed
    ensures Notify(n).phase == n.phase && Notify(n).active == n.active
  {
    assert ChannelsOk(n);
    NotifyOk(n);
  }

  lemma OwnStepOk(s: System, d: nat)
    requires Inv(s) && Enabled(s, StepDrain(d))
    ensures DrainerOk(DrainerStep(s.core, s.drainers[d]).0, DrainerStep(s.core, s.drainers[d]).1)
  {
    assert DrainerOk(s.core, s.drainers[d]);
  }

  /** Every step keeps the invariant. */
  lemma StepKeepsInv(s: System, a: Action)
    requires Inv(s) && Enabled(s, a)
    ensures Inv(Apply(s, a)) && Advances(s.core, Apply(s, a).core)
  {
    hide DrainerOk, ChannelsOk, Advances, DrainerStep;
    var n := Apply(s, a);
    CoreStepOk(s, a);
    DrainersKept(s.core, n.core, s.drainers);
    match a
    case StepDrain(d) =>
      OwnStepOk(s, d);
      assert forall x :: x in n.drainers ==> x in s.drainers || x == DrainerStep(s.core, s.drainers[d]).1;
    case Wake(d) =>
      assert s.drainers[d] in s.drainers;
      AwakeOk(n.core, s.drainers[d]);
      assert forall x :: x in n.drainers ==> x in s.drainers || x == Looping(s.drainers[d].start);
    case FireTimer(d) =>
      assert s.drainers[d] in s.drainers;
      AwakeOk(n.core, s.drainers[d]);
      assert forall x :: x in n.drainers ==> x in s.drainers || x == Expired(s.drainers[d].start);
    case CallDrain =>
      CalledOk(n.core);
    case BeginRequest =>
    case EnterFinish(_) =>
    case RunFinish(_) =>
    case FinishAgain(_) =>
    case CallStartDraining =>
    case CallForce =>
  }

  lemma AwakeOk(c: Core, d: Drainer)
    requires DrainerOk(c, d) && d.Waiting?
    ensures DrainerOk(c, Looping(d.start)) && DrainerOk(c, Expired(d.start))
  {}

  lemma CalledOk(c: Core)
    ensures DrainerOk(c, Called)
  {}

  // ----- every run

  lemma {:induction false} RunKeepsInv(s: System, actions: seq<Action>)
    requires Inv(s) && IsRun(s, actions)
    ensures Inv(After(s, actions))
    ensures PhaseRank(s.core.phase) <= PhaseRank(After(s, actions).core.phase)
    ensures s.core.phase != Running && s.core.active == 0 ==> After(s, actions).core.active == 0
    decreases |actions|
  {
    hide Inv, Enabled, Apply;
    if actions == [] {
    } else {
      StepKeepsInv(s, actions[0]);
      RunKeepsInv(Apply(s, actions[0]), actions[1..]);
    }
  }

  /**
   In every interleaving the count of active requests is the number of leases begun and not
   finished, neither panic is reached, and only the channel handed to waiters is open.
   */
  lemma SafetyOfEveryRun(actions: seq<Action>)
    requires IsRun(START, actions)
    ensures var s := After(START, actions);
      && !s.core.panicked
      && s.core.active == Outstanding(s.leases)
      && s.core.changed < |s.core.closed|
      && forall i :: 0 <= i < |s.core.closed| ==> (s.core.closed[i] <==> i != s.core.changed)
  {
    RunKeepsInv(START, actions);
  }

  /**
   No wakeup is lost: in every interleaving, a drainer asleep on an open channel would, if it
   looked again now, see what it saw before it slept and go back to sleep on the same channel.
   */
  lemma NoLostWakeup(actions: seq<Action>, d: nat)
    requires IsRun(START, actions)
    requires var s := After(START, actions);
      d < |s.drainers| && s.drainers[d].Waiting? && !Enabled(s, Wake(d))
    ensures var s := After(START, actions);
      var w := s.drainers[d];
      && s.core.phase == Draining && s.core.active == w.saw && w.saw > 0
      && Sound(s.core) && DrainerStep(s.core, Looping(w.start)) == (s.core, w)
  {
    RunKeepsInv(START, actions);
    var s := After(START, actions);
    assert DrainerOk(s.core, s.drainers[d]);
  }

  lemma {:induction false} ReturnedStays(s: System, actions: seq<Action>, d: nat)
    requires IsRun(s, actions) && d < |s.drainers| && s.drainers[d].Returned?
    ensures d < |After(s, actions).drainers| && After(s, actions).drainers[d] == s.drainers[d]
    decreases |actions|
  {
    if actions == [] {
    } else {
      ReturnedStays(Apply(s, actions[0]), actions[1..], d);
    }
  }

  /**
   What a drainer reported stays true: after Completed nothing is ever active again and nothing
   is admitted; after a forced or timed-out drain the phase is Forced from then on.
   */
  lemma ReportsAreFinal(before: seq<Action>, later: seq<Action>, d: nat)
    requires IsRun(START, before) && IsRun(After(START, before), later)
    requires var s := After(START, before); d < |s.drainers| && s.drainers[d].Returned?
    ensures var s, t := After(START, before), After(After(START, before), later);
      && d < |t.drainers| && t.drainers[d] == s.drainers[d]
      && !Begin(t.core).0
      && (if s.drainers[d].outcome.kind == Completed then t.core.active == 0 else t.core.phase == Forced)
  {
    var s := After(START, before);
    RunKeepsInv(START, before);
    RunKeepsInv(s, later);
    ReturnedStays(s, later, d);
    var t := After(s, later);
    assert DrainerOk(t.core, t.drainers[d]);
  }

  lemma {:induction false} SettledDrainersReturn(s: System, actions: seq<Action>, d: nat)
    requires Inv(s) && Settled(s.core) && IsRun(s, actions) && d < |s.drainers|
    requires OwnSteps(actions, d) >= StepsLeft(s.drainers[d])
    ensures d < |After(s, actions).drainers| && After(s, actions).drainers[d].Returned?
    decreases |actions|
  {
    hide Inv, Enabled, Apply, Settled;
    if actions == [] {
    } else {
      StepKeepsInv(s, actions[0]);
      SettledStep(s, actions[0], d);
      SettledDrainersReturn(Apply(s, actions[0]), actions[1..], d);
    }
  }

  /** Nothing is left to wait for. */
  predicate Settled(c: Core) {
    c.phase == Forced || (c.phase == Draining && c.active == 0)
  }

  predicate Own(a: Action, d: nat) {
    a == StepDrain(d) || a == Wake(d) || a == FireTimer(d)
  }

  ghost function OwnSteps(actions: seq<Action>, d: nat): nat {
    if actions == [] then 0
    else (if Own(actions[0], d) then 1 else 0) + OwnSteps(actions[1..], d)
  }

  /** Steps of its own a drainer needs once the coordinator has settled. */
  function StepsLeft(d: Drainer): nat {
    match d
    case Called => 2
    case Started => 1
    case Looping(_) => 1
    case Waiting(_, _, _) => 2
    case Expired(_) => 1
    case Returned(_) => 0
  }

  lemma SettledStep(s: System, a: Action, d: nat)
    requires Inv(s) && Settled(s.core) && Enabled(s, a) && d < |s.drainers|
    ensures Settled(Apply(s, a).core) && d < |Apply(s, a).drainers|
    ensures Own(a, d) ==> StepsLeft(Apply(s, a).drainers[d]) < StepsLeft(s.drainers[d])
    ensures !Own(a, d) ==> Apply(s, a).drainers[d] == s.drainers[d]
  {
    StepKeepsInv(s, a);
  }

  /**
   Once the last request has finished during a drain, or shutdown was forced, every drainer that
   has not returned can take a step, and two steps of its own bring it back whatever the others
   do in between.
   */
  lemma DrainersReturn(before: seq<Action>, later: seq<Action>, d: nat)
    requires IsRun(START, before) && Settled(After(START, before).core)
    requires IsRun(After(START, before), later) && d < |After(START, before).drainers|
    ensures var s := After(START, before);
      s.drainers[d].Returned? || exists a :: Own(a, d) && Enabled(s, a)
    ensures OwnSteps(later, d) >= 2 ==>
      var t := After(After(START, before), later); d < |t.drainers| && t.drainers[d].Returned?
  {
    var s := After(START, before);
    RunKeepsInv(START, before);
    assert DrainerOk(s.core, s.drainers[d]);
    if s.drainers[d].Waiting? {
      assert Own(Wake(d), d) && Enabled(s, Wake(d));
    } else if !s.drainers[d].Returned? {
      assert Own(StepDrain(d), d) && Enabled(s, StepDrain(d));
    }
    if OwnSteps(later, d) >= 2 {
      SettledDrainersReturn(s, later, d);
    }
  }
}
