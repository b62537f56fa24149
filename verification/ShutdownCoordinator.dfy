/** The coordinator as objects: every method is one critical section of the drain protocol. */
module ShutdownCoordinator {
  import opened Prelude
  import opened DrainProtocol

  class Channel {
    var closed: bool

    constructor ()
      ensures !closed
    {
      closed := false;
    }
  }

  ghost function Flags(channels: seq<Channel>): (flags: seq<bool>)
    reads channels
    ensures |flags| == |channels|
    ensures forall i :: 0 <= i < |flags| ==> flags[i] == channels[i].closed
  {
    if channels == [] then []
    else Flags(channels[..|channels| - 1]) + [channels[|channels| - 1].closed]
  }

  class Coordinator {
    var phase: Phase
    var active: int
    var changed: Channel
    /** Every channel made so far, oldest first. */
    ghost var channels: seq<Channel>

    ghost predicate Valid()
      reads this, channels
    {
      && channels != [] && changed == channels[|channels| - 1] && !changed.closed
      && Distinct(channels)
    }

    /** Channels are only added, and those added are new objects. */
    twostate predicate Grown()
      reads this
    {
      old(channels) <= channels && forall i :: |old(channels)| <= i < |channels| ==> fresh(channels[i])
    }

    ghost function View(): Core
      reads this, channels
    {
      Core(phase, active, Flags(channels), if channels == [] then 0 else |channels| - 1, false)
    }

    constructor ()
      ensures Valid() && View() == INITIAL && fresh(channels) && |channels| == 1
    {
      var first := new Channel();
      phase, active, changed, channels := Running, 0, first, [first];
    }

    /** Wakes every waiter; the channel it closes is always open. */
    method NotifyLocked()
      requires Valid()
      modifies this`changed, this`channels, changed
      ensures Valid() && Grown() && View() == Notify(old(View()))
      ensures channels == old(channels) + [changed]
    {
      changed.closed := true;
      var next := new Channel();
      changed, channels := next, channels + [next];
    }

    method BeginLocked() returns (admitted: bool)
      requires Valid()
      modifies this`active
      ensures Valid() && (admitted, View()) == Begin(old(View()))
    {
      if phase != Running {
        return false;
      }
      active := active + 1;
      return true;
    }

    method StartDrainingLocked() returns (started: bool)
      requires Valid()
      modifies this`phase, this`changed, this`channels, changed
      ensures Valid() && Grown() && (started, View()) == StartDraining(old(View()))
    {
      if phase != Running {
        return false;
      }
      phase := Draining;
      NotifyLocked();
      return true;
    }

    method ForceShutdownLocked() returns (forced: bool)
      requires Valid()
      modifies this`phase, this`changed, this`channels, changed
      ensures Valid() && Grown() && (forced, View()) == Force(old(View()))
    {
      if phase == Forced {
        return false;
      }
      phase := Forced;
      NotifyLocked();
      return true;
    }

    /** First critical section of Drain after it has started draining. */
    method DrainEnterLocked() returns (done: Option<Outcome>, activeAtStart: int)
      requires Valid()
      ensures done == Enter(View()) && activeAtStart == View().active
    {
      activeAtStart := active;
      if phase == Forced {
        return Some(Outcome(ForcedOut, 0, activeAtStart)), activeAtStart;
      }
      if activeAtStart == 0 {
        return Some(Outcome(Completed, 0, 0)), activeAtStart;
      }
      return None, activeAtStart;
    }

    /** Top of the wait loop: a result, or the channel to sleep on. */
    method DrainCheckLocked(start: int) returns (done: Option<Outcome>, channel: Channel)
      requires Valid()
      ensures done == Check(View(), start)
      ensures channel == channels[View().changed]
    {
      channel := changed;
      if active == 0 {
        return Some(Outcome(Completed, start, 0)), channel;
      }
      if phase == Forced {
        return Some(Outcome(ForcedOut, 0, active)), channel;
      }
      return None, channel;
    }

    method DrainTimeoutLocked(start: int) returns (outcome: Outcome)
      requires Valid()
      modifies this`phase, this`changed, this`channels, changed
      ensures Valid() && Grown() && (outcome, View()) == Timeout(old(View()), start)
    {
      if active == 0 {
        return Outcome(Completed, start, 0);
      }
      var remaining := active;
      phase := Forced;
      NotifyLocked();
      return Outcome(TimedOut, 0, remaining);
    }
  }

  class DrainLease {
    var finished: bool
    const coordinator: Coordinator

    constructor (coordinator: Coordinator)
      ensures !finished && this.coordinator == coordinator
    {
      this.coordinator := coordinator;
      finished := false;
    }

    /** Only the first call has an effect; `panicked` reports the accounting panic. */
    method FinishOnce() returns (panicked: bool)
      requires coordinator.Valid()
      modifies this`finished, coordinator`active, coordinator`changed, coordinator`channels, coordinator.changed
      ensures finished && coordinator.Valid() && coordinator.Grown()
      ensures old(finished) ==> !panicked && coordinator.View() == old(coordinator.View())
      ensures !old(finished) ==>
        coordinator.View().(panicked := panicked) == Finish(old(coordinator.View()))
    {
      if finished {
        return false;
      }
      finished := true;
      if coordinator.active <= 0 {
        return true;
      }
      coordinator.active := coordinator.active - 1;
      coordinator.NotifyLocked();
      return false;
    }
  }

  /**
   A service: its coordinator, the leases it handed out and where its calls of Drain stand. Each
   method is one step of the protocol, taken on the objects.
   */
  class Service {
    const coordinator: Coordinator
    var leases: seq<DrainLease>
    var drainers: seq<Drainer>
    /** How many channels there have been; a waiter is told which one it sleeps on by its number. */
    var made: nat
    ghost var status: seq<Lease>

    ghost predicate Valid()
      reads this, coordinator, coordinator.channels, leases
    {
      && coordinator.Valid() && made == |coordinator.channels|
      && |leases| == |status| && Distinct(leases)
      && forall i :: 0 <= i < |leases| ==>
           leases[i].coordinator == coordinator && (leases[i].finished <==> status[i] == Finished)
    }

    ghost function View(): System
      reads this, coordinator, coordinator.channels
    {
      System(coordinator.View(), status, drainers)
    }

    constructor ()
      ensures Valid() && View() == START && fresh(coordinator) && fresh(coordinator.channels) && leases == []
    {
      hide Flags, Inv;
      coordinator := new Coordinator();
      leases, drainers, made, status := [], [], 1, [];
    }

    method Begin()
      requires Valid()
      modifies this`leases, this`status, coordinator`active
      ensures Valid() && View() == Apply(old(View()), BeginRequest) && Extended()
    {
      hide Inv, Flags;
      var admitted := coordinator.BeginLocked();
      if admitted {
        var lease := new DrainLease(coordinator);
        leases, status := leases + [lease], status + [Held];
      }
    }

    method Finish(l: nat)
      requires Valid() && l < |leases| && status[l] == Finishing && Inv(View())
      modifies this`status, this`made, leases[l]
      modifies coordinator`active, coordinator`changed, coordinator`channels, coordinator.changed
      ensures Valid() && View() == Apply(old(View()), RunFinish(l)) && coordinator.Grown()
    {
      hide Flags, DrainerOk, ChannelsOk;
      OutstandingPositive(status, l);
      var before := coordinator.changed;
      var panicked := leases[l].FinishOnce();
      status := status[l := Finished];
      Count(before);
    }

    /** A second call of Finish changes nothing. */
    method FinishTwice(l: nat)
      requires Valid() && l < |leases| && status[l] == Finished
      modifies leases[l]
      modifies coordinator`active, coordinator`changed, coordinator`channels, coordinator.changed
      ensures Valid() && View() == Apply(old(View()), FinishAgain(l)) && coordinator.Grown()
    {
      hide Inv, Flags;
      var panicked := leases[l].FinishOnce();
    }

    method StartDraining()
      requires Valid()
      modifies this`made, coordinator`phase, coordinator`changed, coordinator`channels, coordinator.changed
      ensures Valid() && View() == Apply(old(View()), CallStartDraining) && coordinator.Grown()
    {
      hide Inv, Flags;
      var before := coordinator.changed;
      var started := coordinator.StartDrainingLocked();
      Count(before);
    }

    method Force()
      requires Valid()
      modifies this`made, coordinator`phase, coordinator`changed, coordinator`channels, coordinator.changed
      ensures Valid() && View() == Apply(old(View()), CallForce) && coordinator.Grown()
    {
      hide Inv, Flags;
      var before := coordinator.changed;
      var forced := coordinator.ForceShutdownLocked();
      Count(before);
    }

    /** The next critical section of one call of Drain, and where the call stands then. */
    method Section(drainer: Drainer) returns (next: Drainer)
      requires Valid() && !drainer.Waiting? && !drainer.Returned?
      modifies coordinator`phase, coordinator`changed, coordinator`channels, coordinator.changed
      ensures coordinator.Valid() && coordinator.Grown()
      ensures |old(coordinator.channels)| <= |coordinator.channels| <= |old(coordinator.channels)| + 1
      ensures coordinator.changed == old(coordinator.changed) <==>
        |coordinator.channels| == |old(coordinator.channels)|
      ensures Sound(old(coordinator.View()))
      ensures (coordinator.View(), next) == DrainerStep(old(coordinator.View()), drainer)
    {
      hide Inv, Flags;
      match drainer {
        case Called =>
          var started := coordinator.StartDrainingLocked();
          next := Started;
        case Started =>
          var done, active := coordinator.DrainEnterLocked();
          next := if done.Some? then Returned(done.value) else Looping(active);
        case Looping(start) =>
          var done, channel := coordinator.DrainCheckLocked(start);
          next := if done.Some? then Returned(done.value) else Waiting(start, made - 1, coordinator.active);
        case Expired(start) =>
          var outcome := coordinator.DrainTimeoutLocked(start);
          next := Returned(outcome);
      }
    }

    method StepDrainer(d: nat)
      requires Valid() && Enabled(View(), StepDrain(d))
      modifies this`made, this`drainers
      modifies coordinator`phase, coordinator`changed, coordinator`channels, coordinator.changed
      ensures Valid() && View() == Apply(old(View()), StepDrain(d)) && coordinator.Grown()
    {
      hide Inv, Flags, DrainerStep;
      var before := coordinator.changed;
      var next := Section(drainers[d]);
      drainers := drainers[d := next];
      Count(before);
    }

    /** Brings the number of channels up to date. */
    method Count(before: Channel)
      modifies this`made
      ensures made == old(made) + (if coordinator.changed == before then 0 else 1)
    {
      if coordinator.changed != before {
        made := made + 1;
      }
    }

    /** Leases are only added, and those added are new objects. */
    twostate predicate Extended()
      reads this
    {
      old(leases) <= leases && forall i :: |old(leases)| <= i < |leases| ==> fresh(leases[i])
    }

    /** Any one action of the protocol. */
    method Act(a: Action)
      requires Valid() && Inv(View()) && Enabled(View(), a)
      modifies this, leases, coordinator, coordinator.changed
      ensures Valid() && View() == Apply(old(View()), a) && coordinator.Grown() && Extended()
    {
      hide Inv, Flags;
      match a {
        case BeginRequest => Begin();
        case EnterFinish(l) => status := status[l := Finishing];
        case RunFinish(l) => Finish(l);
        case FinishAgain(l) => FinishTwice(l);
        case CallStartDraining => StartDraining();
        case CallForce => Force();
        case CallDrain => drainers := drainers + [Called];
        case StepDrain(d) => StepDrainer(d);
        case Wake(d) => drainers := drainers[d := Looping(drainers[d].start)];
        case FireTimer(d) => drainers := drainers[d := Expired(drainers[d].start)];
      }
    }
  }

  /** Every interleaving, carried out on the objects, is the protocol's run. */
  method Perform(actions: seq<Action>) returns (service: Service)
    requires IsRun(START, actions)
    ensures service.Valid() && service.View() == After(START, actions)
  {
    hide Inv, Flags, Apply, Enabled;
    service := new Service();
    StartOk();
    var i := 0;
    while i < |actions|
      invariant 0 <= i <= |actions|
      invariant fresh(service) && fresh(service.coordinator) && fresh(service.coordinator.channels) && fresh(service.leases)
      invariant service.Valid() && Inv(service.View())
      invariant IsRun(service.View(), actions[i..])
      invariant After(service.View(), actions[i..]) == After(START, actions)
    {
      assert actions[i..][1..] == actions[i + 1..];
      StepKeepsInv(service.View(), actions[i]);
      service.Act(actions[i]);
      i := i + 1;
    }
  }

  lemma StartOk()
    ensures Inv(START)
  {}
}
