/** What the coordinator answers, said from the history of actions instead of its state. */
module DrainHistory {
  import opened DrainProtocol

  lemma {:induction false} RunSnoc(s: System, actions: seq<Action>, a: Action)
    requires IsRun(s, actions + [a])
    ensures IsRun(s, actions) && Enabled(After(s, actions), a)
    ensures After(s, actions + [a]) == Apply(After(s, actions), a)
    decreases |actions|
  {
    hide Enabled, Apply;
    if actions == [] {
      assert actions + [a] == [a] && [a][1..] == [];
    } else {
      assert (actions + [a])[1..] == actions[1..] + [a];
      RunSnoc(Apply(s, actions[0]), actions[1..], a);
    }
  }

  // ----- who is admitted

  /** The `i`-th action is the first step of a call of Drain. */
  ghost predicate FirstStep(actions: seq<Action>, i: nat) {
    && i < |actions| && actions[i].StepDrain?
    && forall j :: 0 <= j < i ==> actions[j] != actions[i]
  }

  /** Something in the history asked the coordinator to stop admitting. */
  ghost predicate Stopping(actions: seq<Action>) {
    exists i :: 0 <= i < |actions|
                && (actions[i].CallStartDraining? || actions[i].CallForce? || FirstStep(actions, i))
  }

  /** A drainer is where it was called exactly as long as it has not stepped. */
  ghost predicate Untouched(actions: seq<Action>, d: nat) {
    forall j :: 0 <= j < |actions| ==> actions[j] != StepDrain(d)
  }

  lemma CalledStep(s: System, a: Action, d: nat)
    requires Enabled(s, a)
    ensures |s.drainers| <= |Apply(s, a).drainers| <= |s.drainers| + 1
    ensures d < |s.drainers| ==>
      (Apply(s, a).drainers[d].Called? <==> s.drainers[d].Called? && a != StepDrain(d))
    ensures |s.drainers| <= d < |Apply(s, a).drainers| ==> Apply(s, a).drainers[d].Called?
    ensures d >= |s.drainers| ==> a != StepDrain(d)
  {
    hide Begin, Finish, StartDraining, Force, Timeout, Enter, Check;
  }

  lemma {:induction false} CalledIff(actions: seq<Action>, d: nat)
    requires IsRun(START, actions)
    ensures d < |After(START, actions).drainers| ==>
      (After(START, actions).drainers[d].Called? <==> Untouched(actions, d))
    ensures d >= |After(START, actions).drainers| ==> Untouched(actions, d)
  {
    hide Apply, Enabled, Untouched;
    if actions == [] {
      assert Untouched([], d) by { NobodySteps(d); }
    } else {
      var past, a := actions[..|actions| - 1], actions[|actions| - 1];
      assert actions == past + [a];
      RunSnoc(START, past, a);
      CalledIff(past, d);
      CalledStep(After(START, past), a, d);
      UntouchedSnoc(past, a, d);
      hide After, IsRun;
    }
  }

  lemma NobodySteps(d: nat)
    ensures Untouched([], d)
  {}

  lemma UntouchedSnoc(past: seq<Action>, a: Action, d: nat)
    ensures Untouched(past + [a], d) <==> Untouched(past, d) && a != StepDrain(d)
  {
    var actions := past + [a];
    assert actions[|past|] == a && forall i :: 0 <= i < |past| ==> actions[i] == past[i];
  }

  lemma StoppingSnoc(past: seq<Action>, a: Action)
    ensures Stopping(past + [a]) <==>
      || Stopping(past)
      || a.CallStartDraining? || a.CallForce?
      || (a.StepDrain? && Untouched(past, a.drainer))
  {
    var actions := past + [a];
    assert actions[|past|] == a && forall i :: 0 <= i < |past| ==> actions[i] == past[i];
    forall i | 0 <= i < |past| ensures FirstStep(actions, i) <==> FirstStep(past, i) {
    }
    if a.StepDrain? && Untouched(past, a.drainer) {
      assert FirstStep(actions, |past|);
    }
    if Stopping(past) {
      var i :| 0 <= i < |past| && (past[i].CallStartDraining? || past[i].CallForce? || FirstStep(past, i));
      assert actions[i].CallStartDraining? || actions[i].CallForce? || FirstStep(actions, i);
    }
    if a.CallStartDraining? || a.CallForce? {
      assert actions[|past|].CallStartDraining? || actions[|past|].CallForce?;
    }
  }

  /** The coordinator is running exactly as long as nothing asked it to stop. */
  lemma {:induction false} RunningIff(actions: seq<Action>)
    requires IsRun(START, actions)
    ensures After(START, actions).core.phase == Running <==> !Stopping(actions)
  {
    hide Stopping, Untouched;
    if actions == [] {
      NothingStops();
    } else {
      var past, a := actions[..|actions| - 1], actions[|actions| - 1];
      assert actions == past + [a];
      RunSnoc(START, past, a);
      RunningIff(past);
      RunKeepsInv(START, past);
      StoppingSnoc(past, a);
      var s := After(START, past);
      if a.StepDrain? {
        CalledIff(past, a.drainer);
        assert s.drainers[a.drainer] in s.drainers;
      }
      hide After, IsRun;
      PhaseStep(s, a);
    }
  }

  lemma NothingStops()
    ensures !Stopping([])
  {}

  lemma PhaseStep(s: System, a: Action)
    requires Inv(s) && Enabled(s, a)
    ensures Apply(s, a).core.phase == Running <==>
      && s.core.phase == Running && !a.CallStartDraining? && !a.CallForce?
      && !(a.StepDrain? && s.drainers[a.drainer].Called?)
  {
    if a.StepDrain? {
      assert DrainerOk(s.core, s.drainers[a.drainer]);
    }
  }

  /**
   Over every run: a request is admitted, with one lease more held and one more active, if and only
   if nothing in the run asked to stop; otherwise it changes nothing.
   */
  lemma AdmitsIff(actions: seq<Action>)
    requires IsRun(START, actions)
    ensures IsRun(START, actions + [BeginRequest])
    ensures var (before, after) := (After(START, actions), After(START, actions + [BeginRequest]));
      if Stopping(actions) then after == before
      else
        && after.leases == before.leases + [Held] && after.drainers == before.drainers
        && after.core == before.core.(active := before.core.active + 1)
  {
    hide Stopping;
    RunKeepsInv(START, actions);
    RunExtends(START, actions, BeginRequest);
    RunSnoc(START, actions, BeginRequest);
    RunningIff(actions);
  }

  lemma {:induction false} RunExtends(s: System, actions: seq<Action>, a: Action)
    requires IsRun(s, actions) && Enabled(After(s, actions), a)
    ensures IsRun(s, actions + [a])
    decreases |actions|
  {
    hide Enabled, Apply;
    if actions == [] {
      assert actions + [a] == [a] && [a][1..] == [];
    } else {
      assert (actions + [a])[1..] == actions[1..] + [a];
      RunExtends(Apply(s, actions[0]), actions[1..], a);
    }
  }

  // ----- who forces

  /** The `i`-th action is the step of a drainer whose timer fired while requests were outstanding. */
  ghost predicate TimesOut(actions: seq<Action>, i: nat) {
    && i < |actions| && actions[i].StepDrain? && IsRun(START, actions[..i])
    && var s := After(START, actions[..i]);
       && actions[i].drainer < |s.drainers| && s.drainers[actions[i].drainer].Expired?
       && Outstanding(s.leases) > 0
  }

  ghost predicate Forcing(actions: seq<Action>) {
    exists i :: 0 <= i < |actions| && (actions[i].CallForce? || TimesOut(actions, i))
  }

  lemma ForcingSnoc(past: seq<Action>, a: Action)
    ensures Forcing(past + [a]) <==> Forcing(past) || a.CallForce? || TimesOut(past + [a], |past|)
  {
    hide IsRun, After;
    var actions := past + [a];
    assert actions[|past|] == a;
    forall i | 0 <= i < |past| ensures actions[i] == past[i] && (TimesOut(actions, i) <==> TimesOut(past, i)) {
      assert actions[..i] == past[..i];
    }
    if Forcing(past) {
      var i :| 0 <= i < |past| && (past[i].CallForce? || TimesOut(past, i));
      assert actions[i].CallForce? || TimesOut(actions, i);
    }
    if a.CallForce? || TimesOut(actions, |past|) {
      assert actions[|past|].CallForce? || TimesOut(actions, |past|);
    }
    if Forcing(actions) {
      var i :| 0 <= i < |actions| && (actions[i].CallForce? || TimesOut(actions, i));
      if i < |past| {
        assert past[i].CallForce? || TimesOut(past, i);
      }
    }
  }

  lemma ForcedStep(s: System, a: Action)
    requires Inv(s) && Enabled(s, a)
    ensures Apply(s, a).core.phase == Forced <==>
      || s.core.phase == Forced || a.CallForce?
      || (a.StepDrain? && s.drainers[a.drainer].Expired? && Outstanding(s.leases) > 0)
  {
    if a.StepDrain? {
      assert DrainerOk(s.core, s.drainers[a.drainer]);
    }
  }

  /** Shutdown is forced exactly when somebody forced it, or a timer fired with requests outstanding. */
  lemma {:induction false} ForcedIff(actions: seq<Action>)
    requires IsRun(START, actions)
    ensures After(START, actions).core.phase == Forced <==> Forcing(actions)
  {
    hide Forcing, TimesOut;
    if actions == [] {
      NothingForces();
    } else {
      var past, a := actions[..|actions| - 1], actions[|actions| - 1];
      assert actions == past + [a];
      RunSnoc(START, past, a);
      ForcedIff(past);
      RunKeepsInv(START, past);
      ForcingSnoc(past, a);
      TimesOutLast(past, a);
      hide After, IsRun;
      ForcedStep(After(START, past), a);
    }
  }

  lemma NothingForces()
    ensures !Forcing([])
  {}

  lemma TimesOutLast(past: seq<Action>, a: Action)
    requires IsRun(START, past)
    ensures TimesOut(past + [a], |past|) <==>
      && a.StepDrain? && a.drainer < |After(START, past).drainers|
      && After(START, past).drainers[a.drainer].Expired? && Outstanding(After(START, past).leases) > 0
  {
    hide IsRun, After;
    assert (past + [a])[..|past|] == past;
  }

  /** What the calls themselves answer. */
  lemma CallsAnswer(actions: seq<Action>)
    requires IsRun(START, actions)
    ensures var c := After(START, actions).core;
      && Sound(c)
      && (Begin(c).0 <==> !Stopping(actions)) && (StartDraining(c).0 <==> !Stopping(actions))
      && (Force(c).0 <==> !Forcing(actions))
  {
    hide Stopping, Forcing;
    RunKeepsInv(START, actions);
    RunningIff(actions);
    ForcedIff(actions);
  }

  // ----- what a drain reports

  /** The drainer entered its wait loop while `start` requests were outstanding. */
  ghost predicate EnteredWith(actions: seq<Action>, d: nat, start: int) {
    exists j :: 0 <= j < |actions| && EntersAt(actions, d, start, j)
  }

  ghost predicate EntersAt(actions: seq<Action>, d: nat, start: int, j: nat) {
    && j < |actions| && actions[j] == StepDrain(d) && IsRun(START, actions[..j])
    && var s := After(START, actions[..j]);
       && d < |s.drainers| && s.drainers[d].Started?
       && s.core.phase == Draining && Outstanding(s.leases) == start && start > 0
  }

  lemma EnteredStays(past: seq<Action>, a: Action, d: nat, start: int)
    requires EnteredWith(past, d, start)
    ensures EnteredWith(past + [a], d, start)
  {
    hide IsRun, After;
    var j :| 0 <= j < |past| && EntersAt(past, d, start, j);
    assert (past + [a])[..j] == past[..j] && (past + [a])[j] == past[j];
    assert EntersAt(past + [a], d, start, j);
  }

  ghost predicate InLoop(d: Drainer) {
    d.Looping? || d.Waiting? || d.Expired?
  }

  lemma LoopStep(s: System, a: Action, d: nat)
    requires Inv(s) && Enabled(s, a) && d < |Apply(s, a).drainers| && InLoop(Apply(s, a).drainers[d])
    ensures d < |s.drainers|
    ensures InLoop(s.drainers[d]) ==> Apply(s, a).drainers[d].start == s.drainers[d].start
    ensures !InLoop(s.drainers[d]) ==>
      && a == StepDrain(d) && s.drainers[d].Started? && s.core.phase == Draining
      && Apply(s, a).drainers[d].start == Outstanding(s.leases) > 0
  {
    hide Begin, Finish, StartDraining, Force, Timeout, ChannelsOk;
    if d < |s.drainers| {
      assert DrainerOk(s.core, s.drainers[d]);
    }
  }

  /** A drainer in its loop remembers how many requests were outstanding when it entered it. */
  lemma {:induction false} StartIsCount(actions: seq<Action>, d: nat)
    requires IsRun(START, actions) && d < |After(START, actions).drainers|
    requires InLoop(After(START, actions).drainers[d])
    ensures EnteredWith(actions, d, After(START, actions).drainers[d].start)
  {
    hide EnteredWith, Apply, Enabled, Inv;
    var past, a := actions[..|actions| - 1], actions[|actions| - 1];
    assert actions == past + [a];
    RunSnoc(START, past, a);
    StartInv();
    RunKeepsInv(START, past);
    var s := After(START, past);
    LoopStep(s, a, d);
    var start := After(START, actions).drainers[d].start;
    if InLoop(s.drainers[d]) {
      StartIsCount(past, d);
      EnteredStays(past, a, d, start);
    } else {
      assert actions[..|past|] == past && actions[|past|] == a;
      assert EntersAt(actions, d, start, |past|);
      EntersSome(actions, d, start, |past|);
    }
  }

  lemma StartInv()
    ensures Inv(START)
  {}

  lemma EntersSome(actions: seq<Action>, d: nat, start: int, j: nat)
    requires EntersAt(actions, d, start, j)
    ensures EnteredWith(actions, d, start)
  {}

  /**
   Over every run, what a drainer reports when it returns: Completed, with nothing remaining and the
   count it entered with (none if it never waited), exactly when nothing is outstanding and it was
   not turned away by a forced shutdown; TimedOut, with what is outstanding, exactly when its timer
   fired with requests outstanding; and otherwise that shutdown was forced, with what is outstanding.
   */
  lemma ReportExact(actions: seq<Action>, d: nat)
    requires IsRun(START, actions + [StepDrain(d)])
    requires IsRun(START, actions) && d < |After(START, actions).drainers|
    requires var t := After(START, actions + [StepDrain(d)]); d < |t.drainers| && t.drainers[d].Returned?
    ensures var s := After(START, actions);
      var o := After(START, actions + [StepDrain(d)]).drainers[d].outcome;
      var n := Outstanding(s.leases);
      var turned := s.drainers[d].Started? && Forcing(actions);
      && (o.kind == Completed <==> n == 0 && !turned)
      && (o.kind == TimedOut <==> s.drainers[d].Expired? && n > 0)
      && (o.kind == ForcedOut ==> Forcing(actions))
      && o.remaining == n
      && (o.kind != Completed || s.drainers[d].Started? ==> o.activeAtStart == 0)
      && (o.kind == Completed && !s.drainers[d].Started? ==> EnteredWith(actions, d, o.activeAtStart))
  {
    hide Forcing, EnteredWith;
    RunSnoc(START, actions, StepDrain(d));
    RunKeepsInv(START, actions);
    ForcedIff(actions);
    if InLoop(After(START, actions).drainers[d]) {
      StartIsCount(actions, d);
    }
    hide After, IsRun;
    ReportStep(After(START, actions), d);
  }

  lemma ReportStep(s: System, d: nat)
    requires Inv(s) && Enabled(s, StepDrain(d)) && Apply(s, StepDrain(d)).drainers[d].Returned?
    ensures var o := Apply(s, StepDrain(d)).drainers[d].outcome;
      var w, n := s.drainers[d], Outstanding(s.leases);
      && (w.Started? || w.Looping? || w.Expired?)
      && (o.kind == Completed <==> n == 0 && !(w.Started? && s.core.phase == Forced))
      && (o.kind == TimedOut <==> w.Expired? && n > 0)
      && (o.kind == ForcedOut ==> s.core.phase == Forced)
      && o.remaining == n
      && (o.kind != Completed || w.Started? ==> o.activeAtStart == 0)
      && (o.kind == Completed && !w.Started? ==> o.activeAtStart == w.start)
  {
    assert DrainerOk(s.core, s.drainers[d]);
  }
}
