/**
 The hardened stage pipeline. Stages and finalizers are arbitrary: each position in the pipeline
 carries functions that say what its task returned, or how it failed.
 */
module StagePipeline {
  import opened Prelude
  import opened StageProblem

  datatype FailureKind = Panic | Cancelled | DeadlineExceeded

  datatype FailureMode = FailOpen | FailClosed

  datatype Input = Input(requestId: string, attributes: seq<Attribute>, payload: string)

  datatype Rejection = Rejection(status: nat, code: string, headers: seq<(string, string)>)

  datatype Decision = Continue(next: Input) | Respond(response: Response) | Reject(rejection: Rejection)

  datatype Stage = Stage(
    name: string,
    request: Input -> Result<Decision, FailureKind>,
    finalize: (Input, Response) -> Result<Response, FailureKind>,
    mode: FailureMode)

  datatype FinalizerOutcome = Succeeded | Failed(kind: FailureKind)

  datatype FinalizerEvent = FinalizerEvent(stage: string, outcome: FinalizerOutcome)

  datatype Execution = Execution(response: Response, finalizers: seq<FinalizerEvent>)

  /** What the pipeline invoked, in order. */
  datatype Call =
    | RequestCall(stage: nat, input: Input)
    | HandlerCall(input: Input)
    | FinalizerCall(stage: nat, input: Input, response: Response)

  // ----- going in

  /** A stage that took the request, with the input its finalizer will see. */
  datatype Entry = Entry(stage: nat, input: Input)

  /** How the descent ended: in the handler, with an answer, or in a failed stage. */
  datatype Ending =
    | ToHandler(input: Input)
    | Answered(response: Response)
    | StageFailed(stage: nat, kind: FailureKind, response: Response)

  datatype Descent = Descent(requests: seq<Call>, entered: seq<Entry>, ending: Ending)

  function FailureCode(kind: FailureKind): string {
    match kind
    case Panic => "stage_panic"
    case Cancelled => "stage_cancelled"
    case DeadlineExceeded => "stage_deadline_exceeded"
  }

  function InvalidAttributesProblem(input: Input): Response {
    SanitizedProblem(500, "stage_attributes_invalid", input.requestId, [])
  }

  /** Where one stage's result leads. */
  datatype Turn = Onward(next: Input) | Stop(entered: seq<Entry>, ending: Ending)

  function TurnOf(stage: Stage, i: nat, input: Input): Turn {
    match stage.request(input)
    case Ok(Continue(next)) =>
      if ValidAttributes(next.attributes) then Onward(next)
      else Stop([Entry(i, next)], Answered(InvalidAttributesProblem(next)))
    case Ok(Respond(response)) => Stop([Entry(i, input)], Answered(response))
    case Ok(Reject(r)) =>
      Stop([Entry(i, input)], Answered(SanitizedProblem(r.status, r.code, input.requestId, r.headers)))
    case Err(kind) =>
      Stop([], StageFailed(i, kind, SanitizedProblem(500, FailureCode(kind), input.requestId, [])))
  }

  ghost function Descend(stages: seq<Stage>, i: nat, input: Input): Descent
    requires i <= |stages|
    decreases |stages| - i
  {
    if i == |stages| then Descent([], [], ToHandler(input))
    else match TurnOf(stages[i], i, input)
      case Onward(next) =>
        var d := Descend(stages, i + 1, next);
        Descent([RequestCall(i, input)] + d.requests, [Entry(i, next)] + d.entered, d.ending)
      case Stop(entered, ending) => Descent([RequestCall(i, input)], entered, ending)
  }

  // ----- coming back

  /** The `k`-th finalizer to run belongs to the stage entered `k`-th from last. */
  function Nth(entered: seq<Entry>, k: nat): Entry
    requires k < |entered|
  {
    entered[|entered| - 1 - k]
  }

  /** Failed finalizers aside, the response after `k` finalizers, each applied to the one before. */
  ghost function Composed(stages: seq<Stage>, entered: seq<Entry>, response: Response, k: nat): Response
    requires k <= |entered| && forall e :: e in entered ==> e.stage < |stages|
  {
    if k == 0 then response
    else
      var before := Composed(stages, entered, response, k - 1);
      var e := Nth(entered, k - 1);
      match stages[e.stage].finalize(e.input, before) case Ok(next) => next case Err(_) => before
  }

  /** The `k`-th finalizer fails on the composed response and its stage fails closed. */
  ghost predicate Fatal(stages: seq<Stage>, entered: seq<Entry>, response: Response, k: nat)
    requires k < |entered| && forall e :: e in entered ==> e.stage < |stages|
  {
    var e := Nth(entered, k);
    && stages[e.stage].finalize(e.input, Composed(stages, entered, response, k)).Err?
    && stages[e.stage].mode == FailClosed
  }

  ghost predicate FirstFatal(stages: seq<Stage>, entered: seq<Entry>, response: Response, k: nat)
    requires k < |entered| && forall e :: e in entered ==> e.stage < |stages|
  {
    Fatal(stages, entered, response, k) && forall j :: 0 <= j < k ==> !Fatal(stages, entered, response, j)
  }

  function FinalizerProblem(input: Input): Response {
    SanitizedProblem(500, "finalizer_failure", input.requestId, [])
  }

  /** The response the `k`-th finalizer is given, and for `k` the number of entries, the result. */
  ghost predicate GivenAt(stages: seq<Stage>, entered: seq<Entry>, response: Response, k: nat, given: Response)
    requires k <= |entered| && forall e :: e in entered ==> e.stage < |stages|
  {
    if exists j :: 0 <= j < k && FirstFatal(stages, entered, response, j)
    then exists j :: 0 <= j < k && FirstFatal(stages, entered, response, j)
                     && IsProblem(given, 500, "finalizer_failure", Nth(entered, j).input.requestId, [])
    else given == Composed(stages, entered, response, k)
  }

  function OutcomeOf(result: Result<Response, FailureKind>): FinalizerOutcome {
    match result case Ok(_) => Succeeded case Err(kind) => Failed(kind)
  }

  /** The unwinding loop's response and its terminal-failure flag after `k` finalizers. */
  ghost function Progress(stages: seq<Stage>, entered: seq<Entry>, response: Response, k: nat): (Response, bool)
    requires k <= |entered| && forall e :: e in entered ==> e.stage < |stages|
  {
    if k == 0 then (response, false)
    else
      var (current, terminal) := Progress(stages, entered, response, k - 1);
      var e := Nth(entered, k - 1);
      match stages[e.stage].finalize(e.input, current)
      case Ok(next) => (if terminal then current else next, terminal)
      case Err(_) =>
        if stages[e.stage].mode == FailClosed && !terminal then (FinalizerProblem(e.input), true)
        else (current, terminal)
  }

  /** One finalizer more, before and after the first that fails closed. */
  lemma ProgressUnfolds(stages: seq<Stage>, entered: seq<Entry>, response: Response, k: nat)
    requires 0 < k <= |entered| && forall e :: e in entered ==> e.stage < |stages|
    ensures var (current, terminal) := Progress(stages, entered, response, k - 1);
      && (terminal ==> Progress(stages, entered, response, k) == (current, true))
      && (!terminal && current == Composed(stages, entered, response, k - 1) ==>
            Progress(stages, entered, response, k)
            == if Fatal(stages, entered, response, k - 1) then (FinalizerProblem(Nth(entered, k - 1).input), true)
               else (Composed(stages, entered, response, k), false))
  {
    hide FinalizerProblem;
  }

  lemma {:induction false} ProgressFatal(
    stages: seq<Stage>, entered: seq<Entry>, response: Response, k: nat)
    requires k <= |entered| && forall e :: e in entered ==> e.stage < |stages|
    ensures var (current, terminal) := Progress(stages, entered, response, k);
      if terminal then
        exists j :: 0 <= j < k && FirstFatal(stages, entered, response, j)
                    && current == FinalizerProblem(Nth(entered, j).input)
      else
        && current == Composed(stages, entered, response, k)
        && forall j :: 0 <= j < k ==> !Fatal(stages, entered, response, j)
  {
    hide FinalizerProblem, Fatal, Nth;
    if k == 0 {
    } else {
      ProgressFatal(stages, entered, response, k - 1);
      ProgressUnfolds(stages, entered, response, k);
      hide Progress, Composed;
      if Fatal(stages, entered, response, k - 1) && !Progress(stages, entered, response, k - 1).1 {
        assert FirstFatal(stages, entered, response, k - 1);
      }
    }
  }

  /** The loop hands each finalizer what the fold says. */
  lemma ProgressExact(stages: seq<Stage>, entered: seq<Entry>, response: Response, k: nat)
    requires k <= |entered| && forall e :: e in entered ==> e.stage < |stages|
    ensures GivenAt(stages, entered, response, k, Progress(stages, entered, response, k).0)
  {
    hide Composed, Progress, FinalizerProblem, IsProblem, Fatal, Nth;
    ProgressFatal(stages, entered, response, k);
    forall j | 0 <= j < k
      ensures IsProblem(FinalizerProblem(Nth(entered, j).input), 500, "finalizer_failure", Nth(entered, j).input.requestId, [])
    {
      FinalizerProblemIs(Nth(entered, j).input);
    }
  }

  lemma FinalizerProblemIs(input: Input)
    ensures IsProblem(FinalizerProblem(input), 500, "finalizer_failure", input.requestId, [])
  {
    hide IsProblem, SanitizedProblem;
    ProblemExact(500, "finalizer_failure", input.requestId, []);
  }

  ghost predicate Unwinds(stages: seq<Stage>, entered: seq<Entry>, initial: Response, k: nat, call: Call,
                          event: FinalizerEvent)
    requires k < |entered| && forall e :: e in entered ==> e.stage < |stages|
  {
    var e := Nth(entered, k);
    && call == FinalizerCall(e.stage, e.input, Progress(stages, entered, initial, k).0)
    && event == FinalizerEvent(stages[e.stage].name, OutcomeOf(stages[e.stage].finalize(e.input, call.response)))
  }

  /**
   Runs every entered stage's finalizer once, last entered first. Each sees the composition of the
   finalizers before it until the first one that fails closed; from then on everyone sees, and the
   caller gets, the problem for that failure.
   */
  method UnwindHardened(stages: seq<Stage>, entered: seq<Entry>, initial: Response)
    returns (result: Execution, calls: seq<Call>)
    requires forall e :: e in entered ==> e.stage < |stages|
    ensures |calls| == |entered| == |result.finalizers|
    ensures forall k :: 0 <= k < |calls| ==>
      Unwinds(stages, entered, initial, k, calls[k], result.finalizers[k])
    ensures result.response == Progress(stages, entered, initial, |entered|).0
  {
    hide FinalizerProblem;
    var response, events, terminal := initial, [], false;
    calls := [];
    var k := 0;
    while k < |entered|
      invariant 0 <= k <= |entered| && |calls| == |events| == k
      invariant (response, terminal) == Progress(stages, entered, initial, k)
      invariant forall j :: 0 <= j < k ==> Unwinds(stages, entered, initial, j, calls[j], events[j])
      decreases |entered| - k
    {
      var e := entered[|entered| - 1 - k];
      var stage := stages[e.stage];
      var outcome := stage.finalize(e.input, response);
      calls := calls + [FinalizerCall(e.stage, e.input, response)];
      events := events + [FinalizerEvent(stage.name, OutcomeOf(outcome))];
      match outcome {
        case Ok(next) =>
          if !terminal {
            response := next;
          }
        case Err(_) =>
          if stage.mode == FailClosed && !terminal {
            response := FinalizerProblem(e.input);
            terminal := true;
          }
      }
      k := k + 1;
    }
    result := Execution(response, events);
  }

  // ----- a whole execution

  /** The `i`-th stage passed `input` on as `next`, with attributes within bounds. */
  ghost predicate Passes(stages: seq<Stage>, i: nat, input: Input, next: Input)
    requires i < |stages|
  {
    stages[i].request(input) == Ok(Continue(next)) && ValidAttributes(next.attributes)
  }

  /** What the finalizer of a stage sees: what it passed on, or what it received if it answered. */
  ghost predicate EntryFor(stages: seq<Stage>, i: nat, input: Input, e: Entry)
    requires i < |stages|
  {
    && e.stage == i
    && match stages[i].request(input)
       case Ok(Continue(next)) => e.input == next
       case Ok(_) => e.input == input
       case Err(_) => false
  }

  lemma DescendEnds(stages: seq<Stage>, input: Input)
    ensures Descend(stages, |stages|, input) == Descent([], [], ToHandler(input))
  {}

  lemma DescendUnfolds(stages: seq<Stage>, i: nat, input: Input)
    requires i < |stages|
    ensures match TurnOf(stages[i], i, input)
      case Onward(next) =>
        var rest := Descend(stages, i + 1, next);
        Descend(stages, i, input)
        == Descent([RequestCall(i, input)] + rest.requests, [Entry(i, next)] + rest.entered, rest.ending)
      case Stop(entered, ending) => Descend(stages, i, input) == Descent([RequestCall(i, input)], entered, ending)
  {
    hide TurnOf;
  }

  /** A stage that sends the request onward passed it on; one that stops it is entered unless it failed. */
  lemma TurnPasses(stages: seq<Stage>, i: nat, input: Input)
    requires i < |stages|
    ensures match TurnOf(stages[i], i, input)
      case Onward(next) => Passes(stages, i, input, next) && EntryFor(stages, i, input, Entry(i, next))
      case Stop(entered, ending) =>
        !ending.ToHandler?
        && if ending.StageFailed? then entered == []
           else |entered| == 1 && EntryFor(stages, i, input, entered[0])
  {
    hide SanitizedProblem, ValidAttributes, FailureCode;
  }

  /** Stages are asked in order, each getting what the one before passed on. */
  lemma {:induction false} DescendAsks(stages: seq<Stage>, i: nat, input: Input)
    requires i <= |stages|
    ensures var d := Descend(stages, i, input);
      && i + |d.requests| <= |stages|
      && (d.requests != [] ==> d.requests[0] == RequestCall(i, input))
      && (forall j :: 0 <= j < |d.requests| ==> d.requests[j].RequestCall? && d.requests[j].stage == i + j)
      && (forall j :: 0 <= j < |d.requests| - 1 ==>
            Passes(stages, i + j, d.requests[j].input, d.requests[j + 1].input))
    decreases |stages| - i
  {
    hide TurnOf, Descend, Passes, EntryFor;
    if i == |stages| {
      DescendEnds(stages, input);
    } else {
      DescendUnfolds(stages, i, input);
      TurnPasses(stages, i, input);
      match TurnOf(stages[i], i, input)
      case Stop(_, _) =>
      case Onward(next) =>
        DescendAsks(stages, i + 1, next);
        var d, rest := Descend(stages, i, input).requests, Descend(stages, i + 1, next).requests;
        assert forall j :: 0 < j < |d| ==> d[j] == rest[j - 1];
        forall j | 0 <= j < |d| - 1 ensures Passes(stages, i + j, d[j].input, d[j + 1].input) {
          if j > 0 {
            assert Passes(stages, i + 1 + (j - 1), rest[j - 1].input, rest[j - 1 + 1].input);
          }
        }
    }
  }

  /** Exactly the asked stages whose request did not fail are entered. */
  lemma {:induction false} DescendEnters(stages: seq<Stage>, i: nat, input: Input)
    requires i <= |stages|
    ensures var d := Descend(stages, i, input);
      && |d.entered| == |d.requests| - (if d.ending.StageFailed? then 1 else 0)
      && i + |d.entered| <= |stages|
      && (forall j :: 0 <= j < |d.entered| ==>
            d.requests[j].RequestCall? && EntryFor(stages, i + j, d.requests[j].input, d.entered[j]))
    decreases |stages| - i
  {
    hide TurnOf, Descend, Passes, EntryFor;
    if i == |stages| {
      DescendEnds(stages, input);
    } else {
      DescendUnfolds(stages, i, input);
      TurnPasses(stages, i, input);
      match TurnOf(stages[i], i, input)
      case Stop(_, _) =>
      case Onward(next) =>
        DescendEnters(stages, i + 1, next);
        var d, rest := Descend(stages, i, input), Descend(stages, i + 1, next);
        forall j | 0 <= j < |d.entered|
          ensures d.requests[j].RequestCall? && EntryFor(stages, i + j, d.requests[j].input, d.entered[j])
        {
          if j > 0 {
            assert d.requests[j] == rest.requests[j - 1] && d.entered[j] == rest.entered[j - 1];
            assert EntryFor(stages, i + 1 + (j - 1), rest.requests[j - 1].input, rest.entered[j - 1]);
          }
        }
    }
  }

  /**
   The descent asks stages in order, each getting what the one before passed on, and stops at the
   first that does not pass the request on. Exactly the asked stages that did not fail are entered.
   */
  lemma DescendExact(stages: seq<Stage>, input: Input)
    ensures var d := Descend(stages, 0, input);
      && |d.requests| <= |stages|
      && |d.entered| == |d.requests| - (if d.ending.StageFailed? then 1 else 0)
      && (d.requests != [] ==> d.requests[0] == RequestCall(0, input))
      && (forall j :: 0 <= j < |d.requests| ==> d.requests[j].RequestCall? && d.requests[j].stage == j)
      && (forall j :: 0 <= j < |d.requests| - 1 ==>
            Passes(stages, j, d.requests[j].input, d.requests[j + 1].input))
      && (forall j :: 0 <= j < |d.entered| ==> EntryFor(stages, j, d.requests[j].input, d.entered[j]))
  {
    hide Descend, Passes, EntryFor;
    DescendAsks(stages, 0, input);
    DescendEnters(stages, 0, input);
    var d := Descend(stages, 0, input);
    forall j | 0 <= j < |d.requests| - 1 ensures Passes(stages, j, d.requests[j].input, d.requests[j + 1].input) {
      assert Passes(stages, 0 + j, d.requests[j].input, d.requests[j + 1].input);
    }
    forall j | 0 <= j < |d.entered| ensures EntryFor(stages, j, d.requests[j].input, d.entered[j]) {
      assert EntryFor(stages, 0 + j, d.requests[j].input, d.entered[j]);
    }
  }

  /** How the last stage asked decides the ending. */
  ghost predicate EndsAs(stages: seq<Stage>, last: Call, ending: Ending)
    requires last.RequestCall? && last.stage < |stages|
  {
    match stages[last.stage].request(last.input)
    case Ok(Continue(next)) =>
      if ValidAttributes(next.attributes) then ending == ToHandler(next) && last.stage + 1 == |stages|
      else ending.Answered? && IsProblem(ending.response, 500, "stage_attributes_invalid", next.requestId, [])
    case Ok(Respond(response)) => ending == Answered(response)
    case Ok(Reject(r)) =>
      ending.Answered? && IsProblem(ending.response, r.status, r.code, last.input.requestId, r.headers)
    case Err(kind) =>
      && ending.StageFailed? && ending.stage == last.stage && ending.kind == kind
      && match kind
         case Panic => IsProblem(ending.response, 500, "stage_panic", last.input.requestId, [])
         case Cancelled => IsProblem(ending.response, 500, "stage_cancelled", last.input.requestId, [])
         case DeadlineExceeded => IsProblem(ending.response, 500, "stage_deadline_exceeded", last.input.requestId, [])
  }

  lemma TurnEnds(stages: seq<Stage>, i: nat, input: Input)
    requires i < |stages|
    ensures match TurnOf(stages[i], i, input)
      case Onward(next) => i + 1 == |stages| ==> EndsAs(stages, RequestCall(i, input), ToHandler(next))
      case Stop(_, ending) => EndsAs(stages, RequestCall(i, input), ending)
  {
    hide SanitizedProblem, ValidAttributes, IsProblem;
    match stages[i].request(input)
    case Ok(Continue(next)) => ProblemExact(500, "stage_attributes_invalid", next.requestId, []);
    case Ok(Respond(_)) =>
    case Ok(Reject(r)) => ProblemExact(r.status, r.code, input.requestId, r.headers);
    case Err(kind) => ProblemExact(500, FailureCode(kind), input.requestId, []);
  }

  /** The handler is reached exactly when every stage passed the request on. */
  lemma {:induction false} EndingExact(stages: seq<Stage>, i: nat, input: Input)
    requires i <= |stages|
    ensures var d := Descend(stages, i, input);
      if d.requests == [] then i == |stages| && d.ending == ToHandler(input)
      else
        var last := d.requests[|d.requests| - 1];
        last.RequestCall? && last.stage < |stages| && EndsAs(stages, last, d.ending)
    decreases |stages| - i
  {
    hide TurnOf, Descend, EndsAs;
    if i == |stages| {
      DescendEnds(stages, input);
    } else {
      DescendUnfolds(stages, i, input);
      TurnEnds(stages, i, input);
      match TurnOf(stages[i], i, input)
      case Onward(next) =>
        EndingExact(stages, i + 1, next);
        var d, rest := Descend(stages, i, input).requests, Descend(stages, i + 1, next).requests;
        assert d[|d| - 1] == if rest == [] then RequestCall(i, input) else rest[|rest| - 1];
      case Stop(_, _) =>
    }
  }

  /** What goes into the finalizers; nothing if the handler was reached and did not return. */
  ghost function EntryResponse(d: Descent, handler: Input -> Option<Response>): Option<Response> {
    match d.ending
    case ToHandler(input) => handler(input)
    case Answered(response) => Some(response)
    case StageFailed(_, _, response) => Some(response)
  }

  /** The trailing event of a stage whose request task failed. */
  ghost function FailureEvents(stages: seq<Stage>, d: Descent): seq<FinalizerEvent> {
    match d.ending
    case StageFailed(i, kind, _) => if i < |stages| then [FinalizerEvent(stages[i].name, Failed(kind))] else []
    case _ => []
  }

  ghost function HandlerCalls(d: Descent): seq<Call> {
    if d.ending.ToHandler? then [HandlerCall(d.ending.input)] else []
  }

  /**
   The finalizers of exactly the entered stages were called in reverse; the events are those
   finalizers' outcomes, plus one for a stage that failed; the response is what the finalizers made
   of the answer.
   */
  ghost predicate Unwound(
    stages: seq<Stage>, d: Descent, answer: Response, result: Execution, unwound: seq<Call>)
    requires forall e :: e in d.entered ==> e.stage < |stages|
  {
    && |unwound| == |d.entered| && |result.finalizers| == |d.entered| + |FailureEvents(stages, d)|
    && result.finalizers[|d.entered|..] == FailureEvents(stages, d)
    && (forall k :: 0 <= k < |d.entered| ==>
          Unwinds(stages, d.entered, answer, k, unwound[k], result.finalizers[k]))
    && GivenAt(stages, d.entered, answer, |d.entered|, result.response)
  }

  /**
   One execution: the requests of the descent and then perhaps the handler were called, then the
   finalizers. The handler is awaited in the execution's own task, so a panic in it leaves the
   execution with no result and no finalizer called.
   */
  ghost predicate RunsAs(
    stages: seq<Stage>, d: Descent, handler: Input -> Option<Response>, result: Option<Execution>, asked: seq<Call>,
    unwound: seq<Call>)
    requires forall e :: e in d.entered ==> e.stage < |stages|
  {
    && asked == d.requests + HandlerCalls(d)
    && match EntryResponse(d, handler)
       case Some(answer) => result.Some? && Unwound(stages, d, answer, result.value, unwound)
       case None => result.None? && unwound == []
  }

  lemma EntriesInRange(stages: seq<Stage>, input: Input)
    ensures var d := Descend(stages, 0, input);
      && (forall e :: e in d.entered ==> e.stage < |stages|)
      && (d.ending.StageFailed? ==> d.ending.stage < |stages|)
  {
    hide Passes, Descend;
    DescendExact(stages, input);
    EndingExact(stages, 0, input);
    var d := Descend(stages, 0, input);
    forall e | e in d.entered ensures e.stage < |stages| {
      var j :| 0 <= j < |d.entered| && d.entered[j] == e;
      assert EntryFor(stages, j, d.requests[j].input, d.entered[j]);
    }
  }

  /**
   Unless a panic in the handler ends it, the finalizers an execution runs belong to the stages 0 to
   n - 1 that were entered, each once, last one first, and their events name them in that order, with
   what became of each. Every asked stage was entered unless its request failed, which adds one event
   and no finalizer. The answer comes from the handler if it was reached, else from the last stage asked.
   */
  lemma FinalizersReversed(
    stages: seq<Stage>, input: Input, handler: Input -> Option<Response>, result: Option<Execution>,
    asked: seq<Call>, unwound: seq<Call>)
    requires forall e :: e in Descend(stages, 0, input).entered ==> e.stage < |stages|
    requires RunsAs(stages, Descend(stages, 0, input), handler, result, asked, unwound)
    ensures var d := Descend(stages, 0, input);
      var n := |d.requests| - (if d.ending.StageFailed? then 1 else 0);
      var answer := if d.ending.ToHandler? then handler(d.ending.input) else Some(d.ending.response);
      && n <= |stages|
      && (result.None? <==> answer.None?)
      && (result.None? ==> unwound == [])
      && (result.Some? ==>
            && |unwound| == |d.entered| == n && |result.value.finalizers| == |d.requests|
            && GivenAt(stages, d.entered, answer.value, n, result.value.response)
            && (forall k :: 0 <= k < n ==>
                  && unwound[k].FinalizerCall? && unwound[k].stage == n - 1 - k
                  && unwound[k].input == d.entered[n - 1 - k].input
                  && GivenAt(stages, d.entered, answer.value, k, unwound[k].response)
                  && Reports(stages[n - 1 - k], unwound[k], result.value.finalizers[k]))
            && (n < |d.requests| ==>
                  n < |stages| && d.ending.stage == n
                  && result.value.finalizers[n] == FinalizerEvent(stages[n].name, Failed(d.ending.kind))))
  {
    hide Descend, GivenAt, Unwound, Reports, EntryFor, Passes;
    DescendExact(stages, input);
    if result.Some? {
      UnwoundExact(stages, input, EntryResponse(Descend(stages, 0, input), handler).value, result.value, unwound);
    }
  }

  lemma UnwoundExact(stages: seq<Stage>, input: Input, answer: Response, result: Execution, unwound: seq<Call>)
    requires forall e :: e in Descend(stages, 0, input).entered ==> e.stage < |stages|
    requires Unwound(stages, Descend(stages, 0, input), answer, result, unwound)
    ensures var d := Descend(stages, 0, input);
      var n := |d.entered|;
      && n <= |stages| && |unwound| == n && |result.finalizers| == |d.requests|
      && GivenAt(stages, d.entered, answer, n, result.response)
      && (forall k :: 0 <= k < n ==>
            && unwound[k].FinalizerCall? && unwound[k].stage == n - 1 - k
            && unwound[k].input == d.entered[n - 1 - k].input
            && GivenAt(stages, d.entered, answer, k, unwound[k].response)
            && Reports(stages[n - 1 - k], unwound[k], result.finalizers[k]))
      && (d.ending.StageFailed? ==>
            n < |stages| && d.ending.stage == n
            && result.finalizers[n] == FinalizerEvent(stages[n].name, Failed(d.ending.kind)))
  {
    hide Descend, GivenAt, Unwinds, Reports, EntryFor, Passes;
    var d := Descend(stages, 0, input);
    DescendExact(stages, input);
    FailsLast(stages, input);
    forall k | 0 <= k < |unwound|
      ensures && unwound[k].FinalizerCall? && unwound[k].stage == |unwound| - 1 - k
              && unwound[k].input == d.entered[|unwound| - 1 - k].input
              && GivenAt(stages, d.entered, answer, k, unwound[k].response)
              && Reports(stages[|unwound| - 1 - k], unwound[k], result.finalizers[k])
    {
      var j := |unwound| - 1 - k;
      assert EntryFor(stages, j, d.requests[j].input, d.entered[j]);
      FinalizerOf(stages, d.entered, d.requests[j].input, answer, k, unwound[k], result.finalizers[k]);
    }
  }

  /** The `k`-th finalizer called is that of the `k`-th stage from the end. */
  lemma FinalizerOf(
    stages: seq<Stage>, entered: seq<Entry>, input: Input, answer: Response, k: nat, call: Call,
    event: FinalizerEvent)
    requires k < |entered| && forall e :: e in entered ==> e.stage < |stages|
    requires Unwinds(stages, entered, answer, k, call, event)
    requires |entered| <= |stages| && EntryFor(stages, |entered| - 1 - k, input, entered[|entered| - 1 - k])
    ensures call.FinalizerCall? && call.stage == |entered| - 1 - k && call.input == entered[|entered| - 1 - k].input
    ensures GivenAt(stages, entered, answer, k, call.response) && Reports(stages[|entered| - 1 - k], call, event)
  {
    hide GivenAt, Progress;
    ProgressExact(stages, entered, answer, k);
  }

  /** A stage that fails is the last one asked. */
  lemma FailsLast(stages: seq<Stage>, input: Input)
    ensures var d := Descend(stages, 0, input);
      d.ending.StageFailed? ==> 0 < |d.requests| <= |stages| && d.ending.stage == |d.requests| - 1
  {
    hide Descend, Passes, EntryFor, IsProblem;
    DescendExact(stages, input);
    EndingExact(stages, 0, input);
  }

  /** The event of a finalizer names its stage and says whether it succeeded or how it failed. */
  ghost predicate Reports(stage: Stage, call: Call, event: FinalizerEvent)
    requires call.FinalizerCall?
  {
    && event.stage == stage.name
    && (event.outcome == Succeeded <==> stage.finalize(call.input, call.response).Ok?)
    && forall kind :: event.outcome == Failed(kind) <==> stage.finalize(call.input, call.response) == Err(kind)
  }

  /** Entered stages are finalized if and only if the handler, when it is reached, returns. */
  lemma FinalizedIff(
    stages: seq<Stage>, input: Input, handler: Input -> Option<Response>, result: Option<Execution>,
    asked: seq<Call>, unwound: seq<Call>)
    requires forall e :: e in Descend(stages, 0, input).entered ==> e.stage < |stages|
    requires RunsAs(stages, Descend(stages, 0, input), handler, result, asked, unwound)
    ensures var d := Descend(stages, 0, input);
      |unwound| == |d.entered| <==>
      d.entered == [] || !d.ending.ToHandler? || handler(d.ending.input).Some?
  {
    hide Descend, GivenAt, Unwinds;
  }

  /** A stage that passes everything on. */
  function Passing(name: string): Stage {
    Stage(name, (i: Input) => Ok(Continue(i)), (_: Input, r: Response) => Ok(r), FailClosed)
  }

  /** One stage passes the request on and the handler panics: the stage was entered and is never finalized. */
  lemma PanicSkipsFinalizers(input: Input)
    requires ValidAttributes(input.attributes)
    ensures var d := Descend([Passing("s")], 0, input);
      && d.entered == [Entry(0, input)]
      && RunsAs([Passing("s")], d, _ => None, None, d.requests + [HandlerCall(input)], [])
  {
    hide ValidAttributes, GivenAt, Unwinds;
    var stages := [Passing("s")];
    DescendUnfolds(stages, 0, input);
    DescendEnds(stages, input);
    assert TurnOf(stages[0], 0, input) == Onward(input);
    hide Descend;
    assert [Entry(0, input)] + [] == [Entry(0, input)];
  }

  /**
   The handler is called at most once, last, with what the last stage passed on, and exactly when
   every stage passed the request on.
   */
  lemma HandlerAtMostOnce(
    stages: seq<Stage>, input: Input, handler: Input -> Option<Response>, result: Option<Execution>,
    asked: seq<Call>, unwound: seq<Call>)
    requires forall e :: e in Descend(stages, 0, input).entered ==> e.stage < |stages|
    requires RunsAs(stages, Descend(stages, 0, input), handler, result, asked, unwound)
    ensures Descend(stages, 0, input).requests <= asked
    ensures forall i :: 0 <= i < |asked| && asked[i].HandlerCall? ==>
      i == |asked| - 1 == |stages| && Descend(stages, 0, input).ending == ToHandler(asked[i].input)
    ensures (exists i :: 0 <= i < |asked| && asked[i].HandlerCall?) <==>
      |Descend(stages, 0, input).requests| == |stages|
      && (stages != [] ==>
            var last := Descend(stages, 0, input).requests[|stages| - 1];
            last.RequestCall? && last.stage < |stages|
            && exists next :: Passes(stages, last.stage, last.input, next))
  {
    hide Descend, GivenAt, Progress, ValidAttributes, SanitizedProblem;
    var d := Descend(stages, 0, input);
    DescendExact(stages, input);
    EndingExact(stages, 0, input);
    if d.ending.ToHandler? {
      assert asked[|asked| - 1].HandlerCall?;
      if stages != [] {
        var last := d.requests[|stages| - 1];
        assert Passes(stages, last.stage, last.input, d.ending.input);
      }
    }
  }

  /** What a finalizer is given, and the final response, are determined. */
  lemma GivenUnique(
    stages: seq<Stage>, entered: seq<Entry>, response: Response, k: nat, a: Response, b: Response)
    requires k <= |entered| && forall e :: e in entered ==> e.stage < |stages|
    requires GivenAt(stages, entered, response, k, a) && GivenAt(stages, entered, response, k, b)
    ensures a == b
  {
    hide Composed, IsProblem, Fatal, SanitizedProblem;
    if exists j :: 0 <= j < k && FirstFatal(stages, entered, response, j) {
      var i :| 0 <= i < k && FirstFatal(stages, entered, response, i)
               && IsProblem(a, 500, "finalizer_failure", Nth(entered, i).input.requestId, []);
      var j :| 0 <= j < k && FirstFatal(stages, entered, response, j)
               && IsProblem(b, 500, "finalizer_failure", Nth(entered, j).input.requestId, []);
      assert i == j;
      ProblemExact(500, "finalizer_failure", Nth(entered, i).input.requestId, []);
    }
  }

  /** Asking one stage more: the descent so far, extended, is still a prefix of the whole. */
  lemma DescendStep(
    stages: seq<Stage>, i: nat, input: Input, requests: seq<Call>, entered: seq<Entry>, whole: Descent)
    requires i < |stages| && Extends(whole, requests, entered, Descend(stages, i, input))
    ensures var asked := requests + [RequestCall(i, input)];
      match TurnOf(stages[i], i, input)
      case Onward(next) => Extends(whole, asked, entered + [Entry(i, next)], Descend(stages, i + 1, next))
      case Stop(last, ending) => whole == Descent(asked, entered + last, ending)
  {
    hide TurnOf, Descend;
    DescendUnfolds(stages, i, input);
    match TurnOf(stages[i], i, input)
    case Onward(next) =>
      var rest := Descend(stages, i + 1, next);
      Associates(requests, [RequestCall(i, input)], rest.requests);
      Associates(entered, [Entry(i, next)], rest.entered);
    case Stop(last, ending) =>
  }

  lemma Associates<T>(a: seq<T>, b: seq<T>, c: seq<T>)
    ensures a + (b + c) == a + b + c
  {}

  /** The whole descent is what was asked and entered so far, followed by the rest. */
  ghost predicate Extends(whole: Descent, requests: seq<Call>, entered: seq<Entry>, rest: Descent) {
    whole == Descent(requests + rest.requests, entered + rest.entered, rest.ending)
  }

  /** Asks the stages one after the other. */
  method AskStages(stages: seq<Stage>, input: Input)
    returns (requests: seq<Call>, entered: seq<Entry>, ending: Ending)
    ensures Descent(requests, entered, ending) == Descend(stages, 0, input)
  {
    hide TurnOf, Descend, Extends;
    requests, entered := [], [];
    var current, i := input, 0;
    ghost var whole := Descend(stages, 0, input);
    NothingAsked(whole);
    while i < |stages|
      invariant 0 <= i <= |stages|
      invariant Extends(whole, requests, entered, Descend(stages, i, current))
    {
      DescendStep(stages, i, current, requests, entered, whole);
      requests := requests + [RequestCall(i, current)];
      match TurnOf(stages[i], i, current) {
        case Onward(next) =>
          entered := entered + [Entry(i, next)];
          current := next;
        case Stop(last, end) =>
          return requests, entered + last, end;
      }
      i := i + 1;
    }
    AllAsked(stages, current, requests, entered, whole);
    ending := ToHandler(current);
  }

  lemma NothingAsked(whole: Descent)
    ensures Extends(whole, [], [], whole)
  {
    assert [] + whole.requests == whole.requests && [] + whole.entered == whole.entered;
  }

  lemma AllAsked(stages: seq<Stage>, input: Input, requests: seq<Call>, entered: seq<Entry>, whole: Descent)
    requires Extends(whole, requests, entered, Descend(stages, |stages|, input))
    ensures whole == Descent(requests, entered, ToHandler(input))
  {
    assert requests + [] == requests && entered + [] == entered;
  }

  /** Any stages, any behaviour: the pipeline asks, answers and unwinds as described. */
  method Execute(stages: seq<Stage>, input: Input, handler: Input -> Option<Response>)
    returns (result: Option<Execution>, asked: seq<Call>, unwound: seq<Call>)
    ensures !ValidAttributes(input.attributes) ==>
      && asked == unwound == [] && result.Some? && result.value.finalizers == []
      && IsProblem(result.value.response, 500, "stage_attributes_invalid", input.requestId, [])
    ensures ValidAttributes(input.attributes) ==>
      var d := Descend(stages, 0, input);
      (forall e :: e in d.entered ==> e.stage < |stages|) && RunsAs(stages, d, handler, result, asked, unwound)
  {
    hide Unwinds, GivenAt, Progress, Descend, ValidAttributes, IsProblem, SanitizedProblem;
    var ok := ValidateStageAttributes(input.attributes);
    if !ok {
      ProblemExact(500, "stage_attributes_invalid", input.requestId, []);
      return Some(Execution(InvalidAttributesProblem(input), [])), [], [];
    }
    var entered, ending;
    asked, entered, ending := AskStages(stages, input);
    EntriesInRange(stages, input);
    var response: Response;
    match ending {
      case ToHandler(last) =>
        asked := asked + [HandlerCall(last)];
        var returned := handler(last);
        if returned.None? {
          return None, asked, [];
        }
        response := returned.value;
      case Answered(r) => response := r;
      case StageFailed(_, _, r) => response := r;
    }
    var execution;
    execution, unwound := UnwindHardened(stages, entered, response);
    ProgressExact(stages, entered, response, |entered|);
    if ending.StageFailed? {
      var event := FinalizerEvent(stages[ending.stage].name, Failed(ending.kind));
      execution := execution.(finalizers := execution.finalizers + [event]);
    }
    result := Some(execution);
  }
}
