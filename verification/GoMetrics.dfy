/**
 Request metrics of the Go service: two atomic counters and a locked slice,
 updated at different moments by concurrent requests and read without a joint
 snapshot.
 */
module GoMetrics {
  import opened Metrics

  // ---------- The handler ----------

  function Pushed(c: Counters, t: Trace): Counters {
    c.(traces := c.traces + [t])
  }

  function RequestCounted(c: Counters): Counters {
    c.(requests := c.requests + 1)
  }

  function ErrorCounted(c: Counters): Counters {
    c.(errors := c.errors + 1)
  }

  /** Counters that agree with the traces completely. */
  predicate Exact(c: Counters) {
    c.requests == |c.traces| && c.errors == ErrorCount(c.traces)
  }

  class MetricsHandler {
    var requestsTotal: nat
    var errorsTotal: nat
    var traces: seq<Trace>

    constructor ()
      ensures Value() == ZERO
    {
      requestsTotal, errorsTotal, traces := 0, 0, [];
    }

    function Value(): Counters
      reads this
    {
      Counters(requestsTotal, errorsTotal, traces)
    }

    method PushTrace(t: Trace)
      modifies this
      ensures Value() == Pushed(old(Value()), t)
    {
      traces := traces + [t];
    }

    method GetTraces(limit: int) returns (recent: seq<Trace>)
      ensures recent == Newest(traces, GoCount(limit, |traces|))
    {
      var n := |traces|;
      if n == 0 {
        return [];
      }
      var count := limit;
      if count > n {
        count := n;
      }
      if count < 0 {
        count := 0;
      }
      var result := new Trace[count];
      for i := 0 to count
        invariant forall j :: 0 <= j < i ==> result[j] == traces[n - 1 - j]
      {
        result[i] := traces[n - 1 - i];
      }
      forall i | 0 <= i < count ensures result[i] == Newest(traces, count)[i] {
        NewestAt(traces, count, i);
      }
      return result[..];
    }

    /** `HandleRequests` with no other request running; the concurrent case is below. */
    method HandleRequests(limit: int) returns (requests: nat, errors: nat, recent: seq<Trace>)
      ensures requests == requestsTotal && errors == errorsTotal
      ensures recent == Newest(traces, GoCount(limit, |traces|))
    {
      recent := GetTraces(limit);
      return requestsTotal, errorsTotal, recent;
    }

    method IncrementRequests()
      modifies this
      ensures Value() == RequestCounted(old(Value()))
    {
      requestsTotal := requestsTotal + 1;
    }

    method IncrementErrors()
      modifies this
      ensures Value() == ErrorCounted(old(Value()))
    {
      errorsTotal := errorsTotal + 1;
    }

    /** The middleware around a handler that answers with `t.status`, with no other request running. */
    method Serve(t: Trace)
      modifies this
      ensures Value() ==
              if IsInfra(t.path) then old(Value())
              else if IsError(t) then Pushed(ErrorCounted(RequestCounted(old(Value()))), t)
              else Pushed(RequestCounted(old(Value())), t)
      ensures var counted := !("/health" <= t.path || "/metrics" <= t.path);
              && requestsTotal == old(requestsTotal) + (if counted then 1 else 0)
              && errorsTotal == old(errorsTotal) + (if counted && t.status >= 400 then 1 else 0)
              && traces == old(traces) + (if counted then [t] else [])
      ensures old(Exact(Value())) ==> Exact(Value())
    {
      if IsInfra(t.path) {
        return;
      }
      IncrementRequests();
      if t.status >= 400 {
        IncrementErrors();
      }
      PushTrace(t);
      ErrorCountAppend(old(traces), t);
    }
  }

  // ---------- Concurrent requests and reads ----------

  /**
   Where a goroutine stands: in the handler; about to count an error; about to
   push its trace; or reading, before the first or the second counter load.
   */
  datatype At =
    | Serving
    | CountingError(status: int)
    | Pushing(status: int)
    | LoadingRequests(recent: seq<Trace>)
    | LoadingErrors(recent: seq<Trace>, requests: nat)

  /**
   What a reader answers. `begun` counts the requests that began between its
   two loads, `faultless` the requests begun by then without a counted error.
   */
  datatype Response = Response(recent: seq<Trace>, requestsTotal: nat, errorsTotal: nat, begun: nat, faultless: nat)

  datatype State = State(c: Counters, threads: map<nat, At>, panicked: nat, responses: seq<Response>)

  datatype Step =
    | Begin(t: nat)
    | HandlerReturns(t: nat, status: int)
    | HandlerPanics(t: nat)
    | CountError(t: nat)
    | Push(t: nat, trace: Trace)
    | SnapshotTraces(t: nat, limit: int)
    | SkipTraces(t: nat)
    | LoadRequests(t: nat)
    | LoadErrors(t: nat)

  predicate Enabled(s: State, step: Step) {
    match step
    case Begin(t) => t !in s.threads
    case HandlerReturns(t, _) => t in s.threads && s.threads[t].Serving?
    case HandlerPanics(t) => t in s.threads && s.threads[t].Serving?
    case CountError(t) => t in s.threads && s.threads[t].CountingError?
    case Push(t, trace) => t in s.threads && s.threads[t].Pushing? && trace.status == s.threads[t].status
    case SnapshotTraces(t, _) => t !in s.threads
    case SkipTraces(t) => t !in s.threads
    case LoadRequests(t) => t in s.threads && s.threads[t].LoadingRequests?
    case LoadErrors(t) => t in s.threads && s.threads[t].LoadingErrors?
  }

  /**
   `GET /metrics/requests` snapshots the traces, then loads the two counters;
   `GET /metrics` only loads the counters.
   */
  function Next(s: State, step: Step): State
    requires Enabled(s, step)
  {
    match step
    case Begin(t) => s.(c := RequestCounted(s.c), threads := s.threads[t := Serving])
    case HandlerReturns(t, status) =>
      s.(threads := s.threads[t := if status >= 400 then CountingError(status) else Pushing(status)])
    case HandlerPanics(t) => s.(threads := s.threads - {t}, panicked := s.panicked + 1)
    case CountError(t) => s.(c := ErrorCounted(s.c), threads := s.threads[t := Pushing(s.threads[t].status)])
    case Push(t, trace) => s.(c := Pushed(s.c, trace), threads := s.threads - {t})
    case SnapshotTraces(t, limit) =>
      s.(threads := s.threads[t := LoadingRequests(Newest(s.c.traces, GoCount(limit, |s.c.traces|)))])
    case SkipTraces(t) => s.(threads := s.threads[t := LoadingRequests([])])
    case LoadRequests(t) => s.(threads := s.threads[t := LoadingErrors(s.threads[t].recent, s.c.requests)])
    case LoadErrors(t) =>
      var at := s.threads[t];
      var begun := if s.c.requests >= at.requests then s.c.requests - at.requests else 0;
      s.(threads := s.threads - {t},
         responses := s.responses + [Response(at.recent, at.requests, s.c.errors, begun, Faultless(s))])
  }

  /** Requests that have been counted and have not pushed their trace. */
  function InFlight(s: State): set<nat> {
    set t | t in s.threads && (s.threads[t].Serving? || s.threads[t].CountingError? || s.threads[t].Pushing?)
  }

  /** Requests between their error increment and their push. */
  function CountedFailures(s: State): set<nat> {
    set t | t in s.threads && s.threads[t].Pushing? && s.threads[t].status >= 400
  }

  /** Begun requests without a counted error: successful traces, running or panicked requests. */
  function Faultless(s: State): nat {
    var successes := |s.c.traces| - ErrorCount(s.c.traces);
    var running := |InFlight(s) - CountedFailures(s)|;
    if successes >= 0 then successes + running + s.panicked else 0
  }

  predicate Initial(s: State) {
    s == State(ZERO, map[], 0, [])
  }

  predicate ReaderOk(c: Counters, at: At) {
    match at
    case LoadingRequests(recent) => |recent| <= |c.traces| && ErrorCount(recent) <= ErrorCount(c.traces)
    case LoadingErrors(recent, requests) =>
      |recent| <= requests <= c.requests && ErrorCount(recent) <= ErrorCount(c.traces)
    case CountingError(status) => status >= 400
    case _ => true
  }

  /** A response is one-sidedly consistent, and its possible excess of errors is accounted for exactly. */
  predicate ResponseOk(r: Response) {
    && |r.recent| <= r.requestsTotal
    && ErrorCount(r.recent) <= r.errorsTotal
    && r.errorsTotal + r.faultless == r.requestsTotal + r.begun
  }

  predicate Inv(s: State) {
    && s.c.requests == |s.c.traces| + |InFlight(s)| + s.panicked
    && s.c.errors == ErrorCount(s.c.traces) + |CountedFailures(s)|
    && (forall t :: t in s.threads ==> ReaderOk(s.c, s.threads[t]))
    && (forall k :: 0 <= k < |s.responses| ==> ResponseOk(s.responses[k]))
  }

  /** Begun requests are those with a counted error and those without. */
  lemma BegunSplits(s: State)
    requires Inv(s)
    ensures s.c.errors + Faultless(s) == s.c.requests
  {
    ErrorsAreTraces(s.c.traces);
    assert CountedFailures(s) <= InFlight(s);
    assert InFlight(s) == CountedFailures(s) + (InFlight(s) - CountedFailures(s));
  }

  /** Steps that begin or end a request. */
  lemma InFlightMoves(s: State, step: Step)
    requires Enabled(s, step)
    ensures var before, after := InFlight(s), InFlight(Next(s, step));
            if step.Begin? then after == before + {step.t} && step.t !in before
            else if step.HandlerPanics? || step.Push? then after == before - {step.t} && step.t in before
            else after == before
  {
    var before, after := InFlight(s), InFlight(Next(s, step));
    assert forall t :: t != step.t ==> (t in after <==> t in before);
  }

  /** Steps that enter or leave the gap between error increment and push. */
  lemma CountedFailuresMove(s: State, step: Step)
    requires Inv(s) && Enabled(s, step)
    ensures var before, after := CountedFailures(s), CountedFailures(Next(s, step));
            if step.CountError? then after == before + {step.t} && step.t !in before
            else if step.Push? then after == before - {step.t} && (step.t in before <==> IsError(step.trace))
            else after == before
  {
    var before, after := CountedFailures(s), CountedFailures(Next(s, step));
    assert forall t :: t != step.t ==> (t in after <==> t in before);
    if step.t in s.threads {
      assert ReaderOk(s.c, s.threads[step.t]);
    }
  }

  /** Traces and counters only grow, so what a reader already holds stays covered. */
  lemma ReadersKeep(s: State, step: Step, t: nat)
    requires Inv(s) && Enabled(s, step) && t in s.threads && t != step.t
    ensures ReaderOk(Next(s, step).c, s.threads[t])
  {
    assert ReaderOk(s.c, s.threads[t]);
    if step.Push? {
      ErrorCountAppend(s.c.traces, step.trace);
    }
  }

  lemma StepperKeeps(s: State, step: Step)
    requires Inv(s) && Enabled(s, step) && step.t in Next(s, step).threads
    ensures ReaderOk(Next(s, step).c, Next(s, step).threads[step.t])
  {
    match step {
      case SnapshotTraces(_, limit) => NewestErrors(s.c.traces, GoCount(limit, |s.c.traces|));
      case LoadRequests(t) => assert ReaderOk(s.c, s.threads[t]);
      case _ =>
    }
  }

  lemma ResponseKeeps(s: State, t: nat)
    requires Inv(s) && Enabled(s, LoadErrors(t))
    ensures ResponseOk(Next(s, LoadErrors(t)).responses[|s.responses|])
  {
    assert ReaderOk(s.c, s.threads[t]);
    BegunSplits(s);
  }

  /** Every step of every goroutine keeps the invariant. */
  lemma StepKeeps(s: State, step: Step)
    requires Inv(s) && Enabled(s, step)
    ensures Inv(Next(s, step))
  {
    var s' := Next(s, step);
    InFlightMoves(s, step);
    CountedFailuresMove(s, step);
    if step.Push? {
      ErrorCountAppend(s.c.traces, step.trace);
    }
    forall t | t in s'.threads ensures ReaderOk(s'.c, s'.threads[t]) {
      if t == step.t { StepperKeeps(s, step); } else { ReadersKeep(s, step, t); }
    }
    if step.LoadErrors? {
      ResponseKeeps(s, step.t);
    }
  }

  ghost predicate IsRun(trace: seq<State>, steps: seq<Step>) {
    && |trace| == |steps| + 1 && Initial(trace[0])
    && forall i :: 0 <= i < |steps| ==> Enabled(trace[i], steps[i]) && trace[i + 1] == Next(trace[i], steps[i])
  }

  /**
   In every state of every run: the counters exceed the traces by exactly the
   requests still under way (or panicked), and every response so far is consistent.
   */
  lemma {:induction false} RunInvariant(trace: seq<State>, steps: seq<Step>, i: nat)
    requires IsRun(trace, steps) && i < |trace|
    ensures Inv(trace[i])
  {
    if i == 0 {
      assert InFlight(trace[0]) == {} && CountedFailures(trace[0]) == {};
    } else {
      RunInvariant(trace, steps, i - 1);
      StepKeeps(trace[i - 1], steps[i - 1]);
    }
  }

  /** With no request under way the counters agree with the traces, up to panics. */
  lemma QuietIsExact(s: State)
    requires Inv(s) && InFlight(s) == {}
    ensures s.c.requests == |s.c.traces| + s.panicked && s.c.errors == ErrorCount(s.c.traces)
  {
    assert CountedFailures(s) <= InFlight(s);
  }

  /**
   A response shows more errors than requests exactly when more requests began
   between its two loads than had so far been free of errors.
   */
  lemma ErrorsExceedRequests(trace: seq<State>, steps: seq<Step>, i: nat, k: nat)
    requires IsRun(trace, steps) && i < |trace| && k < |trace[i].responses|
    ensures var r := trace[i].responses[k];
            && |r.recent| <= r.requestsTotal && ErrorCount(r.recent) <= r.errorsTotal
            && (r.errorsTotal > r.requestsTotal <==> r.begun > r.faultless)
            && r.errorsTotal <= r.requestsTotal + r.begun
  {
    RunInvariant(trace, steps, i);
    assert ResponseOk(trace[i].responses[k]);
  }

  // ---------- What a response shows of the run ----------

  /** How many of the steps from `a` up to `b` begin a request. */
  function Begun(steps: seq<Step>, a: nat, b: nat): nat
    requires a <= b <= |steps|
    decreases b
  {
    if a == b then 0 else Begun(steps, a, b - 1) + (if steps[b - 1].Begin? then 1 else 0)
  }

  /** How many of the first `b` steps count an error. */
  function Failed(steps: seq<Step>, b: nat): nat
    requires b <= |steps|
  {
    if b == 0 then 0 else Failed(steps, b - 1) + (if steps[b - 1].CountError? then 1 else 0)
  }

  lemma RunStep(trace: seq<State>, steps: seq<Step>, i: nat)
    requires IsRun(trace, steps) && i < |trace| - 1
    ensures |trace| == |steps| + 1 && Enabled(trace[i], steps[i]) && trace[i + 1] == Next(trace[i], steps[i])
  {
  }

  /** A goroutine that is not under way can begin a request or a read; any other can take its next step. */
  lemma NothingBlocks(s: State, t: nat, status: int, trace: Trace, limit: int)
    ensures t !in s.threads ==>
              Enabled(s, Begin(t)) && Enabled(s, SnapshotTraces(t, limit)) && Enabled(s, SkipTraces(t))
    ensures t in s.threads ==>
              match s.threads[t]
              case Serving => Enabled(s, HandlerReturns(t, status)) && Enabled(s, HandlerPanics(t))
              case CountingError(_) => Enabled(s, CountError(t))
              case Pushing(done) => trace.status == done ==> Enabled(s, Push(t, trace))
              case LoadingRequests(_) => Enabled(s, LoadRequests(t))
              case LoadingErrors(_, _) => Enabled(s, LoadErrors(t))
  {
  }

  /** The counters show the requests begun and the errors counted so far, nothing else. */
  lemma {:induction false} CountersCountSteps(trace: seq<State>, steps: seq<Step>, a: nat, b: nat)
    requires IsRun(trace, steps) && a <= b < |trace|
    ensures b <= |steps|
    ensures trace[b].c.requests == trace[a].c.requests + Begun(steps, a, b)
    ensures a == 0 ==> trace[a].c.requests == 0 && trace[b].c.errors == Failed(steps, b)
    decreases b
  {
    if a == b {
      if a > 0 { CountersCountSteps(trace, steps, 0, 0); }
    } else {
      CountersCountSteps(trace, steps, a, b - 1);
      RunStep(trace, steps, b - 1);
      hide IsRun, Faultless;
    }
  }

  /** Goroutine `t` takes no step strictly between `a` and `b`. */
  predicate Rests(steps: seq<Step>, t: nat, a: nat, b: nat)
    requires b <= |steps|
  {
    forall x :: a < x < b ==> steps[x].t != t
  }

  /** Step `p` is where reader `t` got `recent`: a snapshot of the newest traces, or none for `GET /metrics`. */
  predicate TookTraces(trace: seq<State>, steps: seq<Step>, p: nat, t: nat, recent: seq<Trace>)
    requires p < |steps| < |trace|
  {
    && steps[p].t == t
    && match steps[p]
       case SnapshotTraces(_, limit) => recent == Newest(trace[p].c.traces, GoCount(limit, |trace[p].c.traces|))
       case SkipTraces(_) => recent == []
       case _ => false
  }

  /** Step `q` is where reader `t` loaded `requests`. */
  predicate TookRequests(trace: seq<State>, steps: seq<Step>, q: nat, t: nat, requests: nat)
    requires q < |steps| < |trace|
  {
    steps[q] == LoadRequests(t) && requests == trace[q].c.requests
  }

  lemma {:induction false} FirstRead(trace: seq<State>, steps: seq<Step>, i: nat, t: nat) returns (p: nat)
    requires IsRun(trace, steps) && i < |trace| && t in trace[i].threads && trace[i].threads[t].LoadingRequests?
    ensures p < i <= |steps| < |trace|
    ensures TookTraces(trace, steps, p, t, trace[i].threads[t].recent) && Rests(steps, t, p, i)
  {
    assert i > 0;
    RunStep(trace, steps, i - 1);
    hide IsRun, Faultless;
    if steps[i - 1].t == t {
      p := i - 1;
    } else {
      p := FirstRead(trace, steps, i - 1, t);
    }
  }

  lemma {:induction false} SecondRead(trace: seq<State>, steps: seq<Step>, i: nat, t: nat) returns (p: nat, q: nat)
    requires IsRun(trace, steps) && i < |trace| && t in trace[i].threads && trace[i].threads[t].LoadingErrors?
    ensures p < q < i <= |steps| < |trace|
    ensures TookTraces(trace, steps, p, t, trace[i].threads[t].recent) && Rests(steps, t, p, q)
    ensures TookRequests(trace, steps, q, t, trace[i].threads[t].requests) && Rests(steps, t, q, i)
  {
    assert i > 0;
    RunStep(trace, steps, i - 1);
    hide IsRun, Faultless, TookTraces;
    if steps[i - 1].t == t {
      p := FirstRead(trace, steps, i - 1, t);
      q := i - 1;
    } else {
      p, q := SecondRead(trace, steps, i - 1, t);
    }
  }

  /** One reader took the traces at step `p`, the requests at `q` and the errors at `r`, and answered with them. */
  predicate Answered(trace: seq<State>, steps: seq<Step>, p: nat, q: nat, r: nat, a: Response)
    requires p < q < r < |steps| < |trace|
  {
    && TookTraces(trace, steps, p, steps[r].t, a.recent) && Rests(steps, steps[r].t, p, q)
    && TookRequests(trace, steps, q, steps[r].t, a.requestsTotal) && Rests(steps, steps[r].t, q, r)
    && steps[r].LoadErrors? && a.errorsTotal == trace[r].c.errors
  }

  /**
   Every response of every run is three reads of one goroutine in this order.
   Its totals are the requests begun before the second and the errors counted
   before the third read; so it shows more errors than requests exactly if that
   many errors had been counted, which takes requests begun in between.
   */
  lemma {:induction false} ResponsesAreReads(trace: seq<State>, steps: seq<Step>, i: nat, k: nat)
    returns (p: nat, q: nat, r: nat)
    requires IsRun(trace, steps) && i < |trace| && k < |trace[i].responses|
    ensures p < q < r < i <= |steps| < |trace|
    ensures var a := trace[i].responses[k];
            && Answered(trace, steps, p, q, r, a)
            && a.requestsTotal == Begun(steps, 0, q) && a.errorsTotal == Failed(steps, r)
            && a.begun == Begun(steps, q, r) && a.faultless == Begun(steps, 0, r) - Failed(steps, r)
            && (a.errorsTotal > a.requestsTotal <==> Begun(steps, q, r) > Begun(steps, 0, r) - Failed(steps, r))
  {
    assert i > 0;
    RunStep(trace, steps, i - 1);
    if k < |trace[i - 1].responses| {
      assert trace[i - 1].responses[k] == trace[i].responses[k];
      hide *;
      p, q, r := ResponsesAreReads(trace, steps, i - 1, k);
    } else {
      r := i - 1;
      p, q := LastAnswer(trace, steps, r);
    }
  }

  lemma LastAnswer(trace: seq<State>, steps: seq<Step>, r: nat) returns (p: nat, q: nat)
    requires IsRun(trace, steps) && r < |steps| && steps[r].LoadErrors?
    ensures p < q < r < |steps| < |trace| && |trace[r + 1].responses| == |trace[r].responses| + 1
    ensures var a := trace[r + 1].responses[|trace[r].responses|];
            && Answered(trace, steps, p, q, r, a)
            && a.requestsTotal == Begun(steps, 0, q) && a.errorsTotal == Failed(steps, r)
            && a.begun == Begun(steps, q, r) && a.faultless == Begun(steps, 0, r) - Failed(steps, r)
            && (a.errorsTotal > a.requestsTotal <==> Begun(steps, q, r) > Begun(steps, 0, r) - Failed(steps, r))
  {
    RunStep(trace, steps, r);
    p, q := SecondRead(trace, steps, r, steps[r].t);
    CountersCountSteps(trace, steps, q, r);
    CountersCountSteps(trace, steps, 0, q);
    CountersCountSteps(trace, steps, 0, r);
    RunInvariant(trace, steps, r);
    BegunSplits(trace[r]);
    hide IsRun, Inv, Faultless, TookTraces, Begun, Failed;
  }

  /** It happens: one failing request between the loads of a reader of an idle service. */
  lemma ExcessExample() returns (trace: seq<State>, steps: seq<Step>)
    ensures IsRun(trace, steps) && |trace| == 7 && |trace[6].responses| == 1
    ensures trace[6].responses[0].errorsTotal > trace[6].responses[0].requestsTotal
  {
    steps := [SkipTraces(0), LoadRequests(0), Begin(1), HandlerReturns(1, 500), CountError(1), LoadErrors(0)];
    hide Faultless, InFlight, CountedFailures;
    var s0 := State(ZERO, map[], 0, []);
    var s1 := Next(s0, steps[0]);
    assert s1 == State(ZERO, map[0 := LoadingRequests([])], 0, []);
    var s2 := Next(s1, steps[1]);
    assert s2 == State(ZERO, map[0 := LoadingErrors([], 0)], 0, []);
    var s3 := Next(s2, steps[2]);
    var s4 := Next(s3, steps[3]);
    assert s4.threads[0] == LoadingErrors([], 0) && s4.threads[1] == CountingError(500);
    var s5 := Next(s4, steps[4]);
    assert s5.c.errors == 1 && s5.threads[0] == LoadingErrors([], 0);
    var s6 := Next(s5, steps[5]);
    trace := [s0, s1, s2, s3, s4, s5, s6];
  }
}
