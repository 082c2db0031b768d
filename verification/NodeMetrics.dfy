/**
 Request metrics of the Node service. Callbacks run to completion one at a
 time, so the counters can be exact at every boundary between them.
 */
module NodeMetrics {
  import opened Metrics

  /** The counters and the responses not yet finished; `true` marks business traffic. */
  datatype State = State(c: Counters, pending: map<nat, bool>)

  datatype Callback =
    | OnRequest(id: nat, path: string)
    | OnFinish(id: nat, trace: Trace)
    | OnRead(limit: int)

  predicate Enabled(s: State, cb: Callback) {
    match cb
    case OnRequest(id, _) => id !in s.pending
    case OnFinish(id, _) => id in s.pending
    case OnRead(_) => true
  }

  function Next(s: State, cb: Callback): State
    requires Enabled(s, cb)
  {
    match cb
    case OnRequest(id, path) =>
      if IsInfra(path) then s.(pending := s.pending[id := false])
      else s.(c := s.c.(requests := s.c.requests + 1), pending := s.pending[id := true])
    case OnFinish(id, t) =>
      if !s.pending[id] then s.(pending := s.pending - {id})
      else
        var errors := if t.status >= 400 then s.c.errors + 1 else s.c.errors;
        State(Counters(s.c.requests, errors, s.c.traces + [t]), s.pending - {id})
    case OnRead(_) => s
  }

  /** The body of a `GET /metrics/requests` answer. */
  datatype Response = Response(requestsTotal: nat, errorsTotal: nat, recent: seq<Trace>)

  /** What `handleRequests` reads in its callback. */
  function Respond(c: Counters, limit: int): Response {
    Response(c.requests, c.errors, Newest(c.traces, NodeCount(limit, |c.traces|)))
  }

  /** Business requests whose response has not finished, because it is under way or was cut off. */
  function Unfinished(s: State): set<nat> {
    set id | id in s.pending && s.pending[id]
  }

  /** Errors are exactly the failed traces; requests are exactly the traces and the unfinished requests. */
  predicate Exact(s: State) {
    && s.c.errors == ErrorCount(s.c.traces)
    && s.c.requests == |s.c.traces| + |Unfinished(s)|
  }

  lemma UnfinishedMoves(s: State, cb: Callback)
    requires Enabled(s, cb)
    ensures var before, after := Unfinished(s), Unfinished(Next(s, cb));
            match cb
            case OnRequest(id, path) => id !in before && after == if IsInfra(path) then before else before + {id}
            case OnFinish(id, _) => after == before - {id} && (id in before <==> s.pending[id])
            case OnRead(_) => after == before
  {
    hide IsInfra;
    var before, after := Unfinished(s), Unfinished(Next(s, cb));
    match cb {
      case OnRequest(id, _) => assert forall x :: x != id ==> (x in after <==> x in before);
      case OnFinish(id, _) => assert forall x :: x != id ==> (x in after <==> x in before);
      case OnRead(_) =>
    }
  }

  lemma CallbackKeeps(s: State, cb: Callback)
    requires Exact(s) && Enabled(s, cb)
    ensures Exact(Next(s, cb))
  {
    hide ErrorCount, Unfinished, IsInfra;
    UnfinishedMoves(s, cb);
    if cb.OnFinish? {
      ErrorCountAppend(s.c.traces, cb.trace);
    }
  }

  ghost predicate IsRun(trace: seq<State>, callbacks: seq<Callback>) {
    && |trace| == |callbacks| + 1 && trace[0] == State(ZERO, map[])
    && forall i :: 0 <= i < |callbacks| ==>
         Enabled(trace[i], callbacks[i]) && trace[i + 1] == Next(trace[i], callbacks[i])
  }

  /** At every boundary of every run the counters are exact; unlike in Go, errors never exceed requests. */
  lemma {:induction false} RunIsExact(trace: seq<State>, callbacks: seq<Callback>, i: nat)
    requires IsRun(trace, callbacks) && i < |trace|
    ensures Exact(trace[i]) && trace[i].c.errors <= trace[i].c.requests
  {
    if i == 0 {
      assert Unfinished(trace[0]) == {};
    } else {
      RunIsExact(trace, callbacks, i - 1);
      CallbackKeeps(trace[i - 1], callbacks[i - 1]);
    }
    ErrorsAreTraces(trace[i].c.traces);
  }

  lemma {:induction false} CountersGrow(trace: seq<State>, callbacks: seq<Callback>, j: nat, i: nat)
    requires IsRun(trace, callbacks) && j <= i < |trace|
    ensures trace[j].c.traces <= trace[i].c.traces
    ensures trace[j].c.requests <= trace[i].c.requests && trace[j].c.errors <= trace[i].c.errors
    decreases i
  {
    if i == j {
    } else {
      CountersGrow(trace, callbacks, j, i - 1);
      assert trace[i] == Next(trace[i - 1], callbacks[i - 1]);
    }
  }

  /**
   Every response of every run is an exact snapshot: of the traces there will
   ever be it covers the first `n`, with their errors, the newest of them, and
   one request for each of them and for each request unfinished at that moment.
   */
  lemma ResponsesAreSnapshots(trace: seq<State>, callbacks: seq<Callback>, j: nat, i: nat)
    requires IsRun(trace, callbacks) && j < |callbacks| && callbacks[j].OnRead? && j <= i < |trace|
    ensures var r, n := Respond(trace[j].c, callbacks[j].limit), |trace[j].c.traces|;
            && n <= |trace[i].c.traces|
            && var seen := trace[i].c.traces[..n];
               && r.errorsTotal == ErrorCount(seen)
               && r.requestsTotal == n + |Unfinished(trace[j])|
               && r.recent == Newest(seen, NodeCount(callbacks[j].limit, n))
               && |r.recent| <= r.requestsTotal
               && ErrorCount(r.recent) <= r.errorsTotal <= r.requestsTotal
  {
    RunIsExact(trace, callbacks, j);
    CountersGrow(trace, callbacks, j, i);
    var all := trace[j].c.traces;
    assert trace[i].c.traces[..|all|] == all;
    NewestErrors(all, NodeCount(callbacks[j].limit, |all|));
  }

  class MetricsHandler {
    var requests: nat
    var errors: nat
    var traces: seq<Trace>

    constructor ()
      ensures Value() == ZERO
    {
      requests, errors, traces := 0, 0, [];
    }

    function Value(): Counters
      reads this
    {
      Counters(requests, errors, traces)
    }

    method PushTrace(t: Trace)
      modifies this
      ensures Value() == old(Value()).(traces := old(traces) + [t])
    {
      traces := traces + [t];
    }

    method GetTraces(limit: int) returns (result: seq<Trace>)
      ensures result == Newest(traces, NodeCount(limit, |traces|))
    {
      var n := |traces|;
      if n == 0 {
        return [];
      }
      var smaller := if limit < n then limit else n;
      var clamped := if smaller > 1 then smaller else 1;
      result := [];
      for i := 0 to clamped
        invariant |result| == i
        invariant forall j :: 0 <= j < i ==> result[j] == traces[n - 1 - j]
      {
        result := result + [traces[n - 1 - i]];
      }
      forall i | 0 <= i < clamped ensures result[i] == Newest(traces, clamped)[i] {
        NewestAt(traces, clamped, i);
      }
    }

    method IncrementRequest()
      modifies this
      ensures Value() == old(Value()).(requests := old(requests) + 1)
    {
      requests := requests + 1;
    }

    method IncrementError()
      modifies this
      ensures Value() == old(Value()).(errors := old(errors) + 1)
    {
      errors := errors + 1;
    }

    /** `handleRequests` runs in one callback. */
    method HandleRequests(limit: int) returns (r: Response)
      ensures r == Respond(Value(), limit)
    {
      var recent := GetTraces(limit);
      return Response(requests, errors, recent);
    }
  }

  /** The wiring of `index.js`: one callback per incoming request, one per finished response. */
  class Server {
    const metrics: MetricsHandler
    var pending: map<nat, bool>

    constructor (metrics: MetricsHandler)
      requires metrics.Value() == ZERO
      ensures this.metrics == metrics && Value() == State(ZERO, map[])
    {
      this.metrics := metrics;
      pending := map[];
    }

    function Value(): State
      reads this, metrics
    {
      State(metrics.Value(), pending)
    }

    method HandleRequest(id: nat, path: string)
      requires Enabled(Value(), OnRequest(id, path))
      modifies this, metrics
      ensures Value() == Next(old(Value()), OnRequest(id, path))
      ensures metrics.requests == old(metrics.requests) + (if "/health" <= path || "/metrics" <= path then 0 else 1)
      ensures metrics.errors == old(metrics.errors) && metrics.traces == old(metrics.traces)
      ensures old(Exact(Value())) ==> Exact(Value())
    {
      CallbackKeeps'(Value(), OnRequest(id, path));
      var isInfraPath := IsInfra(path);
      if !isInfraPath {
        metrics.IncrementRequest();
      }
      pending := pending[id := !isInfraPath];
    }

    method HandleFinish(id: nat, t: Trace)
      requires Enabled(Value(), OnFinish(id, t))
      modifies this, metrics
      ensures Value() == Next(old(Value()), OnFinish(id, t))
      ensures metrics.requests == old(metrics.requests)
      ensures metrics.errors == old(metrics.errors) + (if old(pending)[id] && t.status >= 400 then 1 else 0)
      ensures metrics.traces == old(metrics.traces) + (if old(pending)[id] then [t] else [])
      ensures old(Exact(Value())) ==> Exact(Value())
    {
      CallbackKeeps'(Value(), OnFinish(id, t));
      var business := pending[id];
      pending := pending - {id};
      if !business {
        return;
      }
      metrics.PushTrace(t);
      if t.status >= 400 {
        metrics.IncrementError();
      }
    }
  }

  lemma CallbackKeeps'(s: State, cb: Callback)
    requires Enabled(s, cb)
    ensures Exact(s) ==> Exact(Next(s, cb))
  {
    if Exact(s) {
      CallbackKeeps(s, cb);
    }
  }
}
