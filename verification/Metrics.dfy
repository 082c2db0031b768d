/**
 What both services count about their requests, and how the newest traces are
 read back.
 */
module Metrics {

  datatype Trace = Trace(verb: string, path: string, status: int, durationMs: real, timestamp: string)

  datatype Counters = Counters(requests: nat, errors: nat, traces: seq<Trace>)

  const ZERO := Counters(0, 0, [])

  /** Health and metrics endpoints are not counted. */
  predicate IsInfra(path: string) {
    "/health" <= path || "/metrics" <= path
  }

  /** Exactly the paths that begin with one of the two words, `/healthz` and `/metricsfoo` included. */
  lemma InfraPaths(path: string)
    ensures IsInfra(path) <==> exists rest :: path == "/health" + rest || path == "/metrics" + rest
  {
    if "/health" <= path { assert path == "/health" + path[7..]; }
    if "/metrics" <= path { assert path == "/metrics" + path[8..]; }
  }

  predicate IsError(t: Trace) {
    t.status >= 400
  }

  function ErrorCount(traces: seq<Trace>): nat {
    if traces == [] then 0
    else ErrorCount(traces[..|traces| - 1]) + (if IsError(traces[|traces| - 1]) then 1 else 0)
  }

  lemma ErrorCountAppend(traces: seq<Trace>, t: Trace)
    ensures ErrorCount(traces + [t]) == ErrorCount(traces) + (if IsError(t) then 1 else 0)
  {
    assert (traces + [t])[..|traces|] == traces;
  }

  lemma {:induction false} ErrorCountConcat(a: seq<Trace>, b: seq<Trace>)
    ensures ErrorCount(a + b) == ErrorCount(a) + ErrorCount(b)
  {
    if b == [] {
      assert a + b == a;
    } else {
      var init, last := b[..|b| - 1], b[|b| - 1];
      assert a + b == (a + init) + [last];
      ErrorCountAppend(a + init, last);
      ErrorCountConcat(a, init);
    }
  }

  /** The reference answer: the `k` newest traces, newest first. */
  function Newest(traces: seq<Trace>, k: nat): (r: seq<Trace>)
    requires k <= |traces|
    ensures |r| == k
  {
    if k == 0 then [] else [traces[|traces| - 1]] + Newest(traces[..|traces| - 1], k - 1)
  }

  lemma {:induction false} NewestAt(traces: seq<Trace>, k: nat, i: nat)
    requires i < k <= |traces|
    ensures Newest(traces, k)[i] == traces[|traces| - 1 - i]
  {
    if i == 0 {
    } else {
      NewestAt(traces[..|traces| - 1], k - 1, i - 1);
    }
  }

  /** A shorter answer is a prefix of a longer one. */
  lemma NewestPrefix(traces: seq<Trace>, j: nat, k: nat)
    requires j <= k <= |traces|
    ensures Newest(traces, j) <= Newest(traces, k)
  {
    forall i | 0 <= i < j ensures Newest(traces, j)[i] == Newest(traces, k)[i] {
      NewestAt(traces, j, i);
      NewestAt(traces, k, i);
    }
  }

  /** The newest traces hold no more errors than all traces. */
  lemma {:induction false} NewestErrors(traces: seq<Trace>, k: nat)
    requires k <= |traces|
    ensures ErrorCount(Newest(traces, k)) <= ErrorCount(traces)
  {
    if k == 0 {
    } else {
      var init, last := traces[..|traces| - 1], traces[|traces| - 1];
      NewestErrors(init, k - 1);
      ErrorCountConcat([last], Newest(init, k - 1));
      ErrorCountAppend([], last);
      assert [] + [last] == [last];
    }
  }

  lemma {:induction false} ErrorsAreTraces(traces: seq<Trace>)
    ensures ErrorCount(traces) <= |traces|
  {
    if traces == [] {
    } else {
      ErrorsAreTraces(traces[..|traces| - 1]);
    }
  }

  // ---------- The two retrieval loops ----------

  /** How many traces the Go handler returns for a limit. */
  function GoCount(limit: int, n: nat): nat {
    if n == 0 || limit < 0 then 0 else if limit > n then n else limit
  }

  /** How many traces the Node handler returns for a limit. */
  function NodeCount(limit: int, n: nat): nat {
    if n == 0 then 0 else if limit < 1 then 1 else if limit > n then n else limit
  }

  /** For a positive limit, however large, both return that many traces, or all if there are fewer. */
  lemma PositiveLimits(traces: seq<Trace>, limit: int, i: nat)
    requires limit >= 1
    ensures GoCount(limit, |traces|) == NodeCount(limit, |traces|) == if limit < |traces| then limit else |traces|
    ensures i < limit && i < |traces| ==>
              Newest(traces, GoCount(limit, |traces|))[i] == Newest(traces, NodeCount(limit, |traces|))[i]
              == traces[|traces| - 1 - i]
  {
    if i < limit && i < |traces| {
      NewestAt(traces, GoCount(limit, |traces|), i);
    }
  }

  /**
   Both services give the same answer exactly when there is nothing to return
   or the limit is positive, as their limit parsers guarantee.
   */
  lemma RetrievalsAgree(traces: seq<Trace>, limit: int)
    ensures Newest(traces, GoCount(limit, |traces|)) == Newest(traces, NodeCount(limit, |traces|))
       <==> limit >= 1 || traces == []
  {
  }

  /** For growing limits the answers extend one another. */
  lemma AnswersExtend(traces: seq<Trace>, small: int, large: int)
    requires 1 <= small <= large
    ensures Newest(traces, GoCount(small, |traces|)) <= Newest(traces, GoCount(large, |traces|))
    ensures Newest(traces, NodeCount(small, |traces|)) <= Newest(traces, NodeCount(large, |traces|))
  {
    NewestPrefix(traces, GoCount(small, |traces|), GoCount(large, |traces|));
    NewestPrefix(traces, NodeCount(small, |traces|), NodeCount(large, |traces|));
  }
}
