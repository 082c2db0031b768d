/**
 The order in which operations reach the topic, and the times their messages
 carry, against the order in which they were committed. Every goroutine may be
 delayed between any two of its steps, so each guarantee is stated about all
 continuations of a run, together with the exact condition under which it holds.
 */
module Ordering {
  import opened Uuids
  import opened Devices
  import opened Requests
  import opened Publishing
  import opened Pipeline
  import opened Lifecycle

  // ---------- Continuations ----------

  function Last(trace: seq<State>): State
    requires trace != []
  {
    trace[|trace| - 1]
  }

  ghost predicate Continues(render: Renderer, trace: seq<State>, steps: seq<Step>,
                            longer: seq<State>, more: seq<Step>) {
    IsRun(render, longer, more) && trace <= longer && steps <= more
  }

  lemma LastInvariant(render: Renderer, trace: seq<State>, steps: seq<Step>)
    requires IsRun(render, trace, steps)
    ensures trace != [] && Inv(render, Last(trace))
  {
    RunInvariant(render, trace, steps, |steps|);
  }

  /** One more step continues a run. */
  lemma Go(render: Renderer, trace: seq<State>, steps: seq<Step>, step: Step)
    returns (longer: seq<State>, more: seq<Step>)
    requires IsRun(render, trace, steps) && trace != [] && Enabled(Last(trace), step)
    ensures Continues(render, trace, steps, longer, more)
    ensures longer != [] && Last(longer) == Next(render, Last(trace), step)
  {
    longer, more := Extend(render, trace, steps, step);
  }

  lemma TaskFacts(render: Renderer, s: State, i: nat)
    requires Inv(render, s) && i in s.pub.tasks
    ensures i < |s.db.ops| && i !in s.pub.ended && s.pub.tasks[i].work.attempts < MAX_RETRIES
    ensures s.pub.tasks[i].stage.Writing? <==> s.pub.tasks[i].work.at.Some?
  {
    assert WorkOk(s.db.ops, s.db.now, s.pub, i);
  }

  /** The payload time task `i` has, or gets if it builds its payload now. */
  function TimeIfBuilt(s: State, i: nat): Instant
    requires i in s.pub.tasks && i < |s.db.ops|
  {
    if s.pub.tasks[i].work.at.Some? then s.pub.tasks[i].work.at.value else PayloadTime(s.db.ops[i], s.db.now)
  }

  /** `s'` is `s` after task `i` has built its payload. */
  predicate Prepared(s: State, s': State, i: nat) {
    && i in s.pub.tasks && i < |s.db.ops| && i in s'.pub.tasks
    && s'.db == s.db && s'.pub.log == s.pub.log && s'.pub.ended == s.pub.ended
    && s'.pub.tasks == s.pub.tasks[i := s'.pub.tasks[i]]
    && s'.pub.tasks[i].stage.Writing? && s'.pub.tasks[i].work.at == Some(TimeIfBuilt(s, i))
  }

  /** Any pending task can be brought to its write loop. */
  lemma Prepare(render: Renderer, trace: seq<State>, steps: seq<Step>, i: nat)
    returns (longer: seq<State>, more: seq<Step>)
    requires IsRun(render, trace, steps) && trace != [] && i in Last(trace).pub.tasks
    ensures Continues(render, trace, steps, longer, more) && longer != [] && Prepared(Last(trace), Last(longer), i)
  {
    LastInvariant(render, trace, steps);
    TaskFacts(render, Last(trace), i);
    hide IsRun, Inv;
    longer, more := trace, steps;
    if Last(longer).pub.tasks[i].stage.Committed? {
      longer, more := Go(render, longer, more, OfPub(Spawn(i)));
    }
    if Last(longer).pub.tasks[i].stage.Spawned? {
      longer, more := Go(render, longer, more, OfPub(BuildPayload(i)));
    }
  }

  /** `s'` is `s` after task `i` has appended one record, `e`, and ended. */
  predicate AppendedBy(s: State, s': State, i: nat, e: Entry) {
    && i in s.pub.tasks && i < |s.db.ops|
    && s'.db == s.db && s'.pub.log == s.pub.log + [e]
    && e.op == i && e.at == TimeIfBuilt(s, i)
    && s'.pub.tasks == s.pub.tasks - {i}
  }

  /** Any pending task can be the next to append to the topic. */
  lemma Append(render: Renderer, trace: seq<State>, steps: seq<Step>, i: nat)
    returns (longer: seq<State>, more: seq<Step>, e: Entry)
    requires IsRun(render, trace, steps) && trace != [] && i in Last(trace).pub.tasks
    ensures Continues(render, trace, steps, longer, more) && longer != []
    ensures AppendedBy(Last(trace), Last(longer), i, e)
  {
    longer, more := Prepare(render, trace, steps, i);
    var s := Last(longer);
    hide IsRun;
    e := Entry(i, s.pub.tasks[i].work.at.value, MessageFor(render, s.db.ops[i], s.pub.tasks[i].work.at.value));
    longer, more := Go(render, longer, more, OfPub(Write(i, Attempt(true, Written))));
  }

  // ---------- What a continuation cannot change ----------

  /** What becomes of the payload time of operation `k` between two states. */
  predicate TimeKept(s: State, s': State, k: nat)
    requires k < |s.db.ops|
  {
    var before, after := WorkOf(s.pub, k).at, WorkOf(s'.pub, k).at;
    && s.db.now <= s'.db.now
    && (before.Some? ==> after == before)
    && (before.None? && after.Some? ==> s.db.ops[k].kind.Created? || s.db.now <= after.value)
  }

  /** Commits and crashes leave the work of earlier operations as it is. */
  lemma WorkAfterDb(s: State, d: DbStep, k: nat)
    requires DbEnabled(s.db, d) && Accounted(|s.db.ops|, s.pub) && k < |s.db.ops|
    ensures WorkOf(OfDbNext(s, d).pub, k) == WorkOf(s.pub, k)
  {
    hide DbNext;
    assert k in s.pub.tasks || k in s.pub.ended;
  }

  lemma WorkAfterPub(render: Renderer, s: State, step: PubStep, k: nat)
    requires PubEnabled(s.db.ops, s.db.now, s.pub, step) && Accounted(|s.db.ops|, s.pub) && k < |s.db.ops|
    requires WorkOk(s.db.ops, s.db.now, s.pub, k)
    ensures var before, after := WorkOf(s.pub, k).at, WorkOf(PubNext(render, s.db.ops, s.db.now, s.pub, step), k).at;
            after == before || (before.None? && after == Some(PayloadTime(s.db.ops[k], s.db.now)))
  {
  }

  lemma TimeStep(render: Renderer, s: State, step: Step, k: nat)
    requires Inv(render, s) && Enabled(s, step) && k < |s.db.ops|
    ensures TimeKept(s, Next(render, s, step), k)
  {
    assert WorkOk(s.db.ops, s.db.now, s.pub, k) && Accounted(|s.db.ops|, s.pub);
    hide DbInv, NodeInv, LostAreSilent, DbNext, NodeNext, PubNext, WorkOf, WorkOk, PubInv, Accounted;
    match step {
      case OfDb(d) =>
        DbProgress(s.db, d);
        WorkAfterDb(s, d, k);
      case OfPub(p) => WorkAfterPub(render, s, p, k);
      case OfNode(_) =>
    }
  }

  lemma {:induction false} TimeStays(render: Renderer, trace: seq<State>, steps: seq<Step>, t: nat, u: nat, k: nat)
    requires IsRun(render, trace, steps) && t <= u < |trace| && k < |trace[t].db.ops|
    ensures TimeKept(trace[t], trace[u], k)
    decreases u
  {
    hide IsRun, Inv, Next, Enabled, WorkOf;
    if t == u {
    } else {
      TimeStays(render, trace, steps, t, u - 1, k);
      OnlyAppends(render, trace, steps, t, u - 1);
      RunStep(render, trace, steps, u - 1);
      TimeStep(render, trace[u - 1], steps[u - 1], k);
    }
  }

  // ---------- Order in the topic ----------

  /** All records of operation `i` stand before all records of `j`. */
  predicate InOrder(log: seq<Entry>, i: nat, j: nat) {
    forall a, b :: 0 <= a < |log| && 0 <= b < |log| && log[a].op == i && log[b].op == j ==> a < b
  }

  /** That holds however the run goes on. */
  ghost predicate AlwaysInOrder(render: Renderer, trace: seq<State>, steps: seq<Step>, i: nat, j: nat) {
    forall longer, more :: Continues(render, trace, steps, longer, more) ==> InOrder(Last(longer).pub.log, i, j)
  }

  /** The publish has ended without a record in the topic, and so there will never be one. */
  predicate Mute(pub: Pub, i: nat) {
    i in pub.ended && CopiesOf(pub.log, i) == 0
  }

  /** If a publish has ended, its records precede those of every operation committed afterwards. */
  lemma EndedPublishPrecedes(render: Renderer, trace: seq<State>, steps: seq<Step>, t: nat, u: nat, i: nat, j: nat)
    requires IsRun(render, trace, steps) && t <= u < |trace|
    requires i in trace[t].pub.ended && |trace[t].db.ops| <= j
    ensures InOrder(trace[u].pub.log, i, j)
  {
    RunInvariant(render, trace, steps, t);
    EndedStays(render, trace, steps, t, u, i);
    RecordsOfCommitted(render, trace[t]);
    assert forall b :: 0 <= b < |trace[t].pub.log| ==> trace[u].pub.log[b] == trace[t].pub.log[b];
  }

  lemma RecordsOfCommitted(render: Renderer, s: State)
    requires Inv(render, s)
    ensures forall b :: 0 <= b < |s.pub.log| ==> s.pub.log[b].op < |s.db.ops|
  {
    forall b | 0 <= b < |s.pub.log| ensures s.pub.log[b].op < |s.db.ops| {
      assert EntryOk(render, s.db.ops, s.pub, s.pub.log[b]);
    }
  }

  lemma MuteStays(render: Renderer, trace: seq<State>, steps: seq<Step>, t: nat, u: nat, i: nat)
    requires IsRun(render, trace, steps) && t <= u < |trace| && Mute(trace[t].pub, i)
    ensures forall a :: 0 <= a < |trace[u].pub.log| ==> trace[u].pub.log[a].op != i
  {
    EndedStays(render, trace, steps, t, u, i);
    forall a | 0 <= a < |trace[u].pub.log| ensures trace[u].pub.log[a].op != i {
      if a < |trace[t].pub.log| && trace[t].pub.log[a].op == i {
        CopyCounted(trace[t].pub.log, a);
      }
    }
  }

  lemma StaysInOrder(render: Renderer, trace: seq<State>, steps: seq<Step>, t: nat, u: nat, i: nat, j: nat)
    requires IsRun(render, trace, steps) && t <= u < |trace| && InOrder(trace[t].pub.log, i, j)
    requires i in trace[t].pub.ended || Mute(trace[t].pub, j)
    ensures InOrder(trace[u].pub.log, i, j)
  {
    if Mute(trace[t].pub, j) {
      MuteStays(render, trace, steps, t, u, j);
    } else {
      EndedStays(render, trace, steps, t, u, i);
    }
  }

  /** Otherwise `i` can still append behind a record of `j`. */
  lemma CanBreakOrder(render: Renderer, trace: seq<State>, steps: seq<Step>, i: nat, j: nat)
    returns (longer: seq<State>, more: seq<Step>)
    requires IsRun(render, trace, steps) && trace != [] && i != j
    requires i in Last(trace).pub.tasks && j < |Last(trace).db.ops| && !Mute(Last(trace).pub, j)
    ensures Continues(render, trace, steps, longer, more) && !InOrder(Last(longer).pub.log, i, j)
  {
    LastInvariant(render, trace, steps);
    hide IsRun, PubNext;
    var s := Last(trace);
    longer, more := trace, steps;
    var b: nat;
    if j in s.pub.tasks {
      var e;
      longer, more, e := Append(render, trace, steps, j);
      b := |s.pub.log|;
    } else {
      assert j in s.pub.ended;
      CopyExists(s.pub.log, j);
      b :| b < |s.pub.log| && s.pub.log[b].op == j;
    }
    var before := Last(longer).pub.log;
    var e;
    longer, more, e := Append(render, longer, more, i);
    assert Last(longer).pub.log[|before|].op == i && Last(longer).pub.log[b].op == j;
  }

  /**
   Of two committed operations, the records of `i` precede those of `j` in all
   continuations if and only if they do so now and either the publish of `i`
   has ended or that of `j` has ended without a record.
   */
  lemma OrderGuaranteed(render: Renderer, trace: seq<State>, steps: seq<Step>, i: nat, j: nat)
    requires IsRun(render, trace, steps) && i != j
    requires i < |Last(trace).db.ops| && j < |Last(trace).db.ops|
    ensures var pub := Last(trace).pub;
            AlwaysInOrder(render, trace, steps, i, j) <==>
              InOrder(pub.log, i, j) && (i in pub.ended || Mute(pub, j))
  {
    LastInvariant(render, trace, steps);
    var pub := Last(trace).pub;
    assert Continues(render, trace, steps, trace, steps);
    if InOrder(pub.log, i, j) && (i in pub.ended || Mute(pub, j)) {
      forall longer, more | Continues(render, trace, steps, longer, more)
        ensures InOrder(Last(longer).pub.log, i, j)
      {
        StaysInOrder(render, longer, more, |trace| - 1, |longer| - 1, i, j);
      }
    } else if InOrder(pub.log, i, j) {
      assert i in pub.tasks;
      var longer, more := CanBreakOrder(render, trace, steps, i, j);
    }
  }

  /** A step that has just committed operation `j`, its caller being told. */
  predicate JustCommitted(trace: seq<State>, steps: seq<Step>, j: nat) {
    && |trace| == |steps| + 1 && steps != []
    && steps[|steps| - 1].OfDb? && Answered(steps[|steps| - 1].db)
    && j == |trace[|steps| - 1].db.ops| && |Last(trace).db.ops| == j + 1
  }

  lemma FreshTask(render: Renderer, trace: seq<State>, steps: seq<Step>, j: nat)
    requires IsRun(render, trace, steps) && JustCommitted(trace, steps, j)
    ensures var was, s := trace[|steps| - 1], Last(trace);
            && j in s.pub.tasks && s.pub.tasks[j] == Task(Committed, Work(None, 0)) && s.pub.ended == was.pub.ended
            && (forall i :: i != j ==> WorkOf(s.pub, i) == WorkOf(was.pub, i))
            && was.db.ops <= s.db.ops && s.pub.log == was.pub.log && CopiesOf(s.pub.log, j) == 0
  {
    var was, d := trace[|steps| - 1], steps[|steps| - 1].db;
    assert Enabled(was, OfDb(d)) && Last(trace) == Next(render, was, OfDb(d));
    DbProgress(was.db, d);
    LastInvariant(render, trace, steps);
    hide IsRun, DbNext, DbInv, NodeInv, LostAreSilent;
    assert WorkOk(Last(trace).db.ops, Last(trace).db.now, Last(trace).pub, j);
  }

  /**
   When an operation has just been committed: an earlier one is sure to precede
   it in the topic if and only if its publish had ended before that commit.
   */
  lemma CommitOrder(render: Renderer, trace: seq<State>, steps: seq<Step>, i: nat, j: nat)
    requires IsRun(render, trace, steps) && JustCommitted(trace, steps, j) && i < j
    ensures AlwaysInOrder(render, trace, steps, i, j) <==> i in trace[|steps| - 1].pub.ended
  {
    FreshTask(render, trace, steps, j);
    OrderGuaranteed(render, trace, steps, i, j);
    LastInvariant(render, trace, steps);
    var s := Last(trace);
    assert j !in s.pub.ended;
    forall b | 0 <= b < |s.pub.log| ensures s.pub.log[b].op != j {
      if s.pub.log[b].op == j {
        CopyCounted(s.pub.log, b);
      }
    }
  }

  // ---------- Order of times ----------

  /** No record of `i` carries a later time than one of `j`. */
  predicate TimesInOrder(log: seq<Entry>, i: nat, j: nat) {
    forall a, b :: 0 <= a < |log| && 0 <= b < |log| && log[a].op == i && log[b].op == j ==> log[a].at <= log[b].at
  }

  ghost predicate AlwaysTimesInOrder(render: Renderer, trace: seq<State>, steps: seq<Step>, i: nat, j: nat) {
    forall longer, more :: Continues(render, trace, steps, longer, more) ==> TimesInOrder(Last(longer).pub.log, i, j)
  }

  /** The time the records of operation `k` carry, as far as it is settled: a creation's always is. */
  function Settled(s: State, k: nat): Option<Instant>
    requires k < |s.db.ops|
  {
    if s.db.ops[k].kind.Created? then Some(s.db.ops[k].row.createdAt) else WorkOf(s.pub, k).at
  }

  /** A later record of `k` carries the settled time, or one not before the present. */
  lemma RecordTime(render: Renderer, trace: seq<State>, steps: seq<Step>, t: nat, u: nat, a: nat)
    requires IsRun(render, trace, steps) && t <= u < |trace|
    requires a < |trace[u].pub.log| && trace[u].pub.log[a].op < |trace[t].db.ops|
    ensures var e := trace[u].pub.log[a];
            match Settled(trace[t], e.op)
            case Some(at) => e.at == at && at <= trace[t].db.now
            case None => trace[t].db.now <= e.at
  {
    RunInvariant(render, trace, steps, t);
    RunInvariant(render, trace, steps, u);
    OnlyAppends(render, trace, steps, t, u);
    var s, s', e := trace[t], trace[u], trace[u].pub.log[a];
    TimeStays(render, trace, steps, t, u, e.op);
    assert EntryOk(render, s'.db.ops, s'.pub, e);
    assert WorkOk(s'.db.ops, s'.db.now, s'.pub, e.op) && WorkOk(s.db.ops, s.db.now, s.pub, e.op);
    assert OpOk(s.db, e.op);
  }

  /** A publish that is not mute has a record in some continuation in which the clock stands still. */
  lemma CanRecord(render: Renderer, trace: seq<State>, steps: seq<Step>, i: nat)
    returns (longer: seq<State>, more: seq<Step>, a: nat)
    requires IsRun(render, trace, steps) && trace != []
    requires i < |Last(trace).db.ops| && !Mute(Last(trace).pub, i)
    ensures Continues(render, trace, steps, longer, more) && longer != [] && Last(longer).db == Last(trace).db
    ensures Last(trace).pub.log <= Last(longer).pub.log && a < |Last(longer).pub.log|
    ensures Last(longer).pub.log[a].op == i
    ensures forall k :: k != i && k in Last(trace).pub.tasks ==>
              k in Last(longer).pub.tasks && Last(longer).pub.tasks[k] == Last(trace).pub.tasks[k]
  {
    LastInvariant(render, trace, steps);
    var s := Last(trace);
    if i in s.pub.tasks {
      var e;
      longer, more, e := Append(render, trace, steps, i);
      a := |s.pub.log|;
    } else {
      longer, more := trace, steps;
      assert i in s.pub.ended;
      CopyExists(s.pub.log, i);
      a :| a < |s.pub.log| && s.pub.log[a].op == i;
    }
  }

  lemma StillNotMute(render: Renderer, s: State, s': State, i: nat)
    requires Inv(render, s) && Inv(render, s') && i < |s.db.ops| && !Mute(s.pub, i) && s.pub.log <= s'.pub.log
    requires i in s.pub.tasks ==> i in s'.pub.tasks
    ensures !Mute(s'.pub, i)
  {
    if i in s.pub.tasks {
      assert i !in s'.pub.ended;
    } else {
      assert i in s.pub.ended;
      CopyExists(s.pub.log, i);
      var a :| 0 <= a < |s.pub.log| && s.pub.log[a].op == i;
      assert s'.pub.log[a].op == i;
      CopyCounted(s'.pub.log, a);
    }
  }

  /** A time that is not settled belongs to a pending task, unless the publish is mute. */
  lemma UnsettledIsPending(render: Renderer, s: State, i: nat)
    requires Inv(render, s) && i < |s.db.ops| && !Mute(s.pub, i) && Settled(s, i).None?
    ensures i in s.pub.tasks && s.pub.tasks[i].work.at.None? && !s.db.ops[i].kind.Created?
  {
    assert WorkOk(s.db.ops, s.db.now, s.pub, i);
  }

  lemma RecordedBefore(render: Renderer, s: State, b: nat)
    requires Inv(render, s) && b < |s.pub.log|
    ensures s.pub.log[b].at <= s.db.now
  {
    var e := s.pub.log[b];
    assert EntryOk(render, s.db.ops, s.pub, e);
    assert WorkOk(s.db.ops, s.db.now, s.pub, e.op);
  }

  /** Both have a record in some continuation, that of `i` after a tick of the clock if its time is not settled. */
  lemma CanRecordBoth(render: Renderer, trace: seq<State>, steps: seq<Step>, i: nat, j: nat)
    returns (longer: seq<State>, more: seq<Step>, a: nat, b: nat)
    requires IsRun(render, trace, steps) && trace != [] && i != j
    requires i < |Last(trace).db.ops| && !Mute(Last(trace).pub, i)
    requires j < |Last(trace).db.ops| && !Mute(Last(trace).pub, j)
    ensures Continues(render, trace, steps, longer, more)
    ensures a < |Last(longer).pub.log| && b < |Last(longer).pub.log|
    ensures Last(longer).pub.log[a].op == i && Last(longer).pub.log[b].op == j
    ensures Last(longer).pub.log[b].at <= Last(trace).db.now
    ensures Settled(Last(trace), i).None? ==> Last(longer).pub.log[a].at > Last(trace).db.now
  {
    hide IsRun, Inv;
    LastInvariant(render, trace, steps);
    var s := Last(trace);
    longer, more, b := CanRecord(render, trace, steps, j);
    LastInvariant(render, longer, more);
    StillNotMute(render, s, Last(longer), i);
    RecordedBefore(render, Last(longer), b);
    longer, more := Go(render, longer, more, OfDb(Tick(s.db.now + 1)));
    var ticked := longer;
    longer, more, a := CanRecord(render, longer, more, i);
    if Settled(s, i).None? {
      UnsettledIsPending(render, s, i);
      RecordTime(render, longer, more, |ticked| - 1, |longer| - 1, a);
    }
  }

  /** None of the reasons for which the times are in order for good. */
  predicate TimesOpen(s: State, i: nat, j: nat)
    requires i < |s.db.ops| && j < |s.db.ops|
  {
    && !Mute(s.pub, i) && !Mute(s.pub, j)
    && (Settled(s, i).None? || (Settled(s, j).Some? && Settled(s, i).value > Settled(s, j).value))
  }

  lemma CanBreakTimes(render: Renderer, trace: seq<State>, steps: seq<Step>, i: nat, j: nat)
    returns (longer: seq<State>, more: seq<Step>)
    requires IsRun(render, trace, steps) && trace != [] && i != j
    requires i < |Last(trace).db.ops| && j < |Last(trace).db.ops| && TimesOpen(Last(trace), i, j)
    ensures Continues(render, trace, steps, longer, more) && !TimesInOrder(Last(longer).pub.log, i, j)
  {
    hide IsRun, Mute, Settled;
    var a, b;
    longer, more, a, b := CanRecordBoth(render, trace, steps, i, j);
    if Settled(Last(trace), i).Some? {
      RecordTime(render, longer, more, |trace| - 1, |longer| - 1, a);
      RecordTime(render, longer, more, |trace| - 1, |longer| - 1, b);
    }
    assert Last(longer).pub.log[a].at > Last(longer).pub.log[b].at;
  }

  /**
   Of two committed operations, no record of `i` carries a later time than one
   of `j`, in all continuations, if and only if one of them never gets a record,
   or the time of `i` is settled and that of `j` is not settled before it.
   */
  lemma TimesGuaranteed(render: Renderer, trace: seq<State>, steps: seq<Step>, i: nat, j: nat)
    requires IsRun(render, trace, steps) && i != j
    requires i < |Last(trace).db.ops| && j < |Last(trace).db.ops|
    ensures var s := Last(trace);
            AlwaysTimesInOrder(render, trace, steps, i, j) <==>
              || Mute(s.pub, i) || Mute(s.pub, j)
              || (Settled(s, i).Some? && (Settled(s, j).Some? ==> Settled(s, i).value <= Settled(s, j).value))
  {
    var s := Last(trace);
    if TimesOpen(s, i, j) {
      var longer, more := CanBreakTimes(render, trace, steps, i, j);
    } else {
      forall longer, more | Continues(render, trace, steps, longer, more)
        ensures TimesInOrder(Last(longer).pub.log, i, j)
      {
        StaysTimely(render, longer, more, |trace| - 1, |longer| - 1, i, j);
      }
    }
  }

  lemma StaysTimely(render: Renderer, trace: seq<State>, steps: seq<Step>, t: nat, u: nat, i: nat, j: nat)
    requires IsRun(render, trace, steps) && t <= u < |trace|
    requires i < |trace[t].db.ops| && j < |trace[t].db.ops|
    requires !TimesOpen(trace[t], i, j)
    ensures TimesInOrder(trace[u].pub.log, i, j)
  {
    var log := trace[u].pub.log;
    if Mute(trace[t].pub, i) {
      MuteStays(render, trace, steps, t, u, i);
    } else if Mute(trace[t].pub, j) {
      MuteStays(render, trace, steps, t, u, j);
    } else {
      forall a, b | 0 <= a < |log| && 0 <= b < |log| && log[a].op == i && log[b].op == j
        ensures log[a].at <= log[b].at
      {
        RecordTime(render, trace, steps, t, u, a);
        RecordTime(render, trace, steps, t, u, b);
      }
    }
  }

  /**
   When an operation on a device has just been committed: the times of an
   earlier one on it are sure not to be later if and only if that is the
   creation, or its publish has ended or had at least built its payload.
   */
  lemma CommitTimes(render: Renderer, trace: seq<State>, steps: seq<Step>, i: nat, j: nat)
    requires IsRun(render, trace, steps) && JustCommitted(trace, steps, j) && i < j
    requires Last(trace).db.ops[i].row.id == Last(trace).db.ops[j].row.id
    ensures AlwaysTimesInOrder(render, trace, steps, i, j) <==>
              var was := trace[|steps| - 1];
              || was.db.ops[i].kind.Created? || i in was.pub.ended || WorkOf(was.pub, i).at.Some?
  {
    FreshTask(render, trace, steps, j);
    TimesGuaranteed(render, trace, steps, i, j);
    LastInvariant(render, trace, steps);
    var s := Last(trace);
    UsedIdNotCreated(s.db.ops, i, j);
    assert WorkOk(s.db.ops, s.db.now, s.pub, i);
    assert j !in s.pub.ended && Settled(s, j) == None;
  }

  /**
   It happens: a device is renamed and then deleted, the deletion is published
   first, and the renaming later and with the later time.
   */
  lemma ReorderExample(render: Renderer, u: Uuid) returns (trace: seq<State>, steps: seq<Step>)
    requires IsV4(u)
    ensures IsRun(render, trace, steps) && trace != []
    ensures var s := Last(trace);
            && |s.db.ops| == 3 && s.db.ops[1].row.id == s.db.ops[2].row.id == u
            && s.db.ops[1].kind.Updated? && s.db.ops[2].kind.Deleted?
            && |s.pub.log| == 2 && s.pub.log[0].op == 2 && s.pub.log[1].op == 1
            && s.pub.log[0].at == 0 && s.pub.log[1].at == 1
  {
    trace, steps := RenamedThenDeleted(render, u);
    assert |trace| == 7;
    hide IsRun;
    var e;
    trace, steps, e := Append(render, trace, steps, 2);
    trace, steps := Go(render, trace, steps, OfDb(Tick(1)));
    trace, steps, e := Append(render, trace, steps, 1);
  }
}
