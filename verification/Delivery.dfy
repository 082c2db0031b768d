/**
 Which records of the topic reach the handler of the consumer, over whole runs
 with any stops, starts and commits: what is delivered, how often, and what a
 start without committed offset skips for good.
 */
module Delivery {
  import opened Uuids
  import opened Requests
  import opened Publishing
  import opened Pipeline

  /** Offsets of stored events grow, and lie before the position. */
  predicate StoredOnce(node: Node) {
    && (forall i :: 0 <= i < |node.events| && node.events[i].source.FromKafka? ==>
          node.position.Some? && node.events[i].source.offset < node.position.value)
    && (forall i, j :: 0 <= i < j < |node.events| && node.events[i].source.FromKafka? && node.events[j].source.FromKafka?
          ==> node.events[i].source.offset < node.events[j].source.offset)
  }

  /**
   As long as the consumer is not stopped, every message is stored at most
   once and in topic order, whatever else crashes or fails; only a restart redelivers.
   */
  lemma {:induction false} AtMostOnceWithoutRestart(render: Renderer, trace: seq<State>, steps: seq<Step>, i: nat)
    requires IsRun(render, trace, steps) && i < |trace|
    requires forall j :: 0 <= j < i ==> steps[j] != OfNode(StopConsumer)
    ensures StoredOnce(trace[i].node)
  {
    if i == 0 {
    } else {
      AtMostOnceWithoutRestart(render, trace, steps, i - 1);
      var s, step := trace[i - 1], steps[i - 1];
      assert trace[i] == Next(render, s, step);
    }
  }

  /** Some step before the `i`-th delivered offset `o` to the handler. */
  ghost predicate Delivered(trace: seq<State>, steps: seq<Step>, i: nat, o: nat)
    requires i <= |steps| < |trace|
  {
    exists j :: 0 <= j < i && steps[j].OfNode? && steps[j].node.Deliver? && trace[j].node.position == Some(o)
  }

  /** The consumer started without a committed offset while record `o` was in the topic but not yet delivered. */
  ghost predicate Skipped(trace: seq<State>, steps: seq<Step>, i: nat, o: nat)
    requires i <= |steps| < |trace|
  {
    exists j :: 0 <= j < i && StartsBlind(trace, steps, j) && o < |trace[j].pub.log| && !Delivered(trace, steps, j, o)
  }

  /** Step `j` starts the consumer while no offset has been committed. */
  predicate StartsBlind(trace: seq<State>, steps: seq<Step>, j: nat)
    requires j < |steps| < |trace|
  {
    steps[j] == OfNode(StartConsumer) && trace[j].node.committed.None?
  }

  /** The position, or the committed offset a restart resumes from, is past `o`. */
  predicate Passed(node: Node, o: nat) {
    (node.position.Some? && o < node.position.value) || (node.committed.Some? && o < node.committed.value)
  }

  /** No session, present or future, can come back to `o`. */
  predicate OutOfReach(s: State, o: nat) {
    && o < |s.pub.log|
    && (s.node.position.Some? ==> o < s.node.started)
    && (s.node.committed.Some? ==> o < s.node.committed.value)
  }

  predicate DeliversNext(s: State, step: Step, o: nat) {
    step.OfNode? && step.node.Deliver? && s.node.position == Some(o)
  }

  predicate SkipsNext(s: State, step: Step, o: nat) {
    step == OfNode(StartConsumer) && s.node.committed.None? && o < |s.pub.log|
  }

  /** What the last step adds to the delivered and to the skipped offsets. */
  lemma LastStep(trace: seq<State>, steps: seq<Step>, i: nat, o: nat)
    requires 0 < i <= |steps| < |trace|
    ensures Delivered(trace, steps, i, o) <==>
              || Delivered(trace, steps, i - 1, o)
              || DeliversNext(trace[i - 1], steps[i - 1], o)
    ensures Skipped(trace, steps, i, o) <==>
              || Skipped(trace, steps, i - 1, o)
              || (SkipsNext(trace[i - 1], steps[i - 1], o) && !Delivered(trace, steps, i - 1, o))
  {
  }

  /** One step passes a record by delivering or skipping it; what is out of reach stays there. */
  lemma StepPasses(render: Renderer, s: State, step: Step, o: nat)
    requires NodeInv(s.pub.log, s.node) && Enabled(s, step)
    ensures var s' := Next(render, s, step);
            && (Passed(s'.node, o) ==> Passed(s.node, o) || DeliversNext(s, step, o) || SkipsNext(s, step, o))
            && (OutOfReach(s, o) ==> OutOfReach(s', o) && !DeliversNext(s, step, o))
            && (SkipsNext(s, step, o) ==> OutOfReach(s', o) && !DeliversNext(s, step, o))
  {
    StepAppends(render, s, step);
    hide DbNext, PubNext;
  }

  lemma NothingPassedYet(render: Renderer, trace: seq<State>, steps: seq<Step>, o: nat)
    requires IsRun(render, trace, steps)
    ensures !Passed(trace[0].node, o) && !Skipped(trace, steps, 0, o)
  {
  }

  /**
   Every record the consumer is past, in any run with any stops, starts and
   commits, was either delivered to the handler or skipped by a start without
   committed offset, never both; a skipped one stays out of reach.
   */
  lemma {:induction false} DeliveredOrSkipped(render: Renderer, trace: seq<State>, steps: seq<Step>, i: nat, o: nat)
    requires IsRun(render, trace, steps) && i < |trace|
    ensures Passed(trace[i].node, o) ==> Delivered(trace, steps, i, o) || Skipped(trace, steps, i, o)
    ensures Skipped(trace, steps, i, o) ==> !Delivered(trace, steps, i, o) && OutOfReach(trace[i], o)
  {
    hide IsRun, Inv, Delivered, Skipped, Passed, OutOfReach, Next, Enabled, NodeInv, DeliversNext, SkipsNext;
    if i == 0 {
      NothingPassedYet(render, trace, steps, o);
    } else {
      DeliveredOrSkipped(render, trace, steps, i - 1, o);
      RunStep(render, trace, steps, i - 1);
      StepPasses(render, trace[i - 1], steps[i - 1], o);
      LastStep(trace, steps, i, o);
    }
  }

  /** The event of a skipped record is in the store in no later state. */
  lemma SkippedIsLost(render: Renderer, trace: seq<State>, steps: seq<Step>, j: nat, i: nat, o: nat, k: nat)
    requires IsRun(render, trace, steps) && j <= i < |trace| && Skipped(trace, steps, j, o)
    requires k < |trace[i].node.events|
    ensures trace[i].node.events[k].source != FromKafka(o)
  {
    if trace[i].node.events[k].source == FromKafka(o) {
      StoredWasDelivered(render, trace, steps, i, k);
      DeliveredOrSkipped(render, trace, steps, i, o);
    }
  }

  lemma {:induction false} StoredWasDelivered(render: Renderer, trace: seq<State>, steps: seq<Step>, i: nat, k: nat)
    requires IsRun(render, trace, steps) && i < |trace|
    requires k < |trace[i].node.events| && trace[i].node.events[k].source.FromKafka?
    ensures Delivered(trace, steps, i, trace[i].node.events[k].source.offset)
  {
    assert i > 0;
    var s, step := trace[i - 1], steps[i - 1];
    assert Enabled(s, step) && trace[i] == Next(render, s, step);
    hide IsRun, DbNext, PubNext;
    if k < |s.node.events| {
      StepAppends(render, s, step);
      StoredWasDelivered(render, trace, steps, i - 1, k);
    } else {
      assert step.OfNode? && step.node.Deliver?;
    }
  }

  /** The position, or the last one if the consumer is stopped, or 0 if it never ran. */
  function Reached(trace: seq<State>, i: nat): nat
    requires i < |trace|
  {
    if trace[i].node.position.Some? then trace[i].node.position.value
    else if i == 0 then 0
    else Reached(trace, i - 1)
  }

  /** Each start without a committed offset finds no record past the last position. */
  predicate SafeStarts(trace: seq<State>, steps: seq<Step>, i: nat)
    requires i <= |steps| < |trace|
  {
    forall j :: 0 <= j < i && StartsBlind(trace, steps, j) ==> |trace[j].pub.log| == Reached(trace, j)
  }

  lemma {:induction false} ReachedInTopic(render: Renderer, trace: seq<State>, steps: seq<Step>, i: nat)
    requires IsRun(render, trace, steps) && i < |trace|
    ensures Reached(trace, i) <= |trace[i].pub.log|
  {
    if trace[i].node.position.Some? {
      RunInvariant(render, trace, steps, i);
    } else if i == 0 {
    } else {
      ReachedInTopic(render, trace, steps, i - 1);
      StepAppends(render, trace[i - 1], steps[i - 1]);
    }
  }

  lemma ReachedGrows(render: Renderer, trace: seq<State>, steps: seq<Step>, i: nat)
    requires IsRun(render, trace, steps) && i < |steps| && trace[i + 1].node.committed.None?
    ensures trace[i].node.committed.None? && Reached(trace, i) <= Reached(trace, i + 1)
  {
    ReachedInTopic(render, trace, steps, i);
    assert trace[i + 1] == Next(render, trace[i], steps[i]);
    hide IsRun, DbNext, PubNext;
  }

  lemma DeliveredLater(render: Renderer, trace: seq<State>, steps: seq<Step>, i: nat, o: nat)
    requires IsRun(render, trace, steps) && i < |trace| && Delivered(trace, steps, i, o)
    ensures i > 0 && |trace| == |steps| + 1
  {
  }

  lemma DeliveryReaches(render: Renderer, trace: seq<State>, steps: seq<Step>, i: nat)
    requires IsRun(render, trace, steps) && i < |steps| && steps[i].OfNode? && steps[i].node.Deliver?
    ensures trace[i].node.position.Some? && Reached(trace, i + 1) == trace[i].node.position.value + 1
  {
    assert Enabled(trace[i], steps[i]) && trace[i + 1] == Next(render, trace[i], steps[i]);
    hide IsRun;
  }

  /** While nothing is committed, only offsets before the last position have been delivered. */
  lemma {:induction false} DeliveredIsReached(render: Renderer, trace: seq<State>, steps: seq<Step>, i: nat, o: nat)
    requires IsRun(render, trace, steps) && i < |trace|
    requires trace[i].node.committed.None? && Delivered(trace, steps, i, o)
    ensures o < Reached(trace, i)
  {
    hide IsRun, Delivered, Skipped, Reached;
    DeliveredLater(render, trace, steps, i, o);
    LastStep(trace, steps, i, o);
    ReachedGrows(render, trace, steps, i - 1);
    if Delivered(trace, steps, i - 1, o) {
      DeliveredIsReached(render, trace, steps, i - 1, o);
    } else {
      DeliveryReaches(render, trace, steps, i - 1);
    }
  }

  lemma {:induction false} ReachedWasPassed(render: Renderer, trace: seq<State>, steps: seq<Step>, i: nat, o: nat)
    requires IsRun(render, trace, steps) && i < |trace| && o < Reached(trace, i)
    ensures Delivered(trace, steps, i, o) || Skipped(trace, steps, i, o)
  {
    if trace[i].node.position.Some? {
      DeliveredOrSkipped(render, trace, steps, i, o);
    } else {
      ReachedWasPassed(render, trace, steps, i - 1, o);
      LastStep(trace, steps, i, o);
    }
  }

  /** While nothing is committed, all skipped offsets are before the last position. */
  lemma {:induction false} SkippedIsReached(render: Renderer, trace: seq<State>, steps: seq<Step>, i: nat, o: nat)
    requires IsRun(render, trace, steps) && i < |trace|
    requires trace[i].node.committed.None? && Skipped(trace, steps, i, o)
    ensures o < Reached(trace, i)
  {
    hide IsRun, Inv, Delivered, Skipped, Reached, Next, Enabled;
    if i == 0 {
      NothingPassedYet(render, trace, steps, o);
    } else {
      RunStep(render, trace, steps, i - 1);
      LastStep(trace, steps, i, o);
      ReachedGrows(render, trace, steps, i - 1);
      if Skipped(trace, steps, i - 1, o) {
        SkippedIsReached(render, trace, steps, i - 1, o);
      } else {
        BlindStartReachesEnd(render, trace, steps, i - 1);
      }
    }
  }

  lemma BlindStartReachesEnd(render: Renderer, trace: seq<State>, steps: seq<Step>, i: nat)
    requires IsRun(render, trace, steps) && i < |steps|
    requires steps[i] == OfNode(StartConsumer) && trace[i].node.committed.None?
    ensures Reached(trace, i + 1) == |trace[i].pub.log|
  {
    assert Enabled(trace[i], steps[i]) && trace[i + 1] == Next(render, trace[i], steps[i]);
    hide IsRun;
  }

  /**
   What a start of the consumer skips: nothing if an offset has been committed,
   and otherwise exactly the records between the last position, 0 for a first
   start, and the end of the topic.
   */
  lemma StartSkips(render: Renderer, trace: seq<State>, steps: seq<Step>, j: nat, o: nat)
    requires IsRun(render, trace, steps) && j < |steps| && steps[j] == OfNode(StartConsumer)
    ensures Skipped(trace, steps, j + 1, o) && !Skipped(trace, steps, j, o) <==>
              trace[j].node.committed.None? && Reached(trace, j) <= o < |trace[j].pub.log|
  {
    assert |trace| == |steps| + 1;
    hide IsRun, Inv, Delivered, Skipped, Reached, Next, Enabled;
    RunStep(render, trace, steps, j);
    LastStep(trace, steps, j + 1, o);
    if trace[j].node.committed.None? {
      if o < Reached(trace, j) {
        ReachedWasPassed(render, trace, steps, j, o);
      } else if Delivered(trace, steps, j, o) {
        DeliveredIsReached(render, trace, steps, j, o);
      } else if Skipped(trace, steps, j, o) {
        SkippedIsReached(render, trace, steps, j, o);
      }
    }
  }

  lemma {:induction false} SafeSkipsNothing(render: Renderer, trace: seq<State>, steps: seq<Step>, i: nat, o: nat)
    requires IsRun(render, trace, steps) && i < |trace| && SafeStarts(trace, steps, i)
    ensures !Skipped(trace, steps, i, o)
  {
    if i == 0 {
    } else {
      SafeSkipsNothing(render, trace, steps, i - 1, o);
      LastStep(trace, steps, i, o);
      if StartsBlind(trace, steps, i - 1) && o < |trace[i - 1].pub.log| {
        ReachedWasPassed(render, trace, steps, i - 1, o);
      }
    }
  }

  /**
   A run skips no record if and only if each start without a committed offset
   finds no record past the last position. Then everything the consumer is
   past has been delivered, across all restarts.
   */
  lemma NothingSkipped(render: Renderer, trace: seq<State>, steps: seq<Step>, i: nat)
    requires IsRun(render, trace, steps) && i < |trace|
    ensures (forall o: nat :: !Skipped(trace, steps, i, o)) <==> SafeStarts(trace, steps, i)
    ensures SafeStarts(trace, steps, i) ==>
              forall o: nat :: Passed(trace[i].node, o) ==> Delivered(trace, steps, i, o)
  {
    if SafeStarts(trace, steps, i) {
      forall o: nat
        ensures !Skipped(trace, steps, i, o)
        ensures Passed(trace[i].node, o) ==> Delivered(trace, steps, i, o)
      {
        SafeSkipsNothing(render, trace, steps, i, o);
        DeliveredOrSkipped(render, trace, steps, i, o);
      }
    } else {
      var j :| 0 <= j < i && StartsBlind(trace, steps, j) && |trace[j].pub.log| != Reached(trace, j);
      var o := Reached(trace, j);
      ReachedInTopic(render, trace, steps, j);
      if Delivered(trace, steps, j, o) {
        DeliveredIsReached(render, trace, steps, j, o);
      }
      assert Skipped(trace, steps, i, o);
    }
  }

  /** A consumer first started on the empty topic, and not stopped before its first commit, starts safely. */
  lemma CommitBeforeStopIsSafe(render: Renderer, trace: seq<State>, steps: seq<Step>, b: nat, i: nat)
    requires IsRun(render, trace, steps) && i < |trace|
    requires b < |steps| && steps[b] == OfNode(StartConsumer) && trace[b].pub.log == []
    requires forall j :: 0 <= j < b ==> steps[j] != OfNode(StartConsumer)
    requires forall j :: b < j < i && steps[j] == OfNode(StopConsumer) ==> trace[j].node.committed.Some?
    ensures SafeStarts(trace, steps, i)
  {
    forall j | 0 <= j < i && StartsBlind(trace, steps, j) ensures |trace[j].pub.log| == Reached(trace, j) {
      if b < j {
        RunsOrHasCommitted(render, trace, steps, b, j);
      }
      ReachedInTopic(render, trace, steps, j);
    }
  }

  lemma {:induction false} RunsOrHasCommitted(render: Renderer, trace: seq<State>, steps: seq<Step>, b: nat, i: nat)
    requires IsRun(render, trace, steps) && b < i < |trace| && steps[b] == OfNode(StartConsumer)
    requires forall j :: b < j < i && steps[j] == OfNode(StopConsumer) ==> trace[j].node.committed.Some?
    ensures trace[i].node.position.Some? || trace[i].node.committed.Some?
    decreases i
  {
    assert trace[i] == Next(render, trace[i - 1], steps[i - 1]);
    if i == b + 1 {
    } else {
      RunsOrHasCommitted(render, trace, steps, b, i - 1);
    }
  }

  // ---------- What a commit is worth ----------

  /** The offset of the last commit among the first `i` steps. */
  function LastCommit(steps: seq<Step>, i: nat): Option<nat>
    requires i <= |steps|
  {
    if i == 0 then None
    else if steps[i - 1].OfNode? && steps[i - 1].node.CommitOffset? then Some(steps[i - 1].node.offset)
    else LastCommit(steps, i - 1)
  }

  lemma {:induction false} CommittedIsLast(render: Renderer, trace: seq<State>, steps: seq<Step>, i: nat)
    requires IsRun(render, trace, steps) && i < |trace|
    ensures i <= |steps| && trace[i].node.committed == LastCommit(steps, i)
  {
    if i == 0 {
    } else {
      CommittedIsLast(render, trace, steps, i - 1);
      RunStep(render, trace, steps, i - 1);
      hide IsRun, Inv, DbNext, PubNext;
    }
  }

  /** No step from `a` up to `b` commits an offset. */
  predicate NoCommit(steps: seq<Step>, a: nat, b: nat)
    requires b <= |steps|
  {
    forall j :: a <= j < b ==> !(steps[j].OfNode? && steps[j].node.CommitOffset?)
  }

  lemma {:induction false} CommitLasts(steps: seq<Step>, j: nat, k: nat, c: nat)
    requires j < k <= |steps| && steps[j] == OfNode(CommitOffset(c)) && NoCommit(steps, j + 1, k)
    ensures LastCommit(steps, k) == Some(c)
    decreases k
  {
    if k == j + 1 {
    } else {
      CommitLasts(steps, j, k - 1, c);
    }
  }

  /** A start resumes at the last committed offset, whenever that was; without one, at the end of the topic. */
  lemma StartResumes(render: Renderer, trace: seq<State>, steps: seq<Step>, k: nat)
    requires IsRun(render, trace, steps) && k < |steps| && steps[k] == OfNode(StartConsumer)
    ensures trace[k + 1].node.position
         == match LastCommit(steps, k) case Some(c) => Some(c) case None => Some(|trace[k].pub.log|)
  {
    CommittedIsLast(render, trace, steps, k);
    RunStep(render, trace, steps, k);
    hide IsRun, Inv;
  }

  /**
   What a commit of `c` is worth until the next one, across any stops and
   starts: every start resumes at `c`, and nothing below `c` is delivered.
   */
  lemma CommitHolds(render: Renderer, trace: seq<State>, steps: seq<Step>, j: nat, k: nat, c: nat)
    requires IsRun(render, trace, steps) && j < k < |steps|
    requires steps[j] == OfNode(CommitOffset(c)) && NoCommit(steps, j + 1, k)
    ensures steps[k] == OfNode(StartConsumer) ==> trace[k + 1].node.position == Some(c)
    ensures steps[k].OfNode? && steps[k].node.Deliver? ==>
              trace[k].node.position.Some? && c <= trace[k].node.position.value
  {
    CommitLasts(steps, j, k, c);
    CommittedIsLast(render, trace, steps, k);
    RunStep(render, trace, steps, k);
    if steps[k] == OfNode(StartConsumer) {
      StartResumes(render, trace, steps, k);
    }
    hide IsRun, Inv;
  }

  /** The furthest position the consumer has had in any session. */
  function Furthest(trace: seq<State>, i: nat): nat
    requires i < |trace|
  {
    var before := if i == 0 then 0 else Furthest(trace, i - 1);
    if trace[i].node.position.Some? && trace[i].node.position.value > before then trace[i].node.position.value else before
  }

  lemma {:induction false} DeliveredIsBehind(render: Renderer, trace: seq<State>, steps: seq<Step>, i: nat, o: nat)
    requires IsRun(render, trace, steps) && i < |trace| && Delivered(trace, steps, i, o)
    ensures o < Furthest(trace, i)
  {
    hide IsRun, Delivered, Skipped;
    DeliveredLater(render, trace, steps, i, o);
    LastStep(trace, steps, i, o);
    if Delivered(trace, steps, i - 1, o) {
      DeliveredIsBehind(render, trace, steps, i - 1, o);
    } else {
      DeliveryReaches(render, trace, steps, i - 1);
      ReachedIsBehind(trace, i);
    }
  }

  lemma {:induction false} ReachedIsBehind(trace: seq<State>, i: nat)
    requires i < |trace|
    ensures Reached(trace, i) <= Furthest(trace, i)
  {
    if trace[i].node.position.Some? || i == 0 {
    } else {
      ReachedIsBehind(trace, i - 1);
    }
  }

  lemma {:induction false} BehindWasPassed(render: Renderer, trace: seq<State>, steps: seq<Step>, i: nat, o: nat)
    requires IsRun(render, trace, steps) && i < |trace| && o < Furthest(trace, i)
    ensures Delivered(trace, steps, i, o) || Skipped(trace, steps, i, o)
  {
    hide Delivered, Skipped, Next, Enabled;
    if trace[i].node.position.Some? && o < trace[i].node.position.value {
      DeliveredOrSkipped(render, trace, steps, i, o);
    } else {
      BehindWasPassed(render, trace, steps, i - 1, o);
      LastStep(trace, steps, i, o);
    }
  }

  lemma {:induction false} FurthestInTopic(render: Renderer, trace: seq<State>, steps: seq<Step>, i: nat)
    requires IsRun(render, trace, steps) && i < |trace|
    ensures Furthest(trace, i) <= |trace[i].pub.log|
  {
    RunInvariant(render, trace, steps, i);
    if i == 0 {
    } else {
      FurthestInTopic(render, trace, steps, i - 1);
      StepAppends(render, trace[i - 1], steps[i - 1]);
      hide IsRun;
    }
  }

  /**
   Which records a start makes the consumer deliver again: exactly those from
   the last committed offset up to the furthest position so far, which is the
   last position unless an earlier session came further. Without a commit none.
   */
  lemma StartRedelivers(render: Renderer, trace: seq<State>, steps: seq<Step>, k: nat, o: nat)
    requires IsRun(render, trace, steps) && k < |steps| && steps[k] == OfNode(StartConsumer)
    ensures trace[k + 1].node.position.Some?
    ensures Delivered(trace, steps, k, o) && trace[k + 1].node.position.value <= o <==>
              match LastCommit(steps, k)
              case None => false
              case Some(c) => c <= o < Furthest(trace, k)
  {
    assert |trace| == |steps| + 1;
    hide IsRun, Delivered, Skipped, Furthest;
    StartResumes(render, trace, steps, k);
    CommittedIsLast(render, trace, steps, k);
    FurthestInTopic(render, trace, steps, k);
    if Delivered(trace, steps, k, o) {
      DeliveredIsBehind(render, trace, steps, k, o);
    } else if o < Furthest(trace, k) {
      BehindWasPassed(render, trace, steps, k, o);
      DeliveredOrSkipped(render, trace, steps, k, o);
    }
  }

  /** Some step from `a` up to `b` starts the consumer at or before `o`. */
  ghost predicate StartsBehind(steps: seq<Step>, a: nat, b: nat, o: nat)
    requires b <= |steps|
  {
    exists k :: a <= k < b && steps[k] == OfNode(StartConsumer) && LastCommit(steps, k).Some? && LastCommit(steps, k).value <= o
  }

  /** The topic has record `o`, and the consumer, if it runs, is past it. */
  predicate Past(s: State, o: nat) {
    o < |s.pub.log| && (s.node.position.Some? ==> o < s.node.position.value)
  }

  lemma PastStep(render: Renderer, s: State, step: Step, o: nat)
    requires Enabled(s, step) && NodeInv(s.pub.log, s.node)
    requires Past(s, o) || DeliversNext(s, step, o)
    requires step == OfNode(StartConsumer) ==> s.node.committed.None? || o < s.node.committed.value
    ensures Past(Next(render, s, step), o)
  {
    StepAppends(render, s, step);
    hide DbNext, PubNext;
  }

  lemma {:induction false} StaysPast(render: Renderer, trace: seq<State>, steps: seq<Step>, a: nat, i: nat, o: nat)
    requires IsRun(render, trace, steps) && a < i < |trace|
    requires DeliversNext(trace[a], steps[a], o)
    requires i <= |steps| && !StartsBehind(steps, a, i, o)
    ensures Past(trace[i], o)
    decreases i
  {
    hide IsRun, Inv, Next, Enabled, NodeInv, Past;
    RunStep(render, trace, steps, i - 1);
    CommittedIsLast(render, trace, steps, i - 1);
    if i == a + 1 {
    } else {
      assert !StartsBehind(steps, a, i - 1, o);
      StaysPast(render, trace, steps, a, i - 1, o);
    }
    PastStep(render, trace[i - 1], steps[i - 1], o);
  }

  /**
   A record is delivered twice only if in between the consumer started while
   the last commit was at or before it.
   */
  lemma RedeliveryNeedsRestart(render: Renderer, trace: seq<State>, steps: seq<Step>, a: nat, b: nat, o: nat)
    requires IsRun(render, trace, steps) && a < b < |steps|
    requires DeliversNext(trace[a], steps[a], o) && DeliversNext(trace[b], steps[b], o)
    ensures StartsBehind(steps, a, b, o)
  {
    if !StartsBehind(steps, a, b, o) {
      StaysPast(render, trace, steps, a, b, o);
    }
  }

  /** It happens: a device is created while the consumer is down for the first time. */
  lemma SkipExample(render: Renderer, u: Uuid) returns (trace: seq<State>, steps: seq<Step>)
    requires IsV4(u)
    ensures IsRun(render, trace, steps) && |trace| == 9
    ensures |trace[8].pub.log| == 1 && trace[8].node.position == Some(1) && Skipped(trace, steps, 8, 0)
  {
    trace, steps := [State(Db(map[], map[], {}, 0, [], []), Pub(map[], map[], []), Node([], None, None, 0))], [];
    hide IsRun, Resolve, Print, IsV4;
    trace, steps := Extend(render, trace, steps, OfNode(StartConsumer));
    trace, steps := Extend(render, trace, steps, OfNode(StopConsumer));
    trace, steps := Extend(render, trace, steps, OfDb(BeginCreate(0, "name", "kind", u)));
    trace, steps := Extend(render, trace, steps, OfDb(RunSave(0, Ran)));
    assert |trace[4].db.ops| == 1 && trace[4].pub.tasks[0] == Task(Committed, Work(None, 0));
    trace, steps := Extend(render, trace, steps, OfPub(Spawn(0)));
    trace, steps := Extend(render, trace, steps, OfPub(BuildPayload(0)));
    trace, steps := Extend(render, trace, steps, OfPub(Write(0, Attempt(true, Written))));
    assert |trace[7].pub.log| == 1;
    trace, steps := Extend(render, trace, steps, OfNode(StartConsumer));
    assert StartsBlind(trace, steps, 7);
    assert !Delivered(trace, steps, 7, 0);
  }
}
