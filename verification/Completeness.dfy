/**
 What the store holds when nothing goes wrong: in a run without crash, lost
 answer, ambiguous or abandoned write, failed save or consumer stop, the
 stored Kafka events are the accepted part of the topic since the consumer's
 start, in order and once each. When everything has been published and
 delivered, and the consumer started on the empty topic, they are as a multiset
 the committed operations whose messages are acceptable.
 */
module Completeness {
  import opened Text
  import opened Timestamps
  import opened Uuids
  import opened Devices
  import opened Bags
  import opened Requests
  import opened Events
  import opened Publishing
  import opened Pipeline

  /** Acknowledged, or without effect and to be tried again. */
  predicate CleanWrite(pub: Pub, i: nat, a: Attempt)
    requires i in pub.tasks
  {
    a.reply.Written? || (!a.appended && Judge(pub.tasks[i].work.attempts + 1, a.reply).Retry?)
  }

  /** A step in which no component fails. Writes that fail without effect may be retried. */
  predicate Clean(s: State, step: Step)
    requires Enabled(s, step)
  {
    match step
    case OfDb(d) =>
      (match d
       case Crash => false
       case RunSave(_, mode) => !mode.AnswerLost?
       case RunUpdate(_, mode) => !mode.AnswerLost?
       case RunDelete(_, mode) => !mode.AnswerLost?
       case _ => true)
    case OfPub(p) =>
      (match p
       case Panic(_) => false
       case Write(i, a) => CleanWrite(s.pub, i, a)
       case _ => true)
    case OfNode(n) =>
      match n
      case StopConsumer => false
      case Deliver(_, inserted) => inserted
      case _ => true
  }

  /**
   Every step is clean but a crash, a last statement whose answer is lost, a
   panic, a failed write that appended or is not retried, a stop of the
   consumer, and a failed insertion.
   */
  lemma OnlyFailuresAreUnclean(s: State, step: Step)
    requires Enabled(s, step)
    ensures !Clean(s, step) <==>
              || step == OfDb(Crash)
              || (step.OfDb? && (step.db.RunSave? || step.db.RunUpdate? || step.db.RunDelete?) && step.db.mode == AnswerLost)
              || (step.OfPub? && step.pub.Panic?)
              || (step.OfPub? && step.pub.Write? && step.pub.attempt.reply.WriteFailed?
                  && (step.pub.attempt.appended
                      || s.pub.tasks[step.pub.i].work.attempts >= 2 || !Transient(step.pub.attempt.reply.text)))
              || step == OfNode(StopConsumer)
              || (step.OfNode? && step.node.Deliver? && !step.node.inserted)
  {
    if step.OfPub? && step.pub.Write? && step.pub.attempt.reply.WriteFailed? {
      RetriableIsTransient(step.pub.attempt.reply.text);
    }
    hide Transient, IsRetriable;
  }

  // ---------- Sequences read off a state ----------

  /** The messages behind the Kafka-sourced events, in store order. */
  function KafkaContents(events: seq<Stored>): seq<Message> {
    if events == [] then []
    else
      var last := events[|events| - 1];
      KafkaContents(events[..|events| - 1]) + (if last.source.FromKafka? then [Content(last.event)] else [])
  }

  function MessageOf(e: Entry): Message { e.message }

  function MessagesOf(log: seq<Entry>): seq<Message> {
    Map(log, MessageOf)
  }

  function IndexOf(e: Entry): nat { e.op }

  /** 0, 1, ..., n - 1. */
  function Range(n: nat): (r: seq<nat>)
    ensures |r| == n && forall i :: 0 <= i < n ==> r[i] == i
  {
    seq(n, i => i)
  }

  /** The payload time of an operation, once it has one. */
  function TimeOf(pub: Pub, i: nat): Instant {
    var at := WorkOf(pub, i).at;
    if at.Some? then at.value else 0
  }

  function OpMessage(render: Renderer, s: State): nat -> Message {
    (i: nat) => if i < |s.db.ops| then MessageFor(render, s.db.ops[i], TimeOf(s.pub, i)) else Message("", "", "", "")
  }

  /** The messages of all committed operations, in commit order. */
  function OpMessages(render: Renderer, s: State): seq<Message> {
    Map(Range(|s.db.ops|), OpMessage(render, s))
  }

  // ---------- Invariant of clean runs ----------

  /** Everything that ended was acknowledged, and stands in the topic exactly once. */
  predicate PublishedOnce(n: nat, pub: Pub) {
    && (forall i :: i in pub.ended ==> pub.ended[i].fate.Published?)
    && (forall i :: 0 <= i < n ==> CopiesOf(pub.log, i) == if i in pub.ended then 1 else 0)
  }

  /**
   The store holds what the consumer has accepted since its start, in topic
   order; before its start nothing is stored and nothing committed.
   */
  predicate StoredInOrder(log: seq<Entry>, node: Node) {
    match node.position
    case None => node.committed.None? && KafkaContents(node.events) == []
    case Some(p) =>
      node.started <= p <= |log| && KafkaContents(node.events) == Filter(MessagesOf(log[node.started..p]), Accepted)
  }

  ghost predicate CleanInv(render: Renderer, s: State) {
    Inv(render, s) && PublishedOnce(|s.db.ops|, s.pub) && StoredInOrder(s.pub.log, s.node)
  }

  lemma ContentsAppend(events: seq<Stored>, e: Stored)
    ensures KafkaContents(events + [e])
         == KafkaContents(events) + (if e.source.FromKafka? then [Content(e.event)] else [])
  {
    assert (events + [e])[..|events|] == events;
  }

  lemma MessagesAppend(log: seq<Entry>, first: nat, p: nat)
    requires first <= p < |log|
    ensures Filter(MessagesOf(log[first..p + 1]), Accepted)
         == Filter(MessagesOf(log[first..p]), Accepted) + (if Accepted(log[p].message) then [log[p].message] else [])
  {
    assert log[first..p + 1] == log[first..p] + [log[p]];
    MapConcat(log[first..p], [log[p]], MessageOf);
    assert MessagesOf(log[first..p + 1]) == MessagesOf(log[first..p]) + [log[p].message];
    FilterAppend(MessagesOf(log[first..p]), log[p].message, Accepted);
  }

  lemma CleanNodeStep(log: seq<Entry>, node: Node, step: NodeStep)
    requires StoredInOrder(log, node) && NodeEnabled(log, node, step)
    requires !step.StopConsumer? && (step.Deliver? ==> step.inserted)
    ensures StoredInOrder(log, NodeNext(log, node, step))
  {
    match step {
      case StartConsumer => assert log[|log|..|log|] == [];
      case Deliver(id, _) =>
        var p := node.position.value;
        MessagesAppend(log, node.started, p);
        var e := Stored(EventOf(log[p].message, id), FromKafka(p));
        ContentsAppend(node.events, e);
        assert Content(e.event) == log[p].message && node.events + [] == node.events;
      case Post(e) => ContentsAppend(node.events, Stored(e, FromHttp));
      case _ =>
    }
  }

  /** A clean write either appends and ends its publish, or changes nothing but the attempt count. */
  lemma CleanPubStep(render: Renderer, ops: seq<Op>, now: Instant, pub: Pub, step: PubStep)
    requires PubInv(render, ops, now, pub) && PubEnabled(ops, now, pub, step) && PublishedOnce(|ops|, pub)
    requires !step.Panic?
    requires step.Write? ==> CleanWrite(pub, step.i, step.attempt)
    ensures PublishedOnce(|ops|, PubNext(render, ops, now, pub, step))
  {
    var pub' := PubNext(render, ops, now, pub, step);
    match step {
      case Write(i, a) =>
        var at := pub.tasks[i].work.at.value;
        var e := Entry(i, at, MessageFor(render, ops[i], at));
        assert !a.appended ==> pub'.log == pub.log;
        forall j | 0 <= j < |ops| ensures CopiesOf(pub'.log, j) == if j in pub'.ended then 1 else 0 {
          CopiesAppend(pub.log, e, j);
        }
      case _ =>
    }
  }

  lemma CleanCommit(render: Renderer, ops: seq<Op>, now: Instant, pub: Pub)
    requires PubInv(render, ops, now, pub) && PublishedOnce(|ops|, pub)
    ensures PublishedOnce(|ops| + 1, PubCommit(pub, |ops|, true))
  {
    forall k | 0 <= k < |pub.log| ensures pub.log[k].op != |ops| {
      assert EntryOk(render, ops, pub, pub.log[k]);
    }
    NoCopies(pub.log, |ops|);
  }

  /** An operation committed by a clean step is answered. */
  lemma CleanCommitAnswered(s: State, d: DbStep)
    requires Enabled(s, OfDb(d)) && Clean(s, OfDb(d)) && |DbNext(s.db, d).ops| > |s.db.ops|
    ensures Answered(d) && |DbNext(s.db, d).ops| == |s.db.ops| + 1
  {
  }

  lemma StoreKeepsOrder(log: seq<Entry>, longer: seq<Entry>, node: Node)
    requires StoredInOrder(log, node) && log <= longer
    ensures StoredInOrder(longer, node)
  {
    if node.position.Some? {
      assert longer[node.started..node.position.value] == log[node.started..node.position.value];
    }
  }

  lemma CleanDbStep(render: Renderer, s: State, d: DbStep)
    requires CleanInv(render, s) && Enabled(s, OfDb(d)) && Clean(s, OfDb(d))
    ensures var s' := OfDbNext(s, d);
            PublishedOnce(|s'.db.ops|, s'.pub) && s'.pub.log == s.pub.log && s'.node == s.node
  {
    DbProgress(s.db, d);
    if |DbNext(s.db, d).ops| > |s.db.ops| {
      CleanCommitAnswered(s, d);
      CleanCommit(render, s.db.ops, s.db.now, s.pub);
    }
  }

  lemma CleanStepKeeps(render: Renderer, s: State, step: Step)
    requires CleanInv(render, s) && Enabled(s, step) && Clean(s, step)
    ensures CleanInv(render, Next(render, s, step))
  {
    StepKeeps(render, s, step);
    hide DbInv, PubInv, NodeInv, DbNext, NodeNext, StoredInOrder, PublishedOnce;
    match step {
      case OfDb(d) => CleanDbStep(render, s, d);
      case OfPub(p) => CleanPubMoves(render, s, p);
      case OfNode(n) => CleanNodeStep(s.pub.log, s.node, n);
    }
  }

  lemma CleanPubMoves(render: Renderer, s: State, p: PubStep)
    requires CleanInv(render, s) && Enabled(s, OfPub(p)) && Clean(s, OfPub(p))
    ensures var pub := PubNext(render, s.db.ops, s.db.now, s.pub, p);
            PublishedOnce(|s.db.ops|, pub) && StoredInOrder(pub.log, s.node)
  {
    CleanPubStep(render, s.db.ops, s.db.now, s.pub, p);
    LogOnlyGrows(render, s.db.ops, s.db.now, s.pub, p);
    StoreKeepsOrder(s.pub.log, PubNext(render, s.db.ops, s.db.now, s.pub, p).log, s.node);
  }

  /** A run in which no component fails. */
  ghost predicate IsCleanRun(render: Renderer, trace: seq<State>, steps: seq<Step>) {
    IsRun(render, trace, steps) && forall i :: 0 <= i < |steps| ==> Clean(trace[i], steps[i])
  }

  lemma {:induction false} CleanRunInvariant(render: Renderer, trace: seq<State>, steps: seq<Step>, i: nat)
    requires IsCleanRun(render, trace, steps) && i < |trace|
    ensures CleanInv(render, trace[i])
  {
    if i == 0 {
      RunInvariant(render, trace, steps, 0);
    } else {
      CleanRunInvariant(render, trace, steps, i - 1);
      CleanStepKeeps(render, trace[i - 1], steps[i - 1]);
    }
  }

  /** The one session of a clean run reads from the end the topic had at its start. */
  lemma {:induction false} StartsAtTheEnd(render: Renderer, trace: seq<State>, steps: seq<Step>, b: nat, i: nat)
    requires IsCleanRun(render, trace, steps) && b < i < |trace| && steps[b] == OfNode(StartConsumer)
    ensures trace[i].node.position.Some? && trace[i].node.started == |trace[b].pub.log|
    decreases i
  {
    assert trace[i] == Next(render, trace[i - 1], steps[i - 1]) && Clean(trace[i - 1], steps[i - 1]);
    if i == b + 1 {
      CleanRunInvariant(render, trace, steps, b);
    } else {
      StartsAtTheEnd(render, trace, steps, b, i - 1);
    }
  }

  // ---------- When everything has arrived ----------

  /** All publishing has ended and the consumer stands at the end of the topic. */
  predicate CaughtUp(s: State) {
    s.pub.tasks == map[] && s.node.position == Some(|s.pub.log|)
  }

  lemma {:induction false} NumberedOnce(a: seq<nat>, n: nat)
    requires |a| == n && forall i: nat :: i < n ==> i in a
    ensures multiset(a) == multiset(Range(n))
  {
    if n == 0 {
    } else {
      assert n - 1 in a;
      var k :| 0 <= k < n && a[k] == n - 1;
      var rest := a[..k] + a[k + 1..];
      RemoveAt(a, k);
      forall i: nat | i < n - 1 ensures i in rest {
        assert i in a;
        var j :| 0 <= j < n && a[j] == i;
        assert if j < k then rest[j] == i else rest[j - 1] == i;
      }
      NumberedOnce(rest, n - 1);
      assert Range(n) == Range(n - 1) + [n - 1];
    }
  }

  /** If every number below `n` occurs exactly once among the log's operations, the log has `n` records. */
  lemma {:induction false} LogLength(log: seq<Entry>, n: nat, seen: set<nat>)
    requires forall k :: 0 <= k < |log| ==> log[k].op in seen
    requires forall i :: i in seen ==> i < n && CopiesOf(log, i) == 1
    ensures |log| == |seen|
  {
    if log == [] {
      assert forall i :: i in seen ==> CopiesOf(log, i) == 0;
      assert seen == {};
    } else {
      var init, last := log[..|log| - 1], log[|log| - 1].op;
      forall k | 0 <= k < |init| ensures init[k].op in seen - {last} {
        if init[k].op == last { CopyCounted(init, k); }
      }
      LogLength(init, n, seen - {last});
    }
  }

  lemma FirstNumbers(n: nat) returns (all: set<nat>)
    ensures |all| == n && forall i: nat :: i in all <==> i < n
  {
    all := set i | i in Range(n);
    forall i: nat ensures i in all <==> i < n {
      if i < n { assert Range(n)[i] == i; }
    }
    Below(n, all);
  }

  lemma EveryIndexOccurs(log: seq<Entry>, n: nat)
    requires forall i :: 0 <= i < n ==> CopiesOf(log, i) == 1
    ensures forall i: nat :: i < n ==> i in Map(log, IndexOf)
  {
    forall i: nat | i < n ensures i in Map(log, IndexOf) {
      CopyExists(log, i);
      var k :| 0 <= k < |log| && log[k].op == i;
      assert Map(log, IndexOf)[k] == i;
    }
  }

  lemma IndicesOnce(log: seq<Entry>, n: nat)
    requires forall k :: 0 <= k < |log| ==> log[k].op < n
    requires forall i :: 0 <= i < n ==> CopiesOf(log, i) == 1
    ensures multiset(Map(log, IndexOf)) == multiset(Range(n))
  {
    var indices := Map(log, IndexOf);
    var all := FirstNumbers(n);
    LogLength(log, n, all);
    EveryIndexOccurs(log, n);
    NumberedOnce(indices, n);
  }

  /** When all tasks of a clean run have ended, the topic is a permutation of the operations' messages. */
  lemma TopicIsOperations(render: Renderer, s: State)
    requires CleanInv(render, s) && s.pub.tasks == map[]
    ensures multiset(MessagesOf(s.pub.log)) == multiset(OpMessages(render, s))
  {
    var n, log, f := |s.db.ops|, s.pub.log, OpMessage(render, s);
    EntriesAreOperations(render, s);
    forall i | 0 <= i < n ensures CopiesOf(log, i) == 1 {
      assert i in s.pub.ended;
    }
    IndicesOnce(log, n);
    MapPermutation(Map(log, IndexOf), Range(n), f);
  }

  /** Every record of the topic is the message of the operation it names. */
  lemma EntriesAreOperations(render: Renderer, s: State)
    requires PubInv(render, s.db.ops, s.db.now, s.pub)
    ensures forall k :: 0 <= k < |s.pub.log| ==> s.pub.log[k].op < |s.db.ops|
    ensures MessagesOf(s.pub.log) == Map(Map(s.pub.log, IndexOf), OpMessage(render, s))
  {
    var log, f := s.pub.log, OpMessage(render, s);
    forall k | 0 <= k < |log| ensures log[k].op < |s.db.ops| && log[k].message == f(log[k].op) {
      assert EntryOk(render, s.db.ops, s.pub, log[k]);
    }
  }

  /**
   Catch-up completeness: the store holds, in topic order and once each, the
   accepted messages published since the consumer's start. If it started on the
   empty topic these are the committed operations whose messages are accepted.
   */
  lemma CatchUp(render: Renderer, trace: seq<State>, steps: seq<Step>, b: nat, i: nat)
    requires IsCleanRun(render, trace, steps) && b < i < |trace| && CaughtUp(trace[i])
    requires steps[b] == OfNode(StartConsumer)
    ensures |trace[b].pub.log| <= |trace[i].pub.log|
    ensures KafkaContents(trace[i].node.events)
         == Filter(MessagesOf(trace[i].pub.log[|trace[b].pub.log|..]), Accepted)
    ensures trace[b].pub.log == [] ==>
              multiset(KafkaContents(trace[i].node.events)) == multiset(Filter(OpMessages(render, trace[i]), Accepted))
  {
    CleanRunInvariant(render, trace, steps, i);
    StartsAtTheEnd(render, trace, steps, b, i);
    var s, first := trace[i], |trace[b].pub.log|;
    assert s.pub.log[first..|s.pub.log|] == s.pub.log[first..];
    if first == 0 {
      TopicIsOperations(render, s);
      assert s.pub.log[0..] == s.pub.log;
      FilterPermutation(MessagesOf(s.pub.log), OpMessages(render, s), Accepted);
    }
  }

  /** The operation's event is acceptable: visible name, and the id in its own spelling up to case. */
  predicate Deliverable(op: Op) {
    !Blank(op.name) && Lower(op.deviceId) == Print(op.row.id)
  }

  lemma {:induction false} FilterAll(s: seq<Message>, p: Message -> bool)
    requires forall i :: 0 <= i < |s| ==> p(s[i])
    ensures Filter(s, p) == s
  {
    if s == [] {
    } else {
      FilterAll(s[..|s| - 1], p);
    }
  }

  /** If filtering loses nothing, everything passes the filter. */
  lemma NothingFiltered(s: seq<Message>, p: Message -> bool, k: nat)
    requires multiset(Filter(s, p)) == multiset(s) && k < |s|
    ensures p(s[k])
  {
    FilterCount(s, p, s[k]);
    assert s[k] in multiset(s);
  }

  lemma {:induction false} FilterShortens(s: seq<Message>, p: Message -> bool)
    ensures |Filter(s, p)| <= |s|
  {
    if s == [] {
    } else {
      FilterShortens(s[..|s| - 1], p);
    }
  }

  /** A consumer that started late has fewer events than there are operations. */
  lemma LateStartLoses(render: Renderer, trace: seq<State>, steps: seq<Step>, b: nat, i: nat)
    requires IsCleanRun(render, trace, steps) && b < i < |trace| && CaughtUp(trace[i])
    requires steps[b] == OfNode(StartConsumer) && trace[b].pub.log != []
    ensures multiset(KafkaContents(trace[i].node.events)) != multiset(OpMessages(render, trace[i]))
  {
    CatchUp(render, trace, steps, b, i);
    CleanRunInvariant(render, trace, steps, i);
    TopicIsOperations(render, trace[i]);
    var log, stored := trace[i].pub.log, KafkaContents(trace[i].node.events);
    FilterShortens(MessagesOf(log[|trace[b].pub.log|..]), Accepted);
    assert |stored| < |MessagesOf(log)|;
    assert |multiset(stored)| == |stored| && |multiset(MessagesOf(log))| == |MessagesOf(log)|;
  }

  /**
   The store holds the whole history if and only if the consumer started on
   the empty topic and every committed operation is deliverable.
   */
  lemma CatchUpLosesNothing(trace: seq<State>, steps: seq<Step>, b: nat, i: nat)
    requires IsCleanRun(FormatInstant, trace, steps) && b < i < |trace| && CaughtUp(trace[i])
    requires steps[b] == OfNode(StartConsumer) && FourDigitYear(trace[i].db.now)
    ensures multiset(KafkaContents(trace[i].node.events)) == multiset(OpMessages(FormatInstant, trace[i]))
       <==> trace[b].pub.log == [] && forall k :: 0 <= k < |trace[i].db.ops| ==> Deliverable(trace[i].db.ops[k])
  {
    CatchUp(FormatInstant, trace, steps, b, i);
    CleanRunInvariant(FormatInstant, trace, steps, i);
    var s, all := trace[i], OpMessages(FormatInstant, trace[i]);
    forall k | 0 <= k < |all| ensures Accepted(all[k]) <==> Deliverable(s.db.ops[k]) {
      OpAccepted(s, k);
    }
    if trace[b].pub.log != [] {
      LateStartLoses(FormatInstant, trace, steps, b, i);
    } else if forall k :: 0 <= k < |s.db.ops| ==> Deliverable(s.db.ops[k]) {
      FilterAll(all, Accepted);
    } else if multiset(Filter(all, Accepted)) == multiset(all) {
      forall k | 0 <= k < |all| ensures Accepted(all[k]) {
        NothingFiltered(all, Accepted, k);
      }
    }
  }

  lemma OpAccepted(s: State, k: nat)
    requires CleanInv(FormatInstant, s) && s.pub.tasks == map[] && FourDigitYear(s.db.now)
    requires k < |s.db.ops|
    ensures Accepted(OpMessage(FormatInstant, s)(k)) <==> Deliverable(s.db.ops[k])
  {
    var op := s.db.ops[k];
    assert OpOk(s.db, k) && WorkOk(s.db.ops, s.db.now, s.pub, k);
    var at := TimeOf(s.pub, k);
    FourDigitYearBefore(at, s.db.now);
    UtcOfInverse(at);
    ProducerConsumerContract(op.kind, op.row.id, op.deviceId, op.name, UtcOf(at));
  }

  lemma ExtendClean(render: Renderer, trace: seq<State>, steps: seq<Step>, step: Step)
    returns (longer: seq<State>, more: seq<Step>)
    requires IsCleanRun(render, trace, steps) && Enabled(trace[|steps|], step) && Clean(trace[|steps|], step)
    ensures IsCleanRun(render, longer, more) && |longer| == |more| + 1 && |more| == |steps| + 1
    ensures trace <= longer && more == steps + [step] && longer[|more|] == Next(render, trace[|steps|], step)
  {
    longer, more := Extend(render, trace, steps, step);
  }

  /** The consumer starts and a device is created. */
  lemma SavedCleanly(render: Renderer, u: Uuid) returns (trace: seq<State>, steps: seq<Step>)
    requires IsV4(u)
    ensures IsCleanRun(render, trace, steps) && |steps| == 3 && steps[0] == OfNode(StartConsumer)
    ensures var s := trace[3];
            && s.db.ops == [Op(Created, Device(u, "name", "kind", 0), Print(u), "name", 0)] && s.db.now == 0
            && s.pub == Pub(map[0 := Task(Committed, Work(None, 0))], map[], []) && s.node == Node([], Some(0), None, 0)
  {
    trace, steps := [State(Db(map[], map[], {}, 0, [], []), Pub(map[], map[], []), Node([], None, None, 0))], [];
    assert IsCleanRun(render, trace, steps);
    hide IsCleanRun, Resolve, Print, IsV4;
    trace, steps := ExtendClean(render, trace, steps, OfNode(StartConsumer));
    trace, steps := ExtendClean(render, trace, steps, OfDb(BeginCreate(0, "name", "kind", u)));
    trace, steps := ExtendClean(render, trace, steps, OfDb(RunSave(0, Ran)));
  }

  /** Its creation is published. */
  lemma PublishedCleanly(render: Renderer, u: Uuid) returns (trace: seq<State>, steps: seq<Step>)
    requires IsV4(u)
    ensures IsCleanRun(render, trace, steps) && |steps| == 6 && steps[0] == OfNode(StartConsumer)
    ensures var s := trace[6];
            && |s.db.ops| == 1 && s.pub.tasks == map[] && s.node == Node([], Some(0), None, 0)
            && s.pub.log == [Entry(0, 0, Message("device.created", Print(u), "name", render(0)))]
  {
    trace, steps := SavedCleanly(render, u);
    hide IsCleanRun, Print, IsV4;
    trace, steps := ExtendClean(render, trace, steps, OfPub(Spawn(0)));
    trace, steps := ExtendClean(render, trace, steps, OfPub(BuildPayload(0)));
    trace, steps := ExtendClean(render, trace, steps, OfPub(Write(0, Attempt(true, Written))));
  }

  /** A clean run that catches up: the event is delivered and stored. */
  lemma CatchUpExample(render: Renderer, u: Uuid) returns (trace: seq<State>, steps: seq<Step>)
    requires IsV4(u) && render(0) != ""
    ensures IsCleanRun(render, trace, steps) && |steps| == 7 && steps[0] == OfNode(StartConsumer)
    ensures CaughtUp(trace[7]) && |trace[7].db.ops| == 1
    ensures KafkaContents(trace[7].node.events) == [Message("device.created", Print(u), "name", render(0))]
  {
    PrintedMatchesIffV4(u);
    assert !Blank("name") by { assert !IsSpace("name"[0]); }
    trace, steps := PublishedCleanly(render, u);
    hide IsCleanRun, Print, IsV4, MatchesV4, Blank;
    var m := Message("device.created", Print(u), "name", render(0));
    trace, steps := ExtendClean(render, trace, steps, OfNode(Deliver("id", true)));
    assert trace[7].node.events == [] + [Stored(EventOf(m, "id"), FromKafka(0))];
    ContentsAppend([], Stored(EventOf(m, "id"), FromKafka(0)));
  }
}
