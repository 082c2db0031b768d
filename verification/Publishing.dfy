/**
 The detached publishing of committed operations: the retry loop of the Kafka
 publisher, and the life of all publishing tasks together with the topic they
 write to.
 */
module Publishing {
  import opened Text
  import opened Timestamps
  import opened Uuids
  import opened Devices
  import opened Requests
  import opened Events

  // ---------- One publish call ----------

  datatype WriteReply = Written | WriteFailed(text: string)

  /** One `WriteMessages`: what reached the topic, and what the caller was told. */
  datatype Attempt = Attempt(appended: bool, reply: WriteReply)

  /** The broker acknowledges only what it has appended; an error says nothing. */
  predicate Honest(a: Attempt) {
    a.reply.Written? ==> a.appended
  }

  /** `isRetriable`: transient errors are recognised by their text. */
  predicate IsRetriable(text: string) {
    || Contains(text, "Unknown Topic Or Partition")
    || Contains(text, "Leader Not Available")
    || Contains(text, "Not Leader")
    || Contains(text, "timed out")
    || Contains(text, "network")
  }

  /** The transient errors, by what their text says somewhere. */
  ghost predicate Transient(text: string) {
    exists left, phrase, right :: text == left + phrase + right
      && phrase in {"Unknown Topic Or Partition", "Leader Not Available", "Not Leader", "timed out", "network"}
  }

  lemma RetriableIsTransient(text: string)
    ensures IsRetriable(text) <==> Transient(text)
  {
    var phrases := {"Unknown Topic Or Partition", "Leader Not Available", "Not Leader", "timed out", "network"};
    forall phrase | phrase in phrases
      ensures Contains(text, phrase) <==> exists left, right :: text == left + phrase + right
    {
      ContainsIff(text, phrase);
    }
    if IsRetriable(text) {
      var phrase :| phrase in phrases && Contains(text, phrase);
    }
  }

  const MAX_RETRIES := 3

  datatype Verdict = Succeeded | Abandon | Retry

  /** What the loop does after its `attempts`-th write got `reply`. */
  function Judge(attempts: nat, reply: WriteReply): Verdict {
    match reply
    case Written => Succeeded
    case WriteFailed(text) => if IsRetriable(text) && attempts < MAX_RETRIES then Retry else Abandon
  }

  function Appended(choices: seq<Attempt>, n: nat): nat
    requires n <= |choices|
  {
    if n == 0 then 0 else Appended(choices, n - 1) + (if choices[n - 1].appended then 1 else 0)
  }

  function Copies(m: Message, n: nat): (s: seq<Message>)
    ensures |s| == n && forall i :: 0 <= i < n ==> s[i] == m
  {
    seq(n, _ => m)
  }

  class KafkaEventPublisher {
    /** The topic, as far as this publisher's own messages go. */
    var topic: seq<Message>

    constructor ()
      ensures topic == []
    {
      topic := [];
    }

    method WriteMessages(m: Message, a: Attempt) returns (reply: WriteReply)
      modifies this
      ensures topic == old(topic) + Copies(m, if a.appended then 1 else 0) && reply == a.reply
    {
      if a.appended {
        topic := topic + [m];
      }
      return a.reply;
    }

    /**
     `publish`: a failed write is followed by another one if its error is
     transient and it was not the third; any other ends the loop with an error,
     and the first acknowledged one ends it with nil.
     */
    method Publish(kind: EventKind, deviceId: string, name: string, at: UtcTime, choices: seq<Attempt>)
      returns (isNil: bool, attempts: nat)
      requires ValidTime(at) && |choices| >= MAX_RETRIES
      requires forall i :: 0 <= i < |choices| ==> Honest(choices[i])
      modifies this
      ensures 1 <= attempts <= 3 && (isNil <==> choices[attempts - 1].reply.Written?)
      ensures forall i :: 0 <= i < attempts - 1 ==> choices[i].reply.WriteFailed? && Transient(choices[i].reply.text)
      ensures choices[attempts - 1].reply.WriteFailed? && Transient(choices[attempts - 1].reply.text) ==> attempts == 3
      ensures forall i :: 0 <= i < attempts - 1 ==> Judge(i + 1, choices[i].reply) == Retry
      ensures Judge(attempts, choices[attempts - 1].reply) == if isNil then Succeeded else Abandon
      ensures topic == old(topic) + Copies(BuildMessage(kind, deviceId, name, FormatNano(at)), Appended(choices, attempts))
      ensures Appended(choices, attempts) <= 3
      ensures isNil ==> Appended(choices, attempts) >= 1
    {
      hide Transient, IsRetriable, FormatNano;
      var message := BuildMessage(kind, deviceId, name, FormatNano(at));
      for i := 0 to MAX_RETRIES
        invariant topic == old(topic) + Copies(message, Appended(choices, i))
        invariant Appended(choices, i) <= i
        invariant forall j :: 0 <= j < i ==> choices[j].reply.WriteFailed? && Transient(choices[j].reply.text)
        invariant forall j :: 0 <= j < i && j + 1 < MAX_RETRIES ==> Judge(j + 1, choices[j].reply) == Retry
        invariant i == MAX_RETRIES ==> Judge(i, choices[i - 1].reply) == Abandon
      {
        var reply := WriteMessages(message, choices[i]);
        assert topic == old(topic) + Copies(message, Appended(choices, i + 1));
        if reply.WriteFailed? {
          var retriable := IsRetriable(reply.text);
          RetriableIsTransient(reply.text);
          if retriable {
            continue;
          }
          return false, i + 1;
        }
        return true, i + 1;
      }
      return false, MAX_RETRIES;
    }
  }

  /**
   The verdict on the `attempts`-th write: an acknowledged one succeeds, and a
   failed one is retried if it is the first or second and its text says one of
   the five phrases; every other failure ends the publish.
   */
  lemma RetryRule(attempts: nat, text: string)
    ensures Judge(attempts, Written) == Succeeded
    ensures forall left, phrase, right :: text == left + phrase + right
              && phrase in {"Unknown Topic Or Partition", "Leader Not Available", "Not Leader", "timed out", "network"}
              ==> Judge(attempts, WriteFailed(text)) == if attempts < 3 then Retry else Abandon
    ensures (forall left, phrase, right ::
               phrase in {"Unknown Topic Or Partition", "Leader Not Available", "Not Leader", "timed out", "network"}
               ==> text != left + phrase + right)
              ==> Judge(attempts, WriteFailed(text)) == Abandon
  {
    RetriableIsTransient(text);
  }

  // ---------- All publishing tasks and the topic ----------

  /** The timestamp of the payload, once it is built, and the writes made so far. */
  datatype Work = Work(at: Option<Instant>, attempts: nat)

  /** Before its `go` statement, started, or in the write loop. */
  datatype Stage = Committed | Spawned | Writing

  datatype Task = Task(stage: Stage, work: Work)

  /** A task ends acknowledged, failed and logged, or lost with its process or caller. */
  datatype Fate = Published | GaveUp | Vanished

  datatype Ending = Ending(fate: Fate, work: Work)

  /** A record of the topic, and the operation it stems from. */
  datatype Entry = Entry(op: nat, at: Instant, message: Message)

  /** Tasks and endings are named by the position of their operation. */
  datatype Pub = Pub(tasks: map<nat, Task>, ended: map<nat, Ending>, log: seq<Entry>)

  datatype PubStep =
    | Spawn(i: nat)
    | BuildPayload(i: nat)
    | Write(i: nat, attempt: Attempt)
    | Panic(i: nat)

  /** How instants are rendered; nothing about the pipeline depends on it. */
  type Renderer = Instant -> string

  function MessageFor(render: Renderer, op: Op, at: Instant): Message {
    BuildMessage(op.kind, op.deviceId, op.name, render(at))
  }

  /** A task takes its own next step; the payload's time comes from the device or from the clock. */
  predicate PubEnabled(ops: seq<Op>, now: Instant, pub: Pub, step: PubStep) {
    && step.i in pub.tasks && step.i < |ops|
    && match step
       case Spawn(i) => pub.tasks[i].stage.Committed?
       case BuildPayload(i) => pub.tasks[i].stage.Spawned?
       case Write(i, a) => pub.tasks[i].stage.Writing? && pub.tasks[i].work.at.Some? && Honest(a)
       case Panic(i) => !pub.tasks[i].stage.Committed?
  }

  /** `device.CreatedAt` for a creation, `time.Now().UTC()` otherwise. */
  function PayloadTime(op: Op, now: Instant): Instant {
    if op.kind.Created? then op.row.createdAt else now
  }

  function Finish(pub: Pub, i: nat, fate: Fate, work: Work): Pub {
    pub.(tasks := pub.tasks - {i}, ended := pub.ended[i := Ending(fate, work)])
  }

  /** Task `i` has made one more write, and the loop has judged it. */
  function AfterWrite(render: Renderer, ops: seq<Op>, pub: Pub, i: nat, appended: bool, verdict: Verdict): Pub
    requires i in pub.tasks && i < |ops| && pub.tasks[i].work.at.Some?
  {
    var at, attempts := pub.tasks[i].work.at.value, pub.tasks[i].work.attempts + 1;
    var log := pub.log + if appended then [Entry(i, at, MessageFor(render, ops[i], at))] else [];
    var work := Work(Some(at), attempts);
    match verdict
    case Succeeded => Finish(pub, i, Published, work).(log := log)
    case Abandon => Finish(pub, i, GaveUp, work).(log := log)
    case Retry => pub.(tasks := pub.tasks[i := Task(Writing, work)], log := log)
  }

  function PubNext(render: Renderer, ops: seq<Op>, now: Instant, pub: Pub, step: PubStep): Pub
    requires PubEnabled(ops, now, pub, step)
  {
    match step
    case Spawn(i) => pub.(tasks := pub.tasks[i := Task(Spawned, pub.tasks[i].work)])
    case BuildPayload(i) => pub.(tasks := pub.tasks[i := Task(Writing, Work(Some(PayloadTime(ops[i], now)), 0))])
    case Write(i, a) => AfterWrite(render, ops, pub, i, a.appended, Judge(pub.tasks[i].work.attempts + 1, a.reply))
    case Panic(i) => Finish(pub, i, GaveUp, pub.tasks[i].work)
  }

  /** The operation just committed gets a task, unless its caller was told of a failure. */
  function PubCommit(pub: Pub, i: nat, answered: bool): Pub {
    if answered then pub.(tasks := pub.tasks[i := Task(Committed, Work(None, 0))])
    else pub.(ended := pub.ended[i := Ending(Vanished, Work(None, 0))])
  }

  /** All tasks die with the Go process. */
  function PubCrash(pub: Pub): Pub {
    pub.(tasks := map[], ended := pub.ended + map i | i in pub.tasks :: Ending(Vanished, pub.tasks[i].work))
  }

  // ---------- Invariant ----------

  function CopiesOf(log: seq<Entry>, i: nat): nat {
    if log == [] then 0
    else CopiesOf(log[..|log| - 1], i) + (if log[|log| - 1].op == i then 1 else 0)
  }

  function WorkOf(pub: Pub, i: nat): Work {
    if i in pub.tasks then pub.tasks[i].work
    else if i in pub.ended then pub.ended[i].work
    else Work(None, 0)
  }

  /** Every operation has either a task or an ending, and nothing else has. */
  ghost predicate Accounted(n: nat, pub: Pub) {
    forall i: nat :: (i in pub.tasks || i in pub.ended <==> i < n) && !(i in pub.tasks && i in pub.ended)
  }

  /** The payload time of an operation is its creation time or a later reading of the clock. */
  predicate TimeOk(op: Op, now: Instant, at: Instant) {
    && op.row.createdAt <= at <= now
    && (op.kind.Created? ==> at == op.row.createdAt)
  }

  predicate WorkOk(ops: seq<Op>, now: Instant, pub: Pub, i: nat)
    requires i < |ops|
  {
    var w := WorkOf(pub, i);
    && CopiesOf(pub.log, i) <= w.attempts <= MAX_RETRIES
    && (w.at.Some? ==> TimeOk(ops[i], now, w.at.value))
    && (w.at.None? ==> w.attempts == 0)
    && (i in pub.tasks ==> (pub.tasks[i].stage.Writing? <==> w.at.Some?) && w.attempts < MAX_RETRIES)
    && (i in pub.ended && pub.ended[i].fate.Published? ==> CopiesOf(pub.log, i) >= 1)
  }

  /** A record of the topic is the message of its operation, at that operation's one payload time. */
  predicate EntryOk(render: Renderer, ops: seq<Op>, pub: Pub, e: Entry) {
    && e.op < |ops|
    && e.message == MessageFor(render, ops[e.op], e.at)
    && WorkOf(pub, e.op).at == Some(e.at)
  }

  ghost predicate PubInv(render: Renderer, ops: seq<Op>, now: Instant, pub: Pub) {
    && Accounted(|ops|, pub)
    && (forall i :: 0 <= i < |ops| ==> WorkOk(ops, now, pub, i))
    && (forall k :: 0 <= k < |pub.log| ==> EntryOk(render, ops, pub, pub.log[k]))
  }

  /** No operation is from the future. */
  predicate OpsPast(ops: seq<Op>, now: Instant) {
    forall i :: 0 <= i < |ops| ==> ops[i].row.createdAt <= now
  }

  lemma CopiesAppend(log: seq<Entry>, e: Entry, i: nat)
    ensures CopiesOf(log + [e], i) == CopiesOf(log, i) + (if e.op == i then 1 else 0)
  {
    assert (log + [e])[..|log|] == log;
  }

  lemma {:induction false} NoCopies(log: seq<Entry>, i: nat)
    requires forall k :: 0 <= k < |log| ==> log[k].op != i
    ensures CopiesOf(log, i) == 0
  {
    if log == [] {
    } else {
      NoCopies(log[..|log| - 1], i);
    }
  }

  lemma {:induction false} CopyExists(log: seq<Entry>, i: nat)
    requires CopiesOf(log, i) > 0
    ensures exists k :: 0 <= k < |log| && log[k].op == i
  {
    if log[|log| - 1].op == i {
    } else {
      CopyExists(log[..|log| - 1], i);
    }
  }

  lemma {:induction false} CopyCounted(log: seq<Entry>, k: nat)
    requires k < |log|
    ensures CopiesOf(log, log[k].op) >= 1
  {
    if k == |log| - 1 {
    } else {
      CopyCounted(log[..|log| - 1], k);
    }
  }

  /** Steps of one task that leave the log alone. */
  lemma OneTaskMoves(render: Renderer, ops: seq<Op>, now: Instant, pub: Pub, pub': Pub, i: nat)
    requires PubInv(render, ops, now, pub) && i in pub.tasks && pub'.log == pub.log
    requires Accounted(|ops|, pub') && i < |ops| && WorkOk(ops, now, pub', i)
    requires forall j :: j != i ==> (j in pub'.tasks <==> j in pub.tasks) && (j in pub'.ended <==> j in pub.ended)
    requires forall j :: j != i && j in pub.tasks ==> pub'.tasks[j] == pub.tasks[j]
    requires forall j :: j != i && j in pub.ended ==> pub'.ended[j] == pub.ended[j]
    requires WorkOf(pub, i).at.Some? ==> WorkOf(pub', i).at == WorkOf(pub, i).at
    ensures PubInv(render, ops, now, pub')
  {
    forall j | 0 <= j < |ops| ensures WorkOk(ops, now, pub', j) {
      assert WorkOk(ops, now, pub, j);
    }
    forall k | 0 <= k < |pub'.log| ensures EntryOk(render, ops, pub', pub'.log[k]) {
      assert EntryOk(render, ops, pub, pub.log[k]);
    }
  }

  lemma WriteKeeps(render: Renderer, ops: seq<Op>, now: Instant, pub: Pub, i: nat, appended: bool, verdict: Verdict)
    requires PubInv(render, ops, now, pub) && i in pub.tasks && i < |ops| && pub.tasks[i].work.at.Some?
    requires verdict.Succeeded? ==> appended
    requires verdict.Retry? ==> pub.tasks[i].work.attempts + 1 < MAX_RETRIES
    ensures PubInv(render, ops, now, AfterWrite(render, ops, pub, i, appended, verdict))
  {
    var pub' := AfterWrite(render, ops, pub, i, appended, verdict);
    var at := pub.tasks[i].work.at.value;
    var e := Entry(i, at, MessageFor(render, ops[i], at));
    assert !appended ==> pub'.log == pub.log;
    forall j | 0 <= j < |ops| ensures WorkOk(ops, now, pub', j) {
      assert WorkOk(ops, now, pub, j);
      CopiesAppend(pub.log, e, j);
    }
    forall k | 0 <= k < |pub'.log| ensures EntryOk(render, ops, pub', pub'.log[k]) {
      if k < |pub.log| {
        assert EntryOk(render, ops, pub, pub.log[k]);
      }
    }
  }

  lemma PubStepKeeps(render: Renderer, ops: seq<Op>, now: Instant, pub: Pub, step: PubStep)
    requires PubInv(render, ops, now, pub) && OpsPast(ops, now) && PubEnabled(ops, now, pub, step)
    ensures PubInv(render, ops, now, PubNext(render, ops, now, pub, step))
  {
    assert WorkOk(ops, now, pub, step.i);
    if step.Write? {
      var a := step.attempt;
      WriteKeeps(render, ops, now, pub, step.i, a.appended, Judge(pub.tasks[step.i].work.attempts + 1, a.reply));
    } else {
      OneTaskMoves(render, ops, now, pub, PubNext(render, ops, now, pub, step), step.i);
    }
  }

  lemma PubCommitKeeps(render: Renderer, ops: seq<Op>, op: Op, now: Instant, pub: Pub, answered: bool)
    requires PubInv(render, ops, now, pub)
    ensures PubInv(render, ops + [op], now, PubCommit(pub, |ops|, answered))
  {
    var pub', longer := PubCommit(pub, |ops|, answered), ops + [op];
    forall k | 0 <= k < |pub'.log| ensures EntryOk(render, longer, pub', pub'.log[k]) {
      assert EntryOk(render, ops, pub, pub.log[k]);
    }
    forall i | 0 <= i < |longer| ensures WorkOk(longer, now, pub', i) {
      if i < |ops| {
        assert WorkOk(ops, now, pub, i);
      } else {
        forall k | 0 <= k < |pub.log| ensures pub.log[k].op != i {
          assert EntryOk(render, ops, pub, pub.log[k]);
        }
        NoCopies(pub.log, i);
      }
    }
  }

  lemma PubCrashKeeps(render: Renderer, ops: seq<Op>, now: Instant, pub: Pub)
    requires PubInv(render, ops, now, pub)
    ensures PubInv(render, ops, now, PubCrash(pub))
  {
    var pub' := PubCrash(pub);
    forall i | 0 <= i < |ops| ensures WorkOk(ops, now, pub', i) {
      assert WorkOk(ops, now, pub, i);
    }
    forall k | 0 <= k < |pub'.log| ensures EntryOk(render, ops, pub', pub'.log[k]) {
      assert EntryOk(render, ops, pub, pub.log[k]);
    }
  }

  lemma ClockKeeps(render: Renderer, ops: seq<Op>, now: Instant, later: Instant, pub: Pub)
    requires PubInv(render, ops, now, pub) && now <= later
    ensures PubInv(render, ops, later, pub)
  {
    forall i | 0 <= i < |ops| ensures WorkOk(ops, later, pub, i) {
      assert WorkOk(ops, now, pub, i);
    }
  }

  // ---------- Conservation ----------

  function EndedAs(pub: Pub, fate: Fate): set<nat> {
    set i | i in pub.ended && pub.ended[i].fate == fate
  }

  lemma {:induction false} Below(n: nat, s: set<nat>)
    requires forall i: nat :: i in s <==> i < n
    ensures |s| == n
  {
    if n == 0 {
      assert s == {};
    } else {
      Below(n - 1, s - {n - 1});
    }
  }

  /**
   Every committed operation is accounted for: still being published,
   acknowledged, failed and logged, or lost with its process or caller.
   */
  lemma Conservation(render: Renderer, ops: seq<Op>, now: Instant, pub: Pub)
    requires PubInv(render, ops, now, pub)
    ensures |ops| == |pub.tasks| + |EndedAs(pub, Published)| + |EndedAs(pub, GaveUp)| + |EndedAs(pub, Vanished)|
  {
    var p, g, v := EndedAs(pub, Published), EndedAs(pub, GaveUp), EndedAs(pub, Vanished);
    Below(|ops|, pub.tasks.Keys + p + g + v);
    FourParts(pub.tasks.Keys, p, g, v);
    assert |pub.tasks| == |pub.tasks.Keys|;
  }

  lemma FourParts(a: set<nat>, b: set<nat>, c: set<nat>, d: set<nat>)
    requires a !! b !! c !! d
    ensures |a + b + c + d| == |a| + |b| + |c| + |d|
  {
  }

  /** An operation has at most three copies in the topic, all identical, and at least one if acknowledged. */
  lemma CopiesBounded(render: Renderer, ops: seq<Op>, now: Instant, pub: Pub, i: nat)
    requires PubInv(render, ops, now, pub) && i < |ops|
    ensures CopiesOf(pub.log, i) <= MAX_RETRIES
    ensures i in EndedAs(pub, Published) ==> CopiesOf(pub.log, i) >= 1
    ensures forall j, k :: 0 <= j < |pub.log| && 0 <= k < |pub.log| && pub.log[j].op == pub.log[k].op == i
              ==> pub.log[j] == pub.log[k]
  {
    assert WorkOk(ops, now, pub, i);
    forall j, k | 0 <= j < |pub.log| && 0 <= k < |pub.log| && pub.log[j].op == pub.log[k].op == i
      ensures pub.log[j] == pub.log[k]
    {
      assert EntryOk(render, ops, pub, pub.log[j]) && EntryOk(render, ops, pub, pub.log[k]);
    }
  }
}
