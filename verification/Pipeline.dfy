/**
 The whole pipeline: requests against the device table, publishing tasks, one
 topic partition, the consumer and the event store, interleaved in any order,
 with crashes of either service, ambiguous writes and redelivery.
 */
module Pipeline {
  import opened Text
  import opened Timestamps
  import Rfc3339
  import opened Uuids
  import opened Devices
  import opened Requests
  import opened Events
  import opened Publishing

  // ---------- Node service ----------

  datatype Source = FromKafka(offset: nat) | FromHttp

  datatype Stored = Stored(event: Event, source: Source)

  /**
   While the consumer runs, `position` is the next offset to deliver and
   `started` the first of this session; `committed` survives the session.
   */
  datatype Node = Node(events: seq<Stored>, position: Option<nat>, committed: Option<nat>, started: nat)

  datatype NodeStep =
    | StartConsumer
    | StopConsumer
    | CommitOffset(offset: nat)
    | Deliver(id: string, inserted: bool)
    | Post(event: Event)

  predicate FreshEventId(node: Node, id: string) {
    forall k :: 0 <= k < |node.events| ==> node.events[k].event.id != id
  }

  /** Any offset the session has come past may be committed; generated event ids are fresh. */
  predicate NodeEnabled(log: seq<Entry>, node: Node, step: NodeStep) {
    match step
    case StartConsumer => node.position.None?
    case StopConsumer => true
    case CommitOffset(c) => node.position.Some? && node.started <= c <= node.position.value
    case Deliver(id, _) => node.position.Some? && node.position.value < |log| && FreshEventId(node, id)
    case Post(e) => EventOk(e) && FreshEventId(node, e.id)
  }

  /**
   `eachMessage` validates, saves and swallows every error, so the position
   always advances. Without a committed offset the consumer starts at the end.
   */
  function NodeNext(log: seq<Entry>, node: Node, step: NodeStep): Node
    requires NodeEnabled(log, node, step)
  {
    match step
    case StartConsumer =>
      var first := if node.committed.Some? then node.committed.value else |log|;
      node.(position := Some(first), started := first)
    case StopConsumer => node.(position := None)
    case CommitOffset(c) => node.(committed := Some(c))
    case Deliver(id, inserted) =>
      var p := node.position.value;
      var m := log[p].message;
      node.(position := Some(p + 1),
            events := node.events + if Accepted(m) && inserted then [Stored(EventOf(m, id), FromKafka(p))] else [])
    case Post(e) => node.(events := node.events + [Stored(e, FromHttp)])
  }

  predicate StoredOk(log: seq<Entry>, s: Stored) {
    && EventOk(s.event)
    && (s.source.FromKafka? ==>
          && s.source.offset < |log|
          && Accepted(log[s.source.offset].message)
          && s.event == EventOf(log[s.source.offset].message, s.event.id))
  }

  predicate DistinctIds(events: seq<Stored>) {
    forall i, j :: 0 <= i < j < |events| ==> events[i].event.id != events[j].event.id
  }

  predicate NodeInv(log: seq<Entry>, node: Node) {
    && (node.position.Some? ==> node.started <= node.position.value <= |log|)
    && (node.committed.Some? ==> node.committed.value <= |log|)
    && (node.position.Some? && node.committed.Some? ==> node.committed.value <= node.position.value)
    && (forall k :: 0 <= k < |node.events| ==> StoredOk(log, node.events[k]))
    && DistinctIds(node.events)
  }

  lemma AcceptedMakesEvent(m: Message, id: string)
    requires Accepted(m)
    ensures EventOk(EventOf(m, id))
  {
    KnownKindsVisible(m.kind);
  }

  lemma NodeStepKeeps(log: seq<Entry>, node: Node, step: NodeStep)
    requires NodeInv(log, node) && NodeEnabled(log, node, step)
    ensures NodeInv(log, NodeNext(log, node, step))
  {
    if step.Deliver? && Accepted(log[node.position.value].message) {
      AcceptedMakesEvent(log[node.position.value].message, step.id);
    }
  }

  lemma NodeLogGrows(log: seq<Entry>, longer: seq<Entry>, node: Node)
    requires NodeInv(log, node) && log <= longer
    ensures NodeInv(longer, node)
  {
    forall k | 0 <= k < |node.events| ensures StoredOk(longer, node.events[k]) {
      assert StoredOk(log, node.events[k]);
    }
  }

  // ---------- Composition ----------

  datatype State = State(db: Db, pub: Pub, node: Node)

  datatype Step = OfDb(db: DbStep) | OfPub(pub: PubStep) | OfNode(node: NodeStep)

  predicate Init(s: State) {
    && DbInit(s.db)
    && s.pub == Pub(map[], map[], [])
    && s.node == Node([], None, None, 0)
  }

  predicate Enabled(s: State, step: Step) {
    match step
    case OfDb(d) => DbEnabled(s.db, d)
    case OfPub(p) => PubEnabled(s.db.ops, s.db.now, s.pub, p)
    case OfNode(n) => NodeEnabled(s.pub.log, s.node, n)
  }

  /** The caller of the statement learns that it worked. */
  predicate Answered(step: DbStep) {
    match step
    case RunSave(_, mode) => mode.Ran?
    case RunUpdate(_, mode) => mode.Ran?
    case RunDelete(_, mode) => mode.Ran?
    case _ => false
  }

  /** A crash ends all goroutines; a commit starts one if the statement is answered. */
  function OfDbNext(s: State, d: DbStep): State
    requires DbEnabled(s.db, d)
  {
    var db := DbNext(s.db, d);
    State(db,
          if d.Crash? then PubCrash(s.pub)
          else if |db.ops| > |s.db.ops| then PubCommit(s.pub, |s.db.ops|, Answered(d))
          else s.pub,
          s.node)
  }

  function Next(render: Renderer, s: State, step: Step): State
    requires Enabled(s, step)
  {
    match step
    case OfDb(d) => OfDbNext(s, d)
    case OfPub(p) => s.(pub := PubNext(render, s.db.ops, s.db.now, s.pub, p))
    case OfNode(n) => s.(node := NodeNext(s.pub.log, s.node, n))
  }

  /** No goroutine was ever started for the operation. */
  predicate Silent(pub: Pub, n: nat) {
    n !in pub.tasks && n in pub.ended && pub.ended[n] == Ending(Vanished, Work(None, 0))
  }

  /** An operation whose caller was told of a failure is not published. */
  predicate LostAreSilent(db: Db, pub: Pub) {
    && OpsMatchCalls(db)
    && forall n :: 0 <= n < |db.ops| && CallOf(db, n).mode.AnswerLost? ==> Silent(pub, n)
  }

  ghost predicate Inv(render: Renderer, s: State) {
    && DbInv(s.db)
    && PubInv(render, s.db.ops, s.db.now, s.pub)
    && NodeInv(s.pub.log, s.node)
    && LostAreSilent(s.db, s.pub)
  }

  /** A step of the table appends at most one operation and does not turn the clock back. */
  lemma DbProgress(db: Db, step: DbStep)
    requires DbEnabled(db, step)
    ensures db.now <= DbNext(db, step).now
    ensures var ops' := DbNext(db, step).ops;
            db.ops <= ops' && |ops'| <= |db.ops| + 1 && (step.Crash? ==> ops' == db.ops)
  {
  }

  lemma DbOpsPast(db: Db)
    requires DbInv(db)
    ensures OpsPast(db.ops, db.now)
  {
    forall i | 0 <= i < |db.ops| ensures db.ops[i].row.createdAt <= db.now {
      assert OpOk(db, i);
    }
  }

  /** A step that commits an operation finishes its call, as answered or as lost. */
  lemma CommitFinishes(db: Db, step: DbStep)
    requires DbEnabled(db, step)
    ensures var db' := DbNext(db, step);
            && db.finished <= db'.finished && |db'.finished| <= |db.finished| + 1
            && (|db'.ops| > |db.ops| ==>
                  |db'.finished| == |db.finished| + 1
                  && db'.finished[|db.finished|].mode == if Answered(step) then Ran else AnswerLost)
  {
  }

  /** Operations keep their calls, and a new operation's call is the one that just finished. */
  lemma CallsStay(db: Db, db': Db)
    requires OpsMatchCalls(db) && OpsMatchCalls(db') && db.finished <= db'.finished
    requires |db'.finished| <= |db.finished| + 1 && |db.ops| <= |db'.ops| <= |db.ops| + 1
    ensures forall n :: 0 <= n < |db.ops| ==> CallOf(db', n) == CallOf(db, n)
    ensures |db'.ops| > |db.ops| ==>
              |db'.finished| == |db.finished| + 1 && CallOf(db', |db.ops|) == db'.finished[|db.finished|]
  {
    hide Carries, Effective;
    if db'.finished != db.finished {
      assert db'.finished == db.finished + [db'.finished[|db.finished|]];
      EffectivePrefix(db.finished, db'.finished[|db.finished|], |db.finished|);
    }
  }

  lemma CommitKeepsSilence(db: Db, db': Db, pub: Pub, answered: bool)
    requires LostAreSilent(db, pub) && OpsMatchCalls(db') && |db'.ops| == |db.ops| + 1 && |db.ops| !in pub.tasks
    requires forall n :: 0 <= n < |db.ops| ==> CallOf(db', n) == CallOf(db, n)
    requires !answered || !CallOf(db', |db.ops|).mode.AnswerLost?
    ensures LostAreSilent(db', PubCommit(pub, |db.ops|, answered))
  {
    hide CallOf, OpsMatchCalls;
    forall n | 0 <= n < |db'.ops| && CallOf(db', n).mode.AnswerLost?
      ensures Silent(PubCommit(pub, |db.ops|, answered), n)
    {
      if n < |db.ops| { assert Silent(pub, n); }
    }
  }

  lemma OfDbKeepsSilence(s: State, d: DbStep)
    requires DbInv(s.db) && DbEnabled(s.db, d) && DbInv(DbNext(s.db, d))
    requires Accounted(|s.db.ops|, s.pub) && LostAreSilent(s.db, s.pub)
    ensures var s' := OfDbNext(s, d); LostAreSilent(s'.db, s'.pub)
  {
    DbProgress(s.db, d);
    CommitFinishes(s.db, d);
    CallsStay(s.db, DbNext(s.db, d));
    hide DbNext, DbInv, CallOf, OpsMatchCalls;
    var db := DbNext(s.db, d);
    if |db.ops| > |s.db.ops| {
      CommitKeepsSilence(s.db, db, s.pub, Answered(d));
    } else {
      forall n | 0 <= n < |db.ops| && CallOf(db, n).mode.AnswerLost? ensures Silent(OfDbNext(s, d).pub, n) {
        assert Silent(s.pub, n);
      }
    }
  }

  lemma OfPubKeepsSilence(render: Renderer, s: State, p: PubStep, n: nat)
    requires PubEnabled(s.db.ops, s.db.now, s.pub, p) && Silent(s.pub, n)
    ensures Silent(PubNext(render, s.db.ops, s.db.now, s.pub, p), n)
  {
  }

  lemma OfDbKeeps(render: Renderer, s: State, d: DbStep)
    requires Inv(render, s) && DbEnabled(s.db, d)
    ensures Inv(render, Next(render, s, OfDb(d)))
  {
    DbStepKeeps(s.db, d);
    DbProgress(s.db, d);
    var db := DbNext(s.db, d);
    ClockKeeps(render, s.db.ops, s.db.now, db.now, s.pub);
    if d.Crash? {
      PubCrashKeeps(render, s.db.ops, db.now, s.pub);
    } else if |db.ops| > |s.db.ops| {
      assert db.ops == s.db.ops + [db.ops[|s.db.ops|]];
      PubCommitKeeps(render, s.db.ops, db.ops[|s.db.ops|], db.now, s.pub, Answered(d));
    } else {
      assert db.ops == s.db.ops;
    }
    OfDbKeepsSilence(s, d);
  }

  lemma LogOnlyGrows(render: Renderer, ops: seq<Op>, now: Instant, pub: Pub, p: PubStep)
    requires PubEnabled(ops, now, pub, p)
    ensures pub.log <= PubNext(render, ops, now, pub, p).log
  {
  }

  /** Every step of every component keeps the invariant of the whole. */
  lemma StepKeeps(render: Renderer, s: State, step: Step)
    requires Inv(render, s) && Enabled(s, step)
    ensures Inv(render, Next(render, s, step))
  {
    match step {
      case OfDb(d) => OfDbKeeps(render, s, d);
      case OfPub(p) =>
        DbOpsPast(s.db);
        PubStepKeeps(render, s.db.ops, s.db.now, s.pub, p);
        LogOnlyGrows(render, s.db.ops, s.db.now, s.pub, p);
        NodeLogGrows(s.pub.log, PubNext(render, s.db.ops, s.db.now, s.pub, p).log, s.node);
        forall n | 0 <= n < |s.db.ops| && CallOf(s.db, n).mode.AnswerLost?
          ensures Silent(PubNext(render, s.db.ops, s.db.now, s.pub, p), n)
        {
          OfPubKeepsSilence(render, s, p, n);
        }
      case OfNode(n) => NodeStepKeeps(s.pub.log, s.node, n);
    }
  }

  // ---------- Runs ----------

  /** `trace` is a run of the pipeline: it starts empty and takes the given steps. */
  ghost predicate IsRun(render: Renderer, trace: seq<State>, steps: seq<Step>) {
    && |trace| == |steps| + 1 && Init(trace[0])
    && forall i :: 0 <= i < |steps| ==> Enabled(trace[i], steps[i]) && trace[i + 1] == Next(render, trace[i], steps[i])
  }

  lemma {:induction false} RunInvariant(render: Renderer, trace: seq<State>, steps: seq<Step>, i: nat)
    requires IsRun(render, trace, steps) && i < |trace|
    ensures Inv(render, trace[i])
  {
    if i == 0 {
      InitHolds(trace[0].db);
    } else {
      RunInvariant(render, trace, steps, i - 1);
      StepKeeps(render, trace[i - 1], steps[i - 1]);
    }
  }

  /** One step of a run. */
  lemma RunStep(render: Renderer, trace: seq<State>, steps: seq<Step>, i: nat)
    requires IsRun(render, trace, steps) && i < |trace| - 1
    ensures |trace| == |steps| + 1 && Inv(render, trace[i]) && NodeInv(trace[i].pub.log, trace[i].node)
    ensures Enabled(trace[i], steps[i]) && trace[i + 1] == Next(render, trace[i], steps[i])
  {
    RunInvariant(render, trace, steps, i);
  }

  /** A run goes on with any enabled step. */
  lemma Extend(render: Renderer, trace: seq<State>, steps: seq<Step>, step: Step)
    returns (longer: seq<State>, more: seq<Step>)
    requires IsRun(render, trace, steps) && Enabled(trace[|steps|], step)
    ensures IsRun(render, longer, more) && |more| == |steps| + 1 && trace <= longer && more == steps + [step]
    ensures longer[|more|] == Next(render, trace[|steps|], step)
  {
    longer, more := trace + [Next(render, trace[|steps|], step)], steps + [step];
  }

  lemma StepAppends(render: Renderer, s: State, step: Step)
    requires Enabled(s, step)
    ensures var s' := Next(render, s, step);
            s.db.ops <= s'.db.ops && s.pub.log <= s'.pub.log && s.node.events <= s'.node.events
  {
    match step {
      case OfDb(d) => DbProgress(s.db, d);
      case OfPub(p) => LogOnlyGrows(render, s.db.ops, s.db.now, s.pub, p);
      case OfNode(_) =>
    }
  }

  /** Operations, topic and event store are append-only along every run. */
  lemma {:induction false} OnlyAppends(render: Renderer, trace: seq<State>, steps: seq<Step>, i: nat, j: nat)
    requires IsRun(render, trace, steps) && i <= j < |trace|
    ensures trace[i].db.ops <= trace[j].db.ops
    ensures trace[i].pub.log <= trace[j].pub.log
    ensures trace[i].node.events <= trace[j].node.events
    decreases j
  {
    if i == j {
    } else {
      OnlyAppends(render, trace, steps, i, j - 1);
      StepAppends(render, trace[j - 1], steps[j - 1]);
    }
  }

  // ---------- Safety of the stored events ----------

  /** The operation a Kafka-sourced event stems from. */
  function OriginOf(s: State, e: Stored): nat
    requires e.source.FromKafka? && e.source.offset < |s.pub.log|
  {
    s.pub.log[e.source.offset].op
  }

  /** Some earlier state of the device's row had this name. */
  ghost predicate NameWasHeld(ops: seq<Op>, i: nat, u: Uuid, name: string)
    requires i < |ops|
  {
    exists j :: 0 <= j <= i && !ops[j].kind.Deleted? && ops[j].row.id == u && ops[j].row.name == name
  }

  /**
   Every Kafka-sourced event in the store stems from one committed operation:
   its kind, its id text, a name the device really held by then, and a time not
   before the device's creation, which for a creation is that very time.
   */
  lemma Provenance(render: Renderer, s: State, k: nat)
    requires Inv(render, s) && k < |s.node.events| && s.node.events[k].source.FromKafka?
    ensures var e := s.node.events[k];
            && e.source.offset < |s.pub.log|
            && var i := OriginOf(s, e);
               && i < |s.db.ops|
               && var op := s.db.ops[i];
                  && e.event.kind == KindText(op.kind)
                  && e.event.deviceId == op.deviceId && Resolve(e.event.deviceId) == Some(op.row.id)
                  && e.event.name == op.name && NameWasHeld(s.db.ops, i, op.row.id, e.event.name)
                  && e.event.timestamp == render(s.pub.log[e.source.offset].at)
                  && TimeOk(op, s.db.now, s.pub.log[e.source.offset].at)
  {
    var e := s.node.events[k];
    assert StoredOk(s.pub.log, e);
    assert EntryOk(render, s.db.ops, s.pub, s.pub.log[e.source.offset]);
    var i := OriginOf(s, e);
    assert OpOk(s.db, i) && WorkOk(s.db.ops, s.db.now, s.pub, i);
    NameHeld(s.db, i);
  }

  lemma NameHeld(db: Db, i: nat)
    requires DbInv(db) && i < |db.ops|
    ensures NameWasHeld(db.ops, i, db.ops[i].row.id, db.ops[i].name)
  {
    assert OpOk(db, i);
    var op := db.ops[i];
    if op.kind.Deleted? {
      RowHasCreator(db.ops, op.seen, op.row.id);
    }
  }

  /**
   No device with a Kafka-sourced `device.deleted` event in the store is still
   in the table.
   */
  lemma DeletedEventMeansGone(render: Renderer, s: State, k: nat)
    requires Inv(render, s) && k < |s.node.events| && s.node.events[k].source.FromKafka?
    requires s.node.events[k].event.kind == "device.deleted"
    ensures var u := Resolve(s.node.events[k].event.deviceId);
            u.Some? && u.value !in s.db.rows
  {
    Provenance(render, s, k);
    var i := OriginOf(s, s.node.events[k]);
    KindTextInjective(s.db.ops[i].kind, Deleted);
    DeletedForever(s.db.ops, i, |s.db.ops|);
  }

  lemma KindTextInjective(a: EventKind, b: EventKind)
    ensures KindText(a) == KindText(b) <==> a == b
  {
    assert KindText(Created)[7] == 'c' && KindText(Updated)[7] == 'u' && KindText(Deleted)[7] == 'd';
  }

  /** That holds from the moment the event is stored, in every later state of the run. */
  lemma DeletedStaysGone(render: Renderer, trace: seq<State>, steps: seq<Step>, i: nat, j: nat, k: nat)
    requires IsRun(render, trace, steps) && i <= j < |trace|
    requires k < |trace[i].node.events| && trace[i].node.events[k].source.FromKafka?
    requires trace[i].node.events[k].event.kind == "device.deleted"
    ensures var u := Resolve(trace[i].node.events[k].event.deviceId);
            u.Some? && u.value !in trace[j].db.rows
  {
    RunInvariant(render, trace, steps, j);
    OnlyAppends(render, trace, steps, i, j);
    DeletedEventMeansGone(render, trace[j], k);
  }

  /**
   Per device at most one operation is a deletion, so all its stored
   `device.deleted` events are copies of one message.
   */
  lemma OneDeletionPerDevice(render: Renderer, s: State, k: nat, l: nat)
    requires Inv(render, s) && k < |s.node.events| && l < |s.node.events|
    requires s.node.events[k].source.FromKafka? && s.node.events[l].source.FromKafka?
    requires s.node.events[k].event.kind == s.node.events[l].event.kind == "device.deleted"
    requires Resolve(s.node.events[k].event.deviceId) == Resolve(s.node.events[l].event.deviceId)
    ensures OriginOf(s, s.node.events[k]) == OriginOf(s, s.node.events[l])
    ensures Content(s.node.events[k].event) == Content(s.node.events[l].event)
  {
    var e, f := s.node.events[k], s.node.events[l];
    Provenance(render, s, k);
    Provenance(render, s, l);
    var i, j := OriginOf(s, e), OriginOf(s, f);
    KindTextInjective(s.db.ops[i].kind, Deleted);
    KindTextInjective(s.db.ops[j].kind, Deleted);
    DeletedIsLast(s.db.ops, i, j);
    DeletedIsLast(s.db.ops, j, i);
    CopiesBounded(render, s.db.ops, s.db.now, s.pub, i);
    assert StoredOk(s.pub.log, e) && StoredOk(s.pub.log, f);
  }

  /**
   The name in a deletion is the one its caller found. It is the row's name at
   the moment of deletion if and only if no update of the device committed in
   between, or the last one to do so wrote the found name again.
   */
  lemma DeletionName(db: Db, i: nat)
    requires DbInv(db) && i < |db.ops| && db.ops[i].kind.Deleted?
    ensures var op := db.ops[i];
            && op.seen <= i && op.row.id in RowsAfter(db.ops, op.seen)
            && op.name == RowsAfter(db.ops, op.seen)[op.row.id].name
            && op.row.id in RowsAfter(db.ops, i) && op.row == RowsAfter(db.ops, i)[op.row.id]
            && (op.name == op.row.name <==>
                var written := LastNameWritten(db.ops, op.seen, i, op.row.id);
                written == None || written == Some(op.name))
            && (op.seen == i ==> op.name == op.row.name)
  {
    var op := db.ops[i];
    assert OpOk(db, i) && LegalAt(db.ops, i);
    NameFollowsUpdates(db.ops, op.seen, i, op.row.id);
  }

  /** A device is created, and request 1 has found it in order to delete it. */
  lemma FoundForDeletion(render: Renderer, u: Uuid) returns (trace: seq<State>, steps: seq<Step>)
    requires IsV4(u)
    ensures IsRun(render, trace, steps) && |steps| == 3
    ensures var s, d := trace[3], Device(u, "old", "kind", 0);
            && s.db.rows == map[u := d] && |s.db.ops| == 1 && |s.db.finished| == 1 && s.pub.log == [] && s.db.now == 0
            && s.db.requests == map[1 := Request(Call.Delete(Print(u)), DeleteNext(d, 1), 1)]
  {
    ResolvePrinted(u);
    trace, steps := [State(Db(map[], map[], {}, 0, [], []), Pub(map[], map[], []), Node([], None, None, 0))], [];
    hide IsRun, Resolve, Print, IsV4;
    trace, steps := Extend(render, trace, steps, OfDb(BeginCreate(0, "old", "kind", u)));
    trace, steps := Extend(render, trace, steps, OfDb(RunSave(0, Ran)));
    trace, steps := Extend(render, trace, steps, OfDb(FindForDelete(1, Print(u), Ran)));
  }

  /** Request 2 finds the device in order to rename it. */
  lemma FoundForRenaming(render: Renderer, u: Uuid) returns (trace: seq<State>, steps: seq<Step>)
    requires IsV4(u)
    ensures IsRun(render, trace, steps) && |steps| == 4
    ensures var s, was, new_ := trace[4], Device(u, "old", "kind", 0), Device(u, "new", "kind", 0);
            && s.db.rows == map[u := was] && |s.db.ops| == 1 && s.pub.log == [] && s.db.now == 0
            && s.db.requests == map[1 := Request(Call.Delete(Print(u)), DeleteNext(was, 1), 1),
                                    2 := Request(Call.Update(Print(u), "new", "kind"), UpdateNext(new_, was, 1), 1)]
  {
    ResolvePrinted(u);
    trace, steps := FoundForDeletion(render, u);
    hide IsRun, Resolve, Print, IsV4;
    trace, steps := Extend(render, trace, steps, OfDb(FindForUpdate(2, Print(u), "new", "kind", Ran)));
  }

  /** Request 2 renames the device meanwhile. */
  lemma RenamedMeanwhile(render: Renderer, u: Uuid) returns (trace: seq<State>, steps: seq<Step>)
    requires IsV4(u)
    ensures IsRun(render, trace, steps) && |steps| == 5
    ensures var s := trace[5];
            && s.db.rows == map[u := Device(u, "new", "kind", 0)] && |s.db.ops| == 2 && s.pub.log == []
            && s.db.ops[1] == Op(Updated, Device(u, "new", "kind", 0), Print(u), "new", 1) && s.db.now == 0
            && 1 in s.pub.tasks && s.pub.tasks[1] == Task(Committed, Work(None, 0))
            && s.db.requests == map[1 := Request(Call.Delete(Print(u)), DeleteNext(Device(u, "old", "kind", 0), 1), 1)]
  {
    trace, steps := FoundForRenaming(render, u);
    hide IsRun, Resolve, Print, IsV4;
    trace, steps := Extend(render, trace, steps, OfDb(RunUpdate(2, Ran)));
  }

  /** Then request 1 deletes it. */
  lemma RenamedThenDeleted(render: Renderer, u: Uuid) returns (trace: seq<State>, steps: seq<Step>)
    requires IsV4(u)
    ensures IsRun(render, trace, steps) && |steps| == 6
    ensures var s := trace[6];
            && |s.db.ops| == 3 && s.db.ops[2] == Op(Deleted, Device(u, "new", "kind", 0), Print(u), "old", 1)
            && s.db.ops[1] == Op(Updated, Device(u, "new", "kind", 0), Print(u), "new", 1) && s.db.now == 0
            && 1 in s.pub.tasks && s.pub.tasks[1] == Task(Committed, Work(None, 0))
            && 2 in s.pub.tasks && s.pub.tasks[2] == Task(Committed, Work(None, 0)) && s.pub.log == []
  {
    ResolvePrinted(u);
    trace, steps := RenamedMeanwhile(render, u);
    hide IsRun, Resolve, Print, IsV4;
    trace, steps := Extend(render, trace, steps, OfDb(RunDelete(1, Ran)));
  }

  /**
   It happens: between the lookup and the statement of a deletion another
   request renames the device, and the topic gets the old name.
   */
  lemma StaleNameExample(render: Renderer, u: Uuid) returns (trace: seq<State>, steps: seq<Step>)
    requires IsV4(u)
    ensures IsRun(render, trace, steps) && |steps| == 9
    ensures var s := trace[9];
            && |s.db.ops| == 3 && s.db.ops[2].kind.Deleted? && s.db.ops[2].row.id == u
            && |s.pub.log| == 1 && s.pub.log[0].op == 2
            && s.db.ops[2].row.name == "new" && s.pub.log[0].message.name == "old"
  {
    trace, steps := RenamedThenDeleted(render, u);
    hide IsRun;
    trace, steps := Extend(render, trace, steps, OfPub(Spawn(2)));
    trace, steps := Extend(render, trace, steps, OfPub(BuildPayload(2)));
    trace, steps := Extend(render, trace, steps, OfPub(Write(2, Attempt(true, Written))));
  }

  // ---------- Calls answered with an error ----------

  /** Operation `n` has no goroutine, no record in the topic and no stored event. */
  predicate LeavesNoTrace(s: State, n: nat) {
    && Silent(s.pub, n)
    && (forall k :: 0 <= k < |s.pub.log| ==> s.pub.log[k].op != n)
    && (forall k :: 0 <= k < |s.node.events| && s.node.events[k].source.FromKafka?
          ==> s.node.events[k].source.offset < |s.pub.log| && OriginOf(s, s.node.events[k]) != n)
  }

  lemma SilentLeavesNoTrace(render: Renderer, s: State, n: nat)
    requires Inv(render, s) && Silent(s.pub, n)
    ensures LeavesNoTrace(s, n)
  {
    forall k | 0 <= k < |s.pub.log| ensures s.pub.log[k].op != n {
      assert EntryOk(render, s.db.ops, s.pub, s.pub.log[k]);
    }
    forall k | 0 <= k < |s.node.events| && s.node.events[k].source.FromKafka?
      ensures s.node.events[k].source.offset < |s.pub.log|
    {
      assert StoredOk(s.pub.log, s.node.events[k]);
    }
  }

  /**
   In every state of every run, a call answered with an error, whether
   rejected, failed, or committed with its answer lost, has no event anywhere:
   it committed no operation, or one that leaves no trace.
   */
  lemma FailedCallsLeaveNoTrace(render: Renderer, trace: seq<State>, steps: seq<Step>, i: nat, k: nat)
    requires IsRun(render, trace, steps) && i < |trace|
    requires k < |trace[i].db.finished| && trace[i].db.finished[k].reply.Failed?
    ensures var db := trace[i].db;
            && OpsMatchCalls(db)
            && var e := EffectiveCalls(db.finished, |db.finished|);
               && (k in e ==> db.finished[k].mode.AnswerLost?)
               && (forall n :: 0 <= n < |e| && e[n] == k ==> LeavesNoTrace(trace[i], n))
  {
    RunInvariant(render, trace, steps, i);
    var s := trace[i];
    CallsCommitOperations(s.db, k);
    var e := EffectiveCalls(s.db.finished, |s.db.finished|);
    forall n | 0 <= n < |e| && e[n] == k ensures LeavesNoTrace(s, n) {
      assert CallOf(s.db, n) == s.db.finished[k];
      SilentLeavesNoTrace(render, s, n);
    }
  }

  lemma SilenceStays(render: Renderer, s: State, step: Step, n: nat)
    requires Inv(render, s) && Enabled(s, step) && n < |s.db.ops| && Silent(s.pub, n)
    ensures Silent(Next(render, s, step).pub, n)
  {
    if step.OfPub? {
      OfPubKeepsSilence(render, s, step.pub, n);
    }
  }

  lemma UnansweredIsSilent(render: Renderer, s: State, d: DbStep)
    requires Inv(render, s) && DbEnabled(s.db, d) && !Answered(d) && |DbNext(s.db, d).ops| > |s.db.ops|
    ensures var s' := Next(render, s, OfDb(d)); |s'.db.ops| > |s.db.ops| && Silent(s'.pub, |s.db.ops|)
  {
    DbProgress(s.db, d);
    hide DbNext, DbInv;
    assert |s.db.ops| !in s.pub.tasks;
  }

  lemma {:induction false} UnansweredStaysSilent(render: Renderer, trace: seq<State>, steps: seq<Step>, j: nat, i: nat)
    requires IsRun(render, trace, steps) && j < |steps| && steps[j].OfDb? && !Answered(steps[j].db)
    requires |trace[j + 1].db.ops| > |trace[j].db.ops| && j < i < |trace|
    ensures |trace[i].db.ops| > |trace[j].db.ops| && Silent(trace[i].pub, |trace[j].db.ops|)
    decreases i
  {
    hide Inv, Next, Enabled;
    RunInvariant(render, trace, steps, i - 1);
    var s, step := trace[i - 1], steps[i - 1];
    assert Enabled(s, step) && trace[i] == Next(render, s, step);
    if i == j + 1 {
      OwnStep(render, s, step.db);
      UnansweredIsSilent(render, s, step.db);
    } else {
      UnansweredStaysSilent(render, trace, steps, j, i - 1);
      SilenceStays(render, s, step, |trace[j].db.ops|);
      StepAppends(render, s, step);
    }
  }

  lemma OwnStep(render: Renderer, s: State, d: DbStep)
    requires Enabled(s, OfDb(d))
    ensures DbEnabled(s.db, d) && Next(render, s, OfDb(d)).db == DbNext(s.db, d)
  {
  }

  /**
   An operation committed while its caller is not told leaves no trace in any
   later state: the row has changed, and no event will ever say so.
   */
  lemma LostAnswerLeavesNoTrace(render: Renderer, trace: seq<State>, steps: seq<Step>, j: nat, i: nat)
    requires IsRun(render, trace, steps) && j < |steps| && steps[j].OfDb? && !Answered(steps[j].db)
    requires |trace[j + 1].db.ops| > |trace[j].db.ops| && j < i < |trace|
    ensures |trace[i].db.ops| > |trace[j].db.ops| && LeavesNoTrace(trace[i], |trace[j].db.ops|)
  {
    UnansweredStaysSilent(render, trace, steps, j, i);
    RunInvariant(render, trace, steps, i);
    SilentLeavesNoTrace(render, trace[i], |trace[j].db.ops|);
  }

  /** It happens: the row of a new device is there, and its caller was told of a failure. */
  lemma LostAnswerExample(render: Renderer, u: Uuid) returns (trace: seq<State>, steps: seq<Step>)
    requires IsV4(u)
    ensures IsRun(render, trace, steps) && |steps| == 2
    ensures var s := trace[2];
            && u in s.db.rows && |s.db.ops| == 1 && |s.db.finished| == 1
            && s.db.finished[0].call.Create? && s.db.finished[0].reply.Failed? && Silent(s.pub, 0)
  {
    trace, steps := [State(Db(map[], map[], {}, 0, [], []), Pub(map[], map[], []), Node([], None, None, 0))], [];
    hide IsRun, Resolve, Print, IsV4;
    trace, steps := Extend(render, trace, steps, OfDb(BeginCreate(0, "name", "kind", u)));
    trace, steps := Extend(render, trace, steps, OfDb(RunSave(0, AnswerLost)));
  }

  /** Stored creations and updates carry the name and the printed id of the row their operation wrote. */
  lemma WrittenRowsAreTold(render: Renderer, s: State, k: nat)
    requires Inv(render, s) && k < |s.node.events| && s.node.events[k].source.FromKafka?
    ensures var e := s.node.events[k];
            && e.source.offset < |s.pub.log| && OriginOf(s, e) < |s.db.ops|
            && var op := s.db.ops[OriginOf(s, e)];
               && (op.kind.Created? <==> e.event.kind == "device.created")
               && (op.kind.Updated? <==> e.event.kind == "device.updated")
               && (op.kind.Deleted? <==> e.event.kind == "device.deleted")
               && (!op.kind.Deleted? ==> e.event.name == op.row.name && e.event.deviceId == Print(op.row.id))
  {
    Provenance(render, s, k);
    var i := OriginOf(s, s.node.events[k]);
    assert OpOk(s.db, i);
    KindTextInjective(s.db.ops[i].kind, Created);
    KindTextInjective(s.db.ops[i].kind, Updated);
    KindTextInjective(s.db.ops[i].kind, Deleted);
  }

  // ---------- Spelling of device ids ----------

  /**
   A stored event's device id differs from the device's own id in letter case
   at most, and not at all unless it is a deletion requested under another
   spelling. A query by the device's id finds the event exactly if it does not differ.
   */
  lemma StoredIdSpelling(render: Renderer, s: State, k: nat, u: Uuid, answer: seq<Event>)
    requires Inv(render, s) && k < |s.node.events| && s.node.events[k].source.FromKafka?
    requires Resolve(s.node.events[k].event.deviceId) == Some(u)
    requires IsAnswer(answer, EventsOf(s.node.events), (x: Event) => x.deviceId == Print(u))
    ensures var e := s.node.events[k];
            && e.source.offset < |s.pub.log| && OriginOf(s, e) < |s.db.ops|
            && var op := s.db.ops[OriginOf(s, e)];
               && op.row.id == u && Lower(e.event.deviceId) == Print(u)
               && (e.event.deviceId != Print(u) ==> op.kind.Deleted?)
               && (e.event in answer <==> op.deviceId == Print(u))
  {
    Provenance(render, s, k);
    var e, op := s.node.events[k].event, s.db.ops[OriginOf(s, s.node.events[k])];
    assert StoredOk(s.pub.log, s.node.events[k]) && OpOk(s.db, OriginOf(s, s.node.events[k]));
    AcceptedSpellings(e.deviceId, u);
    assert EventsOf(s.node.events)[k] == e;
    AnswerHolds(answer, EventsOf(s.node.events), (x: Event) => x.deviceId == Print(u), e);
  }

  function EventsOf(events: seq<Stored>): seq<Event> {
    seq(|events|, k requires 0 <= k < |events| => events[k].event)
  }

  // ---------- Order of creation ----------

  /** The payload times of a device's operations: its creation's is the earliest. */
  lemma CreationTimeFirst(render: Renderer, s: State, a: nat, b: nat)
    requires Inv(render, s) && a < |s.pub.log| && b < |s.pub.log|
    requires s.pub.log[a].op < |s.db.ops| && s.pub.log[b].op < |s.db.ops|
    requires s.db.ops[s.pub.log[a].op].kind.Created?
    requires s.db.ops[s.pub.log[a].op].row.id == s.db.ops[s.pub.log[b].op].row.id
    ensures s.pub.log[a].at <= s.pub.log[b].at <= s.db.now
  {
    var i, j := s.pub.log[a].op, s.pub.log[b].op;
    assert EntryOk(render, s.db.ops, s.pub, s.pub.log[a]) && EntryOk(render, s.db.ops, s.pub, s.pub.log[b]);
    assert WorkOk(s.db.ops, s.db.now, s.pub, i) && WorkOk(s.db.ops, s.db.now, s.pub, j);
    CreationComesFirst(s.db.ops, i, j);
  }

  /**
   Whatever the order of goroutines, retries and deliveries: the time in a
   stored `device.created` event is not after the time in any other
   Kafka-sourced event of the device. As texts they are in the wrong order
   exactly when the two times clash.
   */
  lemma CreatedEventIsEarliest(s: State, k: nat, l: nat, m: Instant, n: Instant)
    requires Inv(FormatInstant, s) && FourDigitYear(s.db.now)
    requires k < |s.node.events| && s.node.events[k].source.FromKafka?
    requires l < |s.node.events| && s.node.events[l].source.FromKafka?
    requires s.node.events[k].event.kind == "device.created"
    requires Resolve(s.node.events[k].event.deviceId) == Resolve(s.node.events[l].event.deviceId)
    requires FourDigitYear(m) && FormatInstant(m) == s.node.events[k].event.timestamp
    requires FourDigitYear(n) && FormatInstant(n) == s.node.events[l].event.timestamp
    ensures m <= n
    ensures InCalendar(UtcOf(m)) && InCalendar(UtcOf(n))
    ensures LexLess(s.node.events[l].event.timestamp, s.node.events[k].event.timestamp)
       <==> Clash(UtcOf(m), UtcOf(n))
  {
    Provenance(FormatInstant, s, k);
    Provenance(FormatInstant, s, l);
    var e, f := s.node.events[k], s.node.events[l];
    KindTextInjective(s.db.ops[OriginOf(s, e)].kind, Created);
    CreationTimeFirst(FormatInstant, s, e.source.offset, f.source.offset);
    var m', n' := s.pub.log[e.source.offset].at, s.pub.log[f.source.offset].at;
    TimesFromTexts(m, m', n, n', s.db.now);
  }

  /** A reader of RFC 3339 finds in a stored event's timestamp the payload time of its operation, to the nanosecond. */
  lemma StoredTimeIsRead(s: State, k: nat)
    requires Inv(FormatInstant, s) && FourDigitYear(s.db.now)
    requires k < |s.node.events| && s.node.events[k].source.FromKafka?
    ensures s.node.events[k].source.offset < |s.pub.log| && OriginOf(s, s.node.events[k]) < |s.db.ops|
    ensures var at := s.pub.log[s.node.events[k].source.offset].at;
            && Rfc3339.Read(s.node.events[k].event.timestamp) == Some(UtcOf(at)) && Nanos(UtcOf(at)) == at
            && TimeOk(s.db.ops[OriginOf(s, s.node.events[k])], s.db.now, at)
  {
    Provenance(FormatInstant, s, k);
    var at := s.pub.log[s.node.events[k].source.offset].at;
    FourDigitYearBefore(at, s.db.now);
    Rfc3339.ReadsInstant(at);
  }

  lemma TimesFromTexts(m: Instant, m': Instant, n: Instant, n': Instant, now: Instant)
    requires m' <= n' <= now && FourDigitYear(now) && FourDigitYear(m) && FourDigitYear(n)
    requires FormatInstant(m) == FormatInstant(m') && FormatInstant(n) == FormatInstant(n')
    ensures m <= n && InCalendar(UtcOf(m)) && InCalendar(UtcOf(n))
    ensures LexLess(FormatInstant(n), FormatInstant(m)) <==> Clash(UtcOf(m), UtcOf(n))
  {
    FourDigitYearBefore(m', now);
    FourDigitYearBefore(n', now);
    FormatInstantInjective(m, m');
    FormatInstantInjective(n, n');
    UtcOfInverse(m);
    UtcOfInverse(n);
    GoStringOrder(UtcOf(n), UtcOf(m));
  }

  /**
   In any query's answer a later event never has a later time, except exactly
   when the two times clash. The times are those of the topic's records.
   */
  lemma AnswerOrder(s: State, answer: seq<Event>, wanted: Event -> bool, i: nat, j: nat, k: nat, l: nat)
    requires Inv(FormatInstant, s) && FourDigitYear(s.db.now)
    requires IsAnswer(answer, EventsOf(s.node.events), wanted) && i < j < |answer|
    requires k < |s.node.events| && s.node.events[k].source.FromKafka? && s.node.events[k].event == answer[i]
    requires l < |s.node.events| && s.node.events[l].source.FromKafka? && s.node.events[l].event == answer[j]
    ensures s.node.events[k].source.offset < |s.pub.log| && s.node.events[l].source.offset < |s.pub.log|
    ensures var m, n := s.pub.log[s.node.events[k].source.offset].at, s.pub.log[s.node.events[l].source.offset].at;
            && answer[i].timestamp == FormatInstant(m) && answer[j].timestamp == FormatInstant(n)
            && ValidTime(UtcOf(m)) && ValidTime(UtcOf(n))
            && (m < n <==> Clash(UtcOf(m), UtcOf(n)))
  {
    Provenance(FormatInstant, s, k);
    Provenance(FormatInstant, s, l);
    var m, n := s.pub.log[s.node.events[k].source.offset].at, s.pub.log[s.node.events[l].source.offset].at;
    assert !LexLess(answer[i].timestamp, answer[j].timestamp);
    NotSortedBefore(m, n, s.db.now);
  }

  lemma NotSortedBefore(m: Instant, n: Instant, now: Instant)
    requires m <= now && n <= now && FourDigitYear(now) && !LexLess(FormatInstant(m), FormatInstant(n))
    ensures ValidTime(UtcOf(m)) && ValidTime(UtcOf(n))
    ensures m < n <==> Clash(UtcOf(m), UtcOf(n))
  {
    FourDigitYearBefore(m, now);
    FourDigitYearBefore(n, now);
    UtcOfInverse(m);
    UtcOfInverse(n);
    GoStringOrder(UtcOf(m), UtcOf(n));
  }

  // ---------- Whole runs ----------

  /** In every state of every run no row, and no committed operation, lacks a name or a type. */
  lemma FieldsNeverEmpty(render: Renderer, trace: seq<State>, steps: seq<Step>, i: nat)
    requires IsRun(render, trace, steps) && i < |trace|
    ensures forall u :: u in trace[i].db.rows ==> trace[i].db.rows[u].name != "" && trace[i].db.rows[u].kind != ""
    ensures forall n :: 0 <= n < |trace[i].db.ops| ==>
              trace[i].db.ops[n].row.name != "" && trace[i].db.ops[n].row.kind != "" && trace[i].db.ops[n].name != ""
  {
    RunInvariant(render, trace, steps, i);
    var db := trace[i].db;
    hide IsRun;
    forall u | u in db.rows ensures db.rows[u].name != "" && db.rows[u].kind != "" {
      RowFacts(db, u);
    }
    forall n | 0 <= n < |db.ops| ensures db.ops[n].row.name != "" && db.ops[n].row.kind != "" && db.ops[n].name != "" {
      assert OpOk(db, n);
    }
  }

  /** In every state of every run, the table and all replies are those of some sequential execution. */
  lemma RunsLinearize(render: Renderer, trace: seq<State>, steps: seq<Step>, i: nat)
    requires IsRun(render, trace, steps) && i < |trace|
    ensures Linearizable(trace[i].db)
  {
    RunInvariant(render, trace, steps, i);
  }

  /** In every state of every run: conservation, at most three copies, at least one when acknowledged. */
  lemma RunsConserve(render: Renderer, trace: seq<State>, steps: seq<Step>, i: nat, op: nat)
    requires IsRun(render, trace, steps) && i < |trace| && op < |trace[i].db.ops|
    ensures var pub := trace[i].pub;
            && |trace[i].db.ops| == |pub.tasks| + |EndedAs(pub, Published)| + |EndedAs(pub, GaveUp)| + |EndedAs(pub, Vanished)|
            && CopiesOf(pub.log, op) <= WorkOf(pub, op).attempts <= MAX_RETRIES
            && (op in EndedAs(pub, Published) ==> CopiesOf(pub.log, op) >= 1)
  {
    RunInvariant(render, trace, steps, i);
    Conservation(render, trace[i].db.ops, trace[i].db.now, trace[i].pub);
    CopiesBounded(render, trace[i].db.ops, trace[i].db.now, trace[i].pub, op);
    assert WorkOk(trace[i].db.ops, trace[i].db.now, trace[i].pub, op);
  }

  /**
   In every state of every run every stored event, Kafka- or HTTP-sourced, is
   valid, has an id of its own, and is returned by the queries for its own
   device id and its own type.
   */
  lemma StoredEventsAreFound(render: Renderer, trace: seq<State>, steps: seq<Step>, i: nat, k: nat,
                             byDevice: seq<Event>, byType: seq<Event>)
    requires IsRun(render, trace, steps) && i < |trace| && k < |trace[i].node.events|
    requires var stored, e := EventsOf(trace[i].node.events), trace[i].node.events[k].event;
             && IsAnswer(byDevice, stored, (x: Event) => x.deviceId == e.deviceId)
             && IsAnswer(byType, stored, (x: Event) => x.kind == e.kind)
    ensures var e := trace[i].node.events[k].event;
            && EventOk(e) && DistinctIds(trace[i].node.events)
            && DeviceQueryAllowed(Str(e.deviceId)) && e in byDevice
            && TypeQueryAllowed(Str(e.kind)) && e in byType
  {
    RunInvariant(render, trace, steps, i);
    var e := trace[i].node.events[k].event;
    assert StoredOk(trace[i].pub.log, trace[i].node.events[k]);
    assert EventsOf(trace[i].node.events)[k] == e;
    OwnQueriesFind(EventsOf(trace[i].node.events), e, byDevice, byType);
  }
}
