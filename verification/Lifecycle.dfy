/**
 Beginnings and ends over whole runs: at which step, with which arguments and
 at what time each request began; how each publish ends; what a crash takes
 away; and that nothing pending is ever stuck.
 */
module Lifecycle {
  import opened Text
  import opened Uuids
  import opened Devices
  import opened Requests
  import opened Events
  import opened Publishing
  import opened Pipeline

  // ---------- How requests begin ----------

  /** `step`, taken in `db`, is where the request was received: its arguments, what it found, the clock. */
  predicate Opens(db: Db, step: DbStep, req: Request) {
    && req.invokedAt == |db.finished|
    && match step
       case BeginCreate(_, name, kind, id) =>
         req.call == Call.Create(name, kind, id, db.now) && req.phase == SaveNext(Device(id, name, kind, db.now))
       case FindForUpdate(_, text, name, kind, _) =>
         && req.call == Call.Update(text, name, kind) && FindStmt(db.rows, text).Ok?
         && var found := FindStmt(db.rows, text).value;
            req.phase == UpdateNext(found.(name := name, kind := kind), found, |db.ops|)
       case FindForDelete(_, text, _) =>
         && req.call == Call.Delete(text) && FindStmt(db.rows, text).Ok?
         && req.phase == DeleteNext(FindStmt(db.rows, text).value, |db.ops|)
       case _ => false
  }

  /** `step`, taken in `db`, is where the call was received. */
  predicate Receives(db: Db, step: DbStep, call: Call) {
    match step
    case BeginCreate(_, name, kind, id) => call == Call.Create(name, kind, id, db.now)
    case RunGet(text, _) => call == Call.Get(text)
    case FindForUpdate(_, text, name, kind, _) => call == Call.Update(text, name, kind)
    case FindForDelete(_, text, _) => call == Call.Delete(text)
    case _ => false
  }

  /** The operation is the one the request received at `step` asked for. */
  predicate Requested(db: Db, step: DbStep, op: Op) {
    match step
    case BeginCreate(_, name, kind, id) =>
      op.kind.Created? && op.row == Device(id, name, kind, db.now) && op.name == name
    case FindForUpdate(_, text, name, kind, _) =>
      && op.kind.Updated? && Resolve(text) == Some(op.row.id) && op.row.name == op.name == name && op.row.kind == kind
      && op.seen == |db.ops|
    case FindForDelete(_, text, _) =>
      && op.kind.Deleted? && Resolve(text) == Some(op.row.id) && op.deviceId == text && op.seen == |db.ops|
      && FindStmt(db.rows, text).Ok? && op.name == FindStmt(db.rows, text).value.name
    case _ => false
  }

  /** A request waits only because of an earlier step of its own, or of this one. */
  lemma RequestsOpen(db: Db, step: DbStep, r: nat)
    requires DbEnabled(db, step) && r in DbNext(db, step).requests
    ensures var req := DbNext(db, step).requests[r];
            (r in db.requests && db.requests[r] == req) || Opens(db, step, req)
  {
    hide Resolve;
  }

  /** A call finishes at the step at which it was received, or as a waiting request. */
  lemma FinishedWaited(db: Db, step: DbStep, k: nat)
    requires DbEnabled(db, step) && |db.finished| <= k < |DbNext(db, step).finished|
    ensures var f := DbNext(db, step).finished[k];
            || (Receives(db, step, f.call) && f.invokedAt == |db.finished|)
            || (exists r :: r in db.requests && db.requests[r].call == f.call && db.requests[r].invokedAt == f.invokedAt)
  {
    hide Resolve;
  }

  /** A new operation does what a waiting request asks for. */
  lemma CommitsRequest(db: Db, step: DbStep) returns (r: nat)
    requires DbInv(db) && DbEnabled(db, step) && |DbNext(db, step).ops| > |db.ops|
    ensures |DbNext(db, step).ops| == |db.ops| + 1 && r in db.requests
    ensures var op := DbNext(db, step).ops[|db.ops|];
            && Carries(db.requests[r].call, op)
            && (op.kind.Created? ==> db.requests[r].phase.SaveNext? && op.row == db.requests[r].phase.device)
            && (op.kind.Updated? ==> db.requests[r].phase.UpdateNext? && op.seen == db.requests[r].phase.seen)
            && (op.kind.Deleted? ==> db.requests[r].phase.DeleteNext? && op.seen == db.requests[r].phase.seen
                                     && op.name == db.requests[r].phase.found.name)
  {
    assert step.RunSave? || step.RunUpdate? || step.RunDelete?;
    r := step.r;
    assert RequestOk(db, db.requests[r]);
    if step.RunUpdate? {
      UpdateIsAtomic(db, r);
      var d := db.requests[r].phase.target;
      if d.id in db.rows { RowFacts(db, d.id); }
    }
    if step.RunDelete? {
      var found := db.requests[r].phase.found;
      if found.id in db.rows { RowFacts(db, found.id); }
    }
  }

  lemma StartsEmpty(render: Renderer, trace: seq<State>, steps: seq<Step>)
    requires IsRun(render, trace, steps)
    ensures |trace| == |steps| + 1
    ensures trace[0].db.ops == [] && trace[0].db.finished == [] && trace[0].db.requests == map[]
  {
  }

  lemma {:induction false} WaitingBegan(render: Renderer, trace: seq<State>, steps: seq<Step>, i: nat, r: nat)
    returns (t: nat)
    requires IsRun(render, trace, steps) && i < |trace| && r in trace[i].db.requests
    ensures t < i <= |steps| && steps[t].OfDb? && Opens(trace[t].db, steps[t].db, trace[i].db.requests[r])
  {
    hide IsRun, Inv, Opens, DbNext;
    StartsEmpty(render, trace, steps);
    RunStep(render, trace, steps, i - 1);
    var s, step := trace[i - 1], steps[i - 1];
    if step.OfDb? {
      OwnStep(render, s, step.db);
      RequestsOpen(s.db, step.db, r);
    } else {
      assert trace[i].db == s.db;
    }
    hide Next, Enabled;
    if r in s.db.requests && s.db.requests[r] == trace[i].db.requests[r] {
      t := WaitingBegan(render, trace, steps, i - 1, r);
    } else {
      t := i - 1;
    }
  }

  lemma OpenedWasReceived(db: Db, step: DbStep, req: Request)
    requires Opens(db, step, req)
    ensures Receives(db, step, req.call) && req.invokedAt == |db.finished|
  {
  }

  /**
   Every finished call was received at some earlier step, with exactly these
   arguments, a creation with the time the clock then showed; `invokedAt` is
   the number of calls that had finished by then.
   */
  lemma {:induction false} FinishedCallsBegan(render: Renderer, trace: seq<State>, steps: seq<Step>, i: nat, k: nat)
    returns (t: nat)
    requires IsRun(render, trace, steps) && i < |trace| && k < |trace[i].db.finished|
    ensures t < i <= |steps| && steps[t].OfDb?
    ensures Receives(trace[t].db, steps[t].db, trace[i].db.finished[k].call)
    ensures trace[i].db.finished[k].invokedAt == |trace[t].db.finished|
  {
    hide IsRun, Inv, DbNext, Receives;
    StartsEmpty(render, trace, steps);
    RunStep(render, trace, steps, i - 1);
    var s, step := trace[i - 1], steps[i - 1];
    if step.OfDb? {
      OwnStep(render, s, step.db);
      CommitFinishes(s.db, step.db);
    } else {
      assert trace[i].db == s.db;
    }
    hide Next, Enabled;
    if k < |s.db.finished| {
      t := FinishedCallsBegan(render, trace, steps, i - 1, k);
    } else {
      FinishedWaited(s.db, step.db, k);
      var f := trace[i].db.finished[k];
      if Receives(s.db, step.db, f.call) && f.invokedAt == |s.db.finished| {
        t := i - 1;
      } else {
        var r: nat :| r in s.db.requests && s.db.requests[r].call == f.call && s.db.requests[r].invokedAt == f.invokedAt;
        t := WaitingBegan(render, trace, steps, i - 1, r);
        OpenedWasReceived(trace[t].db, steps[t].db, s.db.requests[r]);
      }
    }
  }

  lemma OpenedIsRequested(db: Db, step: DbStep, req: Request, op: Op)
    requires Opens(db, step, req) && Carries(req.call, op)
    requires op.kind.Created? ==> req.phase.SaveNext? && op.row == req.phase.device
    requires op.kind.Updated? ==> req.phase.UpdateNext? && op.seen == req.phase.seen
    requires op.kind.Deleted? ==> req.phase.DeleteNext? && op.seen == req.phase.seen && op.name == req.phase.found.name
    ensures Requested(db, step, op)
  {
    hide Resolve, Print;
  }

  lemma NewOperationBegan(render: Renderer, trace: seq<State>, steps: seq<Step>, i: nat) returns (t: nat)
    requires IsRun(render, trace, steps) && i < |steps| && steps[i].OfDb?
    requires |trace[i + 1].db.ops| > |trace[i].db.ops|
    ensures t < i <= |steps| < |trace| && |trace[i + 1].db.ops| == |trace[i].db.ops| + 1 && steps[t].OfDb?
    ensures Requested(trace[t].db, steps[t].db, trace[i + 1].db.ops[|trace[i].db.ops|])
  {
    RunStep(render, trace, steps, i);
    var db := trace[i].db;
    assert DbInv(db);
    OwnStep(render, trace[i], steps[i].db);
    hide IsRun, Inv, Requested, Opens, DbInv, Carries, Next, Enabled, DbNext, DbEnabled;
    var r := CommitsRequest(db, steps[i].db);
    t := WaitingBegan(render, trace, steps, i, r);
    OpenedIsRequested(trace[t].db, steps[t].db, db.requests[r], trace[i + 1].db.ops[|db.ops|]);
  }

  lemma OnlyDbCommits(render: Renderer, s: State, step: Step)
    requires Enabled(s, step)
    ensures s.db.ops <= Next(render, s, step).db.ops && |Next(render, s, step).db.ops| <= |s.db.ops| + 1
    ensures |Next(render, s, step).db.ops| > |s.db.ops| ==> step.OfDb?
  {
    if step.OfDb? {
      DbProgress(s.db, step.db);
    }
    hide DbNext, PubNext, NodeNext;
  }

  /**
   Every committed operation stems from a request received at an earlier step
   and does what that asked for: a creation carries the time the clock showed
   then, an update or a deletion counts the operations committed by then.
   */
  lemma {:induction false} OperationsBegan(render: Renderer, trace: seq<State>, steps: seq<Step>, i: nat, n: nat)
    returns (t: nat)
    requires IsRun(render, trace, steps) && i < |trace| && n < |trace[i].db.ops|
    ensures t < i <= |steps| && steps[t].OfDb? && Requested(trace[t].db, steps[t].db, trace[i].db.ops[n])
  {
    hide IsRun, Inv, Next, Enabled, Requested;
    StartsEmpty(render, trace, steps);
    RunStep(render, trace, steps, i - 1);
    OnlyDbCommits(render, trace[i - 1], steps[i - 1]);
    if n < |trace[i - 1].db.ops| {
      assert trace[i].db.ops[n] == trace[i - 1].db.ops[n];
      t := OperationsBegan(render, trace, steps, i - 1, n);
    } else {
      t := NewOperationBegan(render, trace, steps, i - 1);
    }
  }

  // ---------- How publishes end ----------

  /** All other tasks and endings stay as they are. */
  predicate OthersStay(pub: Pub, pub': Pub, i: nat) {
    && pub'.tasks - {i} == pub.tasks - {i}
    && pub'.ended - {i} == pub.ended - {i}
  }

  /**
   A write appends its record if it reached the topic. If it was acknowledged
   the publish has succeeded. If it failed with a transient error and was the
   first or second, the task goes on; after any other failure it has given up.
   */
  lemma WriteEnds(render: Renderer, s: State, i: nat, a: Attempt)
    requires Inv(render, s) && PubEnabled(s.db.ops, s.db.now, s.pub, Write(i, a))
    ensures var work, pub' := s.pub.tasks[i].work, PubNext(render, s.db.ops, s.db.now, s.pub, Write(i, a));
            && work.at.Some? && OthersStay(s.pub, pub', i)
            && pub'.log == s.pub.log + (if a.appended
                                        then [Entry(i, work.at.value, MessageFor(render, s.db.ops[i], work.at.value))] else [])
            && match a.reply
               case Written => i !in pub'.tasks && i in pub'.ended && pub'.ended[i].fate == Published
               case WriteFailed(text) =>
                 if Transient(text) && work.attempts < 2
                 then i in pub'.tasks && pub'.tasks[i] == Task(Writing, Work(work.at, work.attempts + 1)) && i !in pub'.ended
                 else i !in pub'.tasks && i in pub'.ended && pub'.ended[i].fate == GaveUp
  {
    if a.reply.WriteFailed? {
      RetriableIsTransient(a.reply.text);
    }
    assert i !in s.pub.ended;
    hide Transient, IsRetriable, DbInv, NodeInv;
  }

  /** A panic gives up without a further write. */
  lemma PanicEnds(render: Renderer, s: State, i: nat)
    requires Inv(render, s) && PubEnabled(s.db.ops, s.db.now, s.pub, Panic(i))
    ensures var pub' := PubNext(render, s.db.ops, s.db.now, s.pub, Panic(i));
            && OthersStay(s.pub, pub', i) && pub'.log == s.pub.log
            && i !in pub'.tasks && i in pub'.ended && pub'.ended[i] == Ending(GaveUp, s.pub.tasks[i].work)
  {
  }

  // ---------- What a crash takes away ----------

  /** A crash of the Go service keeps rows, operations, topic and store, and ends every request and every publish. */
  lemma CrashTakes(render: Renderer, s: State)
    ensures Enabled(s, OfDb(Crash))
    ensures var s' := Next(render, s, OfDb(Crash));
            && s'.db == s.db.(requests := map[]) && s'.node == s.node
            && s'.pub.log == s.pub.log && s'.pub.tasks == map[]
            && (forall i :: i in s.pub.tasks ==>
                  i in s'.pub.ended && s'.pub.ended[i] == Ending(Vanished, s.pub.tasks[i].work))
            && (forall i :: i in s.pub.ended && i !in s.pub.tasks ==>
                  i in s'.pub.ended && s'.pub.ended[i] == s.pub.ended[i])
  {
  }

  lemma EndedStep(render: Renderer, s: State, step: Step, i: nat)
    requires Inv(render, s) && Enabled(s, step) && i in s.pub.ended
    ensures var s' := Next(render, s, step);
            && i in s'.pub.ended && s'.pub.ended[i] == s.pub.ended[i] && s.pub.log <= s'.pub.log
            && forall a :: |s.pub.log| <= a < |s'.pub.log| ==> s'.pub.log[a].op != i
  {
    assert i !in s.pub.tasks && i < |s.db.ops|;
    hide DbInv, PubInv, NodeInv, LostAreSilent, DbNext, NodeNext;
    StepAppends(render, s, step);
  }

  /** A publish that has ended appends nothing any more. */
  lemma {:induction false} EndedStays(render: Renderer, trace: seq<State>, steps: seq<Step>, t: nat, u: nat, i: nat)
    requires IsRun(render, trace, steps) && t <= u < |trace| && i in trace[t].pub.ended
    ensures i in trace[u].pub.ended && trace[u].pub.ended[i] == trace[t].pub.ended[i]
    ensures trace[t].pub.log <= trace[u].pub.log
    ensures forall a :: |trace[t].pub.log| <= a < |trace[u].pub.log| ==> trace[u].pub.log[a].op != i
    decreases u
  {
    hide IsRun, Inv, Next, Enabled;
    if t == u {
    } else {
      EndedStays(render, trace, steps, t, u - 1, i);
      RunStep(render, trace, steps, u - 1);
      EndedStep(render, trace[u - 1], steps[u - 1], i);
    }
  }

  /** A publish that a crash interrupts never writes again: what it has in the topic by then is all there will be. */
  lemma CrashLosesPublishes(render: Renderer, trace: seq<State>, steps: seq<Step>, t: nat, u: nat, i: nat)
    requires IsRun(render, trace, steps) && t < u < |trace| && steps[t] == OfDb(Crash) && i in trace[t].pub.tasks
    ensures i in trace[u].pub.ended && trace[u].pub.ended[i].fate == Vanished
    ensures trace[t].pub.log <= trace[u].pub.log
    ensures forall a :: |trace[t].pub.log| <= a < |trace[u].pub.log| ==> trace[u].pub.log[a].op != i
  {
    RunStep(render, trace, steps, t);
    CrashTakes(render, trace[t]);
    EndedStays(render, trace, steps, t + 1, u, i);
  }

  // ---------- What the consumer and the event endpoint store ----------

  /**
   A delivery always moves on to the next record. It appends the record's event
   if the type is one of the three, the id a version-4 UUID, the name visible
   and the timestamp non-empty, and the insertion works; otherwise nothing.
   */
  lemma DeliveryStores(render: Renderer, s: State, id: string, inserted: bool)
    requires Enabled(s, OfNode(Deliver(id, inserted)))
    ensures var s', p := Next(render, s, OfNode(Deliver(id, inserted))), s.node.position.value;
            && s'.db == s.db && s'.pub == s.pub
            && s'.node.position == Some(p + 1) && s'.node.committed == s.node.committed
            && p < |s.pub.log|
            && var m := s.pub.log[p].message;
               s'.node.events == s.node.events + (
                 if inserted && m.kind in {"device.created", "device.updated", "device.deleted"}
                    && MatchesV4(m.deviceId) && !Blank(m.name) && m.timestamp != ""
                 then [Stored(Event(id, m.kind, m.deviceId, m.name, m.timestamp, None, None), FromKafka(p))] else [])
  {
  }

  /** A valid posted event is appended as it is, and moves nothing else. */
  lemma PostStores(render: Renderer, s: State, e: Event)
    requires !Blank(e.kind) && MatchesV4(e.deviceId) && !Blank(e.name) && e.timestamp != "" && FreshEventId(s.node, e.id)
    ensures Enabled(s, OfNode(Post(e)))
    ensures Next(render, s, OfNode(Post(e)))
         == s.(node := s.node.(events := s.node.events + [Stored(e, FromHttp)]))
  {
  }

  // ---------- Nothing is stuck ----------

  /**
   In every state new requests of any kind and with any arguments can arrive,
   time can pass, the service can crash, a started publish can panic, and the
   consumer can stop, start when stopped, commit anything it has come past in
   its session, and deliver the next record with either outcome.
   */
  lemma AnythingCanHappen(s: State, r: nat, text: string, name: string, kind: string, id: Uuid, mode: Mode,
                          to: Instant, i: nat, c: nat, eventId: string, inserted: bool)
    ensures r !in s.db.requests ==>
              && Enabled(s, OfDb(FindForUpdate(r, text, name, kind, mode)))
              && Enabled(s, OfDb(FindForDelete(r, text, mode)))
              && (IsV4(id) && id !in s.db.minted ==> Enabled(s, OfDb(BeginCreate(r, name, kind, id))))
    ensures Enabled(s, OfDb(RunGet(text, mode))) && Enabled(s, OfDb(Crash))
    ensures s.db.now <= to ==> Enabled(s, OfDb(Tick(to)))
    ensures i in s.pub.tasks && i < |s.db.ops| && s.pub.tasks[i].stage != Committed ==> Enabled(s, OfPub(Panic(i)))
    ensures Enabled(s, OfNode(StopConsumer))
    ensures match s.node.position
            case None => Enabled(s, OfNode(StartConsumer))
            case Some(p) =>
              && (s.node.started <= c <= p ==> Enabled(s, OfNode(CommitOffset(c))))
              && (p < |s.pub.log| && FreshEventId(s.node, eventId) ==> Enabled(s, OfNode(Deliver(eventId, inserted))))
  {
  }

  /** The statement a waiting request runs next. */
  function NextStatement(req: Request, r: nat, mode: Mode): DbStep {
    match req.phase
    case SaveNext(_) => RunSave(r, mode)
    case UpdateNext(_, _, _) => RunUpdate(r, mode)
    case DeleteNext(_, _) => RunDelete(r, mode)
  }

  /** The step a publish takes next. */
  function NextMove(task: Task, k: nat, a: Attempt): PubStep {
    match task.stage
    case Committed => Spawn(k)
    case Spawned => BuildPayload(k)
    case Writing => Write(k, a)
  }

  lemma RequestRuns(s: State, r: nat, mode: Mode)
    ensures r in s.db.requests ==> Enabled(s, OfDb(NextStatement(s.db.requests[r], r, mode)))
  {
  }

  lemma TaskMoves(render: Renderer, s: State, k: nat, a: Attempt)
    requires Inv(render, s) && Honest(a)
    ensures k in s.pub.tasks ==> Enabled(s, OfPub(NextMove(s.pub.tasks[k], k, a)))
  {
    hide DbInv, PubInv, NodeInv, LostAreSilent, PubEnabled;
    if k in s.pub.tasks {
      PublishMoves(render, s, k, a);
    }
  }

  lemma PublishMoves(render: Renderer, s: State, k: nat, a: Attempt)
    requires PubInv(render, s.db.ops, s.db.now, s.pub) && k in s.pub.tasks && Honest(a)
    ensures PubEnabled(s.db.ops, s.db.now, s.pub, NextMove(s.pub.tasks[k], k, a))
  {
    assert k < |s.db.ops|;
    assert WorkOk(s.db.ops, s.db.now, s.pub, k);
  }

  /**
   In every state of every run a waiting request can run its statement with
   every outcome, and a publish can take its next step, a write with every outcome.
   */
  lemma NothingIsStuck(render: Renderer, trace: seq<State>, steps: seq<Step>, i: nat,
                       r: nat, mode: Mode, k: nat, a: Attempt)
    requires IsRun(render, trace, steps) && i < |trace| && Honest(a)
    ensures r in trace[i].db.requests ==> Enabled(trace[i], OfDb(NextStatement(trace[i].db.requests[r], r, mode)))
    ensures k in trace[i].pub.tasks ==> Enabled(trace[i], OfPub(NextMove(trace[i].pub.tasks[k], k, a)))
  {
    hide IsRun, Inv, Enabled;
    RunInvariant(render, trace, steps, i);
    RequestRuns(trace[i], r, mode);
    TaskMoves(render, trace[i], k, a);
  }
}
