/**
 Concurrent requests against the device table. Every step is one SQL statement
 of one request; a request that needs two statements keeps what it found in
 its phase while other requests run. Committed operations are recorded in
 order, and every finished call is recorded at its last statement.
 */
module Requests {
  import opened Uuids
  import opened Devices

  /** What a request is about to execute, with the device it holds in memory. */
  datatype Phase =
    | SaveNext(device: Device)
    | UpdateNext(target: Device, found: Device, seen: nat)
    | DeleteNext(found: Device, seen: nat)

  datatype Request = Request(call: Call, phase: Phase, invokedAt: nat)

  /** A statement runs; or fails without effect; or runs but its answer is lost. */
  datatype Mode = Ran | NotRun | AnswerLost

  /** A finished call. `invokedAt` counts the calls finished before it began. */
  datatype Finished = Finished(call: Call, reply: Reply, mode: Mode, invokedAt: nat)

  /**
   A committed operation: the row it wrote or removed, and the id and name its
   event carries. `seen` counts the operations committed before the caller's `FindByID`.
   */
  datatype Op = Op(kind: EventKind, row: Device, deviceId: string, name: string, seen: nat)

  datatype Db = Db(
    rows: Table,
    requests: map<nat, Request>,
    minted: set<Uuid>,
    now: Instant,
    ops: seq<Op>,
    finished: seq<Finished>)

  datatype DbStep =
    | Tick(to: Instant)
    | BeginCreate(r: nat, name: string, kind: string, id: Uuid)
    | RunSave(r: nat, mode: Mode)
    | RunGet(text: string, mode: Mode)
    | FindForUpdate(r: nat, text: string, name: string, kind: string, mode: Mode)
    | RunUpdate(r: nat, mode: Mode)
    | FindForDelete(r: nat, text: string, mode: Mode)
    | RunDelete(r: nat, mode: Mode)
    | Crash

  /** The clock does not run backwards, generated ids are fresh, and a request runs its own next statement. */
  predicate DbEnabled(db: Db, step: DbStep) {
    match step
    case Tick(to) => db.now <= to
    case BeginCreate(r, _, _, id) => r !in db.requests && IsV4(id) && id !in db.minted
    case RunSave(r, _) => r in db.requests && db.requests[r].phase.SaveNext?
    case RunGet(_, _) => true
    case FindForUpdate(r, _, _, _, _) => r !in db.requests
    case RunUpdate(r, _) => r in db.requests && db.requests[r].phase.UpdateNext?
    case FindForDelete(r, _, _) => r !in db.requests
    case RunDelete(r, _) => r in db.requests && db.requests[r].phase.DeleteNext?
    case Crash => true
  }

  /** The caller's view of a read. */
  function Observed<T>(mode: Mode, r: Result<T>): Result<T> {
    if mode.Ran? then r else Err(DatabaseFailure)
  }

  /** A read whose answer is lost has had no effect. */
  function ReadMode(mode: Mode): Mode {
    if mode.Ran? then Ran else NotRun
  }

  /** A call that ends without having changed the table. */
  function Reject(db: Db, call: Call, e: Error, mode: Mode): Db {
    db.(finished := db.finished + [Finished(call, Failed(e), mode, |db.finished|)])
  }

  function Answer(r: Result<()>, ok: Reply): Reply {
    match r
    case Ok(_) => ok
    case Err(e) => Failed(e)
  }

  /** The last statement of request `r`, with its effect, its operation if it commits, and its reply. */
  function Complete(db: Db, r: nat, stmt: (Table, Result<()>), mode: Mode, op: Op, ok: Reply): Db
    requires r in db.requests
  {
    var req := db.requests[r];
    db.(requests := db.requests - {r},
        rows := if mode.NotRun? then db.rows else stmt.0,
        ops := if mode.NotRun? || stmt.1.Err? then db.ops else db.ops + [op],
        finished := db.finished + [Finished(req.call, Answer(Observed(mode, stmt.1), ok), mode, req.invokedAt)])
  }

  function DbNext(db: Db, step: DbStep): Db
    requires DbEnabled(db, step)
  {
    match step
    case Tick(to) => db.(now := to)
    case BeginCreate(r, name, kind, id) =>
      var call := Call.Create(name, kind, id, db.now);
      (match CheckFields(name, kind)
       case Some(e) => Reject(db, call, e, Ran)
       case None =>
         db.(minted := db.minted + {id},
             requests := db.requests[r := Request(call, SaveNext(Device(id, name, kind, db.now)), |db.finished|)]))
    case RunSave(r, mode) =>
      var d := db.requests[r].phase.device;
      Complete(db, r, SaveStmt(db.rows, d), mode,
               Op(Created, d, Print(d.id), d.name, |db.ops|), Returned(d))
    case RunGet(text, mode) =>
      (match Observed(mode, FindStmt(db.rows, text))
       case Err(e) => Reject(db, Call.Get(text), e, ReadMode(mode))
       case Ok(d) =>
         db.(finished := db.finished + [Finished(Call.Get(text), Returned(d), Ran, |db.finished|)]))
    case FindForUpdate(r, text, name, kind, mode) =>
      var call := Call.Update(text, name, kind);
      (match Observed(mode, FindStmt(db.rows, text))
       case Err(e) => Reject(db, call, e, ReadMode(mode))
       case Ok(d) =>
         match CheckFields(name, kind)
         case Some(e) => Reject(db, call, e, Ran)
         case None =>
           var target := d.(name := name, kind := kind);
           db.(requests := db.requests[r := Request(call, UpdateNext(target, d, |db.ops|), |db.finished|)]))
    case RunUpdate(r, mode) =>
      var d := db.requests[r].phase.target;
      var row := if d.id in db.rows then db.rows[d.id].(name := d.name, kind := d.kind) else d;
      Complete(db, r, UpdateStmt(db.rows, d), mode,
               Op(Updated, row, Print(d.id), d.name, db.requests[r].phase.seen), Returned(d))
    case FindForDelete(r, text, mode) =>
      (match Observed(mode, FindStmt(db.rows, text))
       case Err(e) => Reject(db, Call.Delete(text), e, ReadMode(mode))
       case Ok(d) =>
         db.(requests := db.requests[r := Request(Call.Delete(text), DeleteNext(d, |db.ops|), |db.finished|)]))
    case RunDelete(r, mode) =>
      var found, text := db.requests[r].phase.found, DeleteText(db.requests[r].call);
      var row := if found.id in db.rows then db.rows[found.id] else found;
      Complete(db, r, DeleteStmt(db.rows, text), mode,
               Op(Deleted, row, text, found.name, db.requests[r].phase.seen), Done)
    case Crash => db.(requests := map[])
  }

  function DeleteText(call: Call): string {
    if call.Delete? then call.text else ""
  }

  predicate DbInit(db: Db) {
    db.rows == map[] && db.requests == map[] && db.minted == {} && db.ops == [] && db.finished == []
  }

  // ---------- The table as a function of the committed operations ----------

  function Apply(rows: Table, op: Op): Table {
    if op.kind.Deleted? then rows - {op.row.id} else rows[op.row.id := op.row]
  }

  /** The table after the first `k` committed operations. */
  function RowsAfter(ops: seq<Op>, k: nat): Table
    requires k <= |ops|
  {
    if k == 0 then map[] else Apply(RowsAfter(ops, k - 1), ops[k - 1])
  }

  predicate UnusedBefore(ops: seq<Op>, k: nat, u: Uuid)
    requires k <= |ops|
  {
    forall j :: 0 <= j < k ==> ops[j].row.id != u
  }

  /** An update or a delete acts on a row that is there; an update keeps its creation time. */
  predicate Fits(rows: Table, op: Op) {
    && op.row.id in rows
    && var was := rows[op.row.id];
       op.row == if op.kind.Deleted? then was else was.(name := op.row.name, kind := op.row.kind)
  }

  /** Operation `k` is one the table allows: ids are created once, rows are changed only while present. */
  predicate LegalAt(ops: seq<Op>, k: nat)
    requires k < |ops|
  {
    if ops[k].kind.Created? then UnusedBefore(ops, k, ops[k].row.id) else Fits(RowsAfter(ops, k), ops[k])
  }

  predicate Legal(ops: seq<Op>) {
    forall k :: 0 <= k < |ops| ==> LegalAt(ops, k)
  }

  lemma {:induction false} AppendKeeps(ops: seq<Op>, op: Op, k: nat)
    requires k <= |ops|
    ensures RowsAfter(ops + [op], k) == RowsAfter(ops, k)
  {
    if k == 0 {
    } else {
      AppendKeeps(ops, op, k - 1);
    }
  }

  lemma LegalAppend(ops: seq<Op>, op: Op)
    requires Legal(ops)
    requires if op.kind.Created? then UnusedBefore(ops, |ops|, op.row.id) else Fits(RowsAfter(ops, |ops|), op)
    ensures Legal(ops + [op])
    ensures RowsAfter(ops + [op], |ops| + 1) == Apply(RowsAfter(ops, |ops|), op)
    ensures forall k :: 0 <= k <= |ops| ==> RowsAfter(ops + [op], k) == RowsAfter(ops, k)
  {
    var longer := ops + [op];
    forall k | 0 <= k <= |ops| ensures RowsAfter(longer, k) == RowsAfter(ops, k) {
      AppendKeeps(ops, op, k);
    }
    forall k | 0 <= k < |longer| ensures LegalAt(longer, k) {
      if k < |ops| { assert LegalAt(ops, k); }
    }
  }

  /** A row is in the table only if it was created, and is stored under its own id. */
  lemma {:induction false} RowHasCreator(ops: seq<Op>, k: nat, u: Uuid)
    requires k <= |ops| && u in RowsAfter(ops, k)
    ensures RowsAfter(ops, k)[u].id == u
    ensures exists j :: 0 <= j < k && !ops[j].kind.Deleted? && ops[j].row == RowsAfter(ops, k)[u]
  {
    var op := ops[k - 1];
    if op.row.id == u && !op.kind.Deleted? {
      assert ops[k - 1].row == RowsAfter(ops, k)[u];
    } else {
      RowHasCreator(ops, k - 1, u);
      var j :| 0 <= j < k - 1 && !ops[j].kind.Deleted? && ops[j].row == RowsAfter(ops, k - 1)[u];
      assert ops[j].row == RowsAfter(ops, k)[u];
    }
  }

  /** An id that some operation used is never created again. */
  lemma UsedIdNotCreated(ops: seq<Op>, j: nat, k: nat)
    requires Legal(ops) && j < k < |ops| && ops[j].row.id == ops[k].row.id
    ensures !ops[k].kind.Created?
  {
    assert LegalAt(ops, k);
  }

  /** A device that is in the table is not created later on. */
  lemma PresentNotCreated(ops: seq<Op>, a: nat, k: nat, u: Uuid)
    requires Legal(ops) && a <= k < |ops| && u in RowsAfter(ops, a)
    ensures !(ops[k].kind.Created? && ops[k].row.id == u)
  {
    RowHasCreator(ops, a, u);
    var j :| 0 <= j < a && !ops[j].kind.Deleted? && ops[j].row == RowsAfter(ops, a)[u];
    if ops[k].row.id == u {
      UsedIdNotCreated(ops, j, k);
    }
  }

  /** A device stays deleted. */
  lemma {:induction false} DeletedForever(ops: seq<Op>, i: nat, k: nat)
    requires Legal(ops) && i < k <= |ops| && ops[i].kind.Deleted?
    ensures ops[i].row.id !in RowsAfter(ops, k)
    decreases k
  {
    if i == k - 1 {
    } else {
      DeletedForever(ops, i, k - 1);
      assert LegalAt(ops, k - 1);
    }
  }

  /** Nothing happens to a device after its deletion; in particular it is deleted at most once. */
  lemma DeletedIsLast(ops: seq<Op>, i: nat, j: nat)
    requires Legal(ops) && i < |ops| && j < |ops|
    requires ops[i].kind.Deleted? && ops[j].row.id == ops[i].row.id
    ensures j <= i
  {
    if i < j {
      assert LegalAt(ops, j);
      DeletedForever(ops, i, j);
    }
  }

  /** The row a device has at one point keeps its creation time at every later one. */
  lemma {:induction false} CreatedAtImmutable(ops: seq<Op>, a: nat, k: nat, u: Uuid)
    requires Legal(ops) && a <= k <= |ops| && u in RowsAfter(ops, a) && u in RowsAfter(ops, k)
    ensures RowsAfter(ops, a)[u].createdAt == RowsAfter(ops, k)[u].createdAt
    decreases k
  {
    if a == k {
    } else {
      var op := ops[k - 1];
      assert LegalAt(ops, k - 1);
      PresentNotCreated(ops, a, k - 1, u);
      CreatedAtImmutable(ops, a, k - 1, u);
    }
  }

  /** The name the last update of `u` among operations `a` to `k` wrote, if there was one. */
  function LastNameWritten(ops: seq<Op>, a: nat, k: nat, u: Uuid): Option<string>
    requires a <= k <= |ops|
    decreases k
  {
    if a == k then None
    else if ops[k - 1].kind.Updated? && ops[k - 1].row.id == u then Some(ops[k - 1].row.name)
    else LastNameWritten(ops, a, k - 1, u)
  }

  /** Between two points at which it is present a device's name changes by updates only. */
  lemma {:induction false} NameFollowsUpdates(ops: seq<Op>, a: nat, k: nat, u: Uuid)
    requires Legal(ops) && a <= k <= |ops| && u in RowsAfter(ops, a) && u in RowsAfter(ops, k)
    ensures RowsAfter(ops, k)[u].name
         == match LastNameWritten(ops, a, k, u) case Some(name) => name case None => RowsAfter(ops, a)[u].name
    decreases k
  {
    if a == k {
    } else {
      var op := ops[k - 1];
      PresentNotCreated(ops, a, k - 1, u);
      assert LegalAt(ops, k - 1);
      if !(op.kind.Updated? && op.row.id == u) {
        NameFollowsUpdates(ops, a, k - 1, u);
      }
    }
  }

  /** Every operation on a device follows its creation and carries its creation time. */
  lemma CreationComesFirst(ops: seq<Op>, c: nat, i: nat)
    requires Legal(ops) && c < |ops| && i < |ops|
    requires ops[c].kind.Created? && ops[i].row.id == ops[c].row.id
    ensures c <= i && ops[i].row.createdAt == ops[c].row.createdAt
    ensures ops[i].kind.Created? ==> c == i
  {
    assert LegalAt(ops, c) && LegalAt(ops, i);
    if c < i {
      assert ops[c].row.id in RowsAfter(ops, c + 1);
      CreatedAtImmutable(ops, c + 1, i, ops[c].row.id);
    }
  }

  // ---------- Calls as atomic operations in the order they finished ----------

  /** The effect and the reply a finished call has when executed atomically. */
  function AtomicOutcome(rows: Table, f: Finished): (Table, Reply) {
    match f.mode
    case Ran => Atomic(rows, f.call)
    case NotRun => (rows, Failed(DatabaseFailure))
    case AnswerLost => (Atomic(rows, f.call).0, Failed(DatabaseFailure))
  }

  function TableAfter(finished: seq<Finished>, k: nat): Table
    requires k <= |finished|
  {
    if k == 0 then map[] else AtomicOutcome(TableAfter(finished, k - 1), finished[k - 1]).0
  }

  /** Call `k` got the reply of the atomic execution, at a point not before its invocation. */
  predicate ExplainedAt(finished: seq<Finished>, k: nat)
    requires k < |finished|
  {
    && finished[k].reply == AtomicOutcome(TableAfter(finished, k), finished[k]).1
    && finished[k].invokedAt <= k
  }

  /** The concurrent execution looks like its calls executed one at a time. */
  predicate Linearizable(db: Db) {
    && db.rows == TableAfter(db.finished, |db.finished|)
    && forall k :: 0 <= k < |db.finished| ==> ExplainedAt(db.finished, k)
  }

  lemma {:induction false} TablePrefix(finished: seq<Finished>, f: Finished, k: nat)
    requires k <= |finished|
    ensures TableAfter(finished + [f], k) == TableAfter(finished, k)
  {
    if k == 0 {
    } else {
      TablePrefix(finished, f, k - 1);
    }
  }

  lemma LinearizableAppend(db: Db, db': Db, f: Finished)
    requires Linearizable(db) && db'.finished == db.finished + [f]
    requires AtomicOutcome(db.rows, f) == (db'.rows, f.reply) && f.invokedAt <= |db.finished|
    ensures Linearizable(db')
  {
    forall k | 0 <= k <= |db.finished|
      ensures TableAfter(db'.finished, k) == TableAfter(db.finished, k)
    {
      TablePrefix(db.finished, f, k);
    }
    forall k | 0 <= k < |db'.finished| ensures ExplainedAt(db'.finished, k) {
      if k < |db.finished| { assert ExplainedAt(db.finished, k); }
    }
  }

  // ---------- Operations and the calls they stem from ----------

  /** A finished call that changed the table: its last statement ran, and the call as a whole succeeds. */
  predicate Effective(rows: Table, f: Finished) {
    !f.mode.NotRun? && !f.call.Get? && !Atomic(rows, f.call).1.Failed?
  }

  /** The positions of the effective ones among the first `n` finished calls. */
  function EffectiveCalls(finished: seq<Finished>, n: nat): (e: seq<nat>)
    requires n <= |finished|
    ensures forall i :: 0 <= i < |e| ==> e[i] < n
    ensures forall i, j :: 0 <= i < j < |e| ==> e[i] < e[j]
  {
    if n == 0 then []
    else EffectiveCalls(finished, n - 1) + (if Effective(TableAfter(finished, n - 1), finished[n - 1]) then [n - 1] else [])
  }

  /** The operation does what the call asked for, and its event carries what the call implies. */
  predicate Carries(call: Call, op: Op) {
    match call
    case Create(name, kind, id, at) =>
      op.kind.Created? && op.row == Device(id, name, kind, at) && op.deviceId == Print(id) && op.name == name
    case Get(_) => false
    case Update(text, name, kind) =>
      && op.kind.Updated? && Resolve(text) == Some(op.row.id) && op.row.name == name && op.row.kind == kind
      && op.deviceId == Print(op.row.id) && op.name == name
    case Delete(text) => op.kind.Deleted? && Resolve(text) == Some(op.row.id) && op.deviceId == text
  }

  /** The committed operations are those of the effective calls, one each and in the same order. */
  predicate OpsMatchCalls(db: Db) {
    var e := EffectiveCalls(db.finished, |db.finished|);
    && |e| == |db.ops|
    && forall n :: 0 <= n < |db.ops| ==> Carries(db.finished[e[n]].call, db.ops[n])
  }

  /** The finished call that committed operation `n`. */
  function CallOf(db: Db, n: nat): Finished
    requires OpsMatchCalls(db) && n < |db.ops|
  {
    db.finished[EffectiveCalls(db.finished, |db.finished|)[n]]
  }

  lemma {:induction false} EffectivePrefix(finished: seq<Finished>, f: Finished, n: nat)
    requires n <= |finished|
    ensures EffectiveCalls(finished + [f], n) == EffectiveCalls(finished, n)
  {
    if n == 0 {
    } else {
      EffectivePrefix(finished, f, n - 1);
      TablePrefix(finished, f, n - 1);
    }
  }

  lemma {:induction false} EffectiveMembers(finished: seq<Finished>, n: nat, k: nat)
    requires n <= |finished| && k < n
    ensures k in EffectiveCalls(finished, n) <==> Effective(TableAfter(finished, k), finished[k])
  {
    if k < n - 1 {
      EffectiveMembers(finished, n - 1, k);
    } else {
    }
  }

  /** A finishing call adds an operation of its own exactly if it is effective. */
  lemma MatchAppend(db: Db, db': Db, f: Finished)
    requires Linearizable(db) && OpsMatchCalls(db) && db'.finished == db.finished + [f]
    requires if Effective(db.rows, f)
             then |db'.ops| == |db.ops| + 1 && db.ops <= db'.ops && Carries(f.call, db'.ops[|db.ops|])
             else db'.ops == db.ops
    ensures OpsMatchCalls(db')
    ensures forall n :: 0 <= n < |db.ops| ==> CallOf(db', n) == CallOf(db, n)
    ensures |db.ops| < |db'.ops| ==> CallOf(db', |db.ops|) == f
  {
    hide Carries, Effective;
    EffectivePrefix(db.finished, f, |db.finished|);
    TablePrefix(db.finished, f, |db.finished|);
  }

  // ---------- Invariant ----------

  /** A time the clock has shown. */
  predicate Past(db: Db, t: Instant) {
    t <= db.now
  }

  /** `found` is the row the table held after the first `seen` operations. */
  predicate FoundThen(db: Db, found: Device, seen: nat) {
    && seen <= |db.ops|
    && found.id in RowsAfter(db.ops, seen)
    && found == RowsAfter(db.ops, seen)[found.id]
  }

  predicate UnusedId(db: Db, u: Uuid) {
    UnusedBefore(db.ops, |db.ops|, u)
  }

  predicate RequestOk(db: Db, req: Request) {
    && req.invokedAt <= |db.finished|
    && match req.phase
       case SaveNext(d) =>
         && req.call == Call.Create(d.name, d.kind, d.id, d.createdAt) && CheckFields(d.name, d.kind).None?
         && IsV4(d.id) && Past(db, d.createdAt) && d.id in db.minted && UnusedId(db, d.id)
       case UpdateNext(target, found, seen) =>
         && req.call.Update? && Resolve(req.call.text) == Some(found.id)
         && CheckFields(target.name, target.kind).None?
         && target == found.(name := req.call.name, kind := req.call.kind) && FoundThen(db, found, seen)
       case DeleteNext(found, seen) =>
         req.call.Delete? && Resolve(req.call.text) == Some(found.id) && FoundThen(db, found, seen)
  }

  /** No two requests are about to insert the same id. */
  predicate SavesDistinct(db: Db) {
    forall r, q :: r in db.requests && q in db.requests && r != q
      && db.requests[r].phase.SaveNext? && db.requests[q].phase.SaveNext?
      ==> db.requests[r].phase.device.id != db.requests[q].phase.device.id
  }

  /**
   What an operation at position `k` carries: a deletion has the name its row
   had when the caller found it; the others have their row's own name and id.
   */
  predicate SoundOp(db: Db, op: Op, k: nat)
    requires k <= |db.ops|
  {
    && IsV4(op.row.id) && op.row.id in db.minted && op.row.name != "" && op.row.kind != "" && op.name != ""
    && Past(db, op.row.createdAt)
    && Resolve(op.deviceId) == Some(op.row.id)
    && (if op.kind.Deleted?
        then op.seen <= k && op.row.id in RowsAfter(db.ops, op.seen) && op.name == RowsAfter(db.ops, op.seen)[op.row.id].name
        else op.name == op.row.name && op.deviceId == Print(op.row.id))
  }

  predicate OpOk(db: Db, k: nat)
    requires k < |db.ops|
  {
    SoundOp(db, db.ops[k], k)
  }

  /** The table is what the committed operations made of it. */
  predicate OpsOk(db: Db) {
    && Legal(db.ops) && db.rows == RowsAfter(db.ops, |db.ops|)
    && (forall k :: 0 <= k < |db.ops| ==> OpOk(db, k))
  }

  predicate DbInv(db: Db) {
    && OpsOk(db)
    && (forall r :: r in db.requests ==> RequestOk(db, db.requests[r]))
    && SavesDistinct(db)
    && Linearizable(db)
    && OpsMatchCalls(db)
  }

  lemma InitHolds(db: Db)
    requires DbInit(db)
    ensures DbInv(db)
  {
  }

  /** Steps that commit nothing keep what the operations and the waiting requests rely on. */
  lemma QuietStep(db: Db, db': Db)
    requires DbInv(db) && db.now <= db'.now
    requires db'.ops == db.ops && db'.rows == db.rows && db.minted <= db'.minted && |db.finished| <= |db'.finished|
    ensures Legal(db'.ops) && db'.rows == RowsAfter(db'.ops, |db'.ops|)
    ensures forall k :: 0 <= k < |db'.ops| ==> OpOk(db', k)
    ensures forall r :: r in db.requests ==> RequestOk(db', db.requests[r])
  {
    forall k | 0 <= k < |db'.ops| ensures OpOk(db', k) {
      assert OpOk(db, k);
    }
    forall r | r in db.requests ensures RequestOk(db', db.requests[r]) {
      assert RequestOk(db, db.requests[r]);
    }
  }

  lemma RejectKeeps(db: Db, call: Call, e: Error, mode: Mode)
    requires DbInv(db)
    requires AtomicOutcome(db.rows, Finished(call, Failed(e), mode, 0)) == (db.rows, Failed(e)) && !mode.AnswerLost?
    ensures DbInv(Reject(db, call, e, mode))
  {
    var db' := Reject(db, call, e, mode);
    QuietStep(db, db');
    var f := Finished(call, Failed(e), mode, |db.finished|);
    LinearizableAppend(db, db', f);
    MatchAppend(db, db', f);
  }

  /** An operation that may be committed next, by request `r`. */
  predicate Committable(db: Db, r: nat, op: Op) {
    && (if op.kind.Created?
        then r in db.requests && db.requests[r].phase.SaveNext? && op.row.id == db.requests[r].phase.device.id
             && UnusedId(db, op.row.id)
        else Fits(db.rows, op))
    && SoundOp(db, op, |db.ops|)
  }

  lemma CommitKeepsRequest(db: Db, r: nat, op: Op, db': Db, q: nat)
    requires DbInv(db) && Committable(db, r, op) && q in db.requests && q != r
    requires db'.ops == db.ops + [op] && db'.minted == db.minted && db'.now == db.now
    requires |db.finished| <= |db'.finished|
    ensures RequestOk(db', db.requests[q])
  {
    var req := db.requests[q];
    assert RequestOk(db, req);
    match req.phase {
      case SaveNext(d) =>
        if op.row.id == d.id && !op.kind.Created? {
          RowHasCreator(db.ops, |db.ops|, d.id);
        }
      case UpdateNext(_, found, seen) => AppendKeeps(db.ops, op, seen);
      case DeleteNext(found, seen) => AppendKeeps(db.ops, op, seen);
    }
  }

  lemma CommitKeepsOps(db: Db, r: nat, op: Op, db': Db)
    requires OpsOk(db) && Committable(db, r, op)
    requires db'.ops == db.ops + [op] && db'.minted == db.minted && db'.now == db.now
    requires db'.rows == Apply(db.rows, op)
    ensures OpsOk(db')
  {
    hide Resolve, Print, IsV4;
    LegalAppend(db.ops, op);
    forall k | 0 <= k < |db'.ops| ensures OpOk(db', k) {
      if k < |db.ops| { assert OpOk(db, k); } else { assert SoundOp(db, op, k); }
    }
  }

  /** The last statement of a request keeps the invariant when it has the effect of its call. */
  lemma CompleteKeeps(db: Db, r: nat, stmt: (Table, Result<()>), mode: Mode, op: Op, ok: Reply)
    requires DbInv(db) && r in db.requests
    requires stmt.0 == if stmt.1.Ok? then Apply(db.rows, op) else db.rows
    requires stmt.1.Ok? ==> Committable(db, r, op)
    requires Atomic(db.rows, db.requests[r].call) == (stmt.0, Answer(stmt.1, ok)) && !ok.Failed?
    requires stmt.1.Ok? ==> Carries(db.requests[r].call, op)
    ensures DbInv(Complete(db, r, stmt, mode, op, ok))
  {
    var db' := Complete(db, r, stmt, mode, op, ok);
    assert RequestOk(db, db.requests[r]);
    if mode.NotRun? || stmt.1.Err? {
      QuietStep(db, db');
    } else {
      CommitKeepsOps(db, r, op, db');
      forall q | q in db'.requests ensures RequestOk(db', db'.requests[q]) {
        CommitKeepsRequest(db, r, op, db', q);
      }
    }
    var f := db'.finished[|db.finished|];
    LinearizableAppend(db, db', f);
    assert !f.call.Get?;
    MatchAppend(db, db', f);
  }

  /** `INSERT` has the effect and the answer of the whole creation. */
  lemma SaveIsAtomic(db: Db, r: nat)
    requires DbInv(db) && r in db.requests && db.requests[r].phase.SaveNext?
    ensures var d := db.requests[r].phase.device;
            var stmt := SaveStmt(db.rows, d);
            Atomic(db.rows, db.requests[r].call) == (stmt.0, Answer(stmt.1, Returned(d)))
  {
    assert RequestOk(db, db.requests[r]);
  }

  /** `UPDATE` has the effect and the answer of a whole update run now: the held device is the current row, changed. */
  lemma UpdateIsAtomic(db: Db, r: nat)
    requires DbInv(db) && r in db.requests && db.requests[r].phase.UpdateNext?
    ensures var d := db.requests[r].phase.target;
            var stmt := UpdateStmt(db.rows, d);
            && Atomic(db.rows, db.requests[r].call) == (stmt.0, Answer(stmt.1, Returned(d)))
            && (d.id in db.rows ==> d == db.rows[d.id].(name := d.name, kind := d.kind))
  {
    var req := db.requests[r];
    assert RequestOk(db, req);
    var d := req.phase.target;
    if d.id in db.rows {
      CreatedAtImmutable(db.ops, req.phase.seen, |db.ops|, d.id);
      RowHasCreator(db.ops, |db.ops|, d.id);
    }
  }

  lemma DeleteIsAtomic(db: Db, r: nat)
    requires DbInv(db) && r in db.requests && db.requests[r].phase.DeleteNext?
    ensures var stmt := DeleteStmt(db.rows, DeleteText(db.requests[r].call));
            Atomic(db.rows, db.requests[r].call) == (stmt.0, Answer(stmt.1, Done))
  {
    var req := db.requests[r];
    assert RequestOk(db, req);
    if req.phase.found.id in db.rows {
      RowHasCreator(db.ops, |db.ops|, req.phase.found.id);
    }
  }

  /**
   Whatever ran since the request's first statement: its last one finishes the
   call with the effect and the reply of the whole call executed atomically.
   */
  lemma LastStatementIsAtomic(db: Db, step: DbStep)
    requires DbInv(db) && DbEnabled(db, step) && (step.RunSave? || step.RunUpdate? || step.RunDelete?)
    ensures var req, db' := db.requests[step.r], DbNext(db, step);
            && |db'.finished| == |db.finished| + 1 && db.finished <= db'.finished
            && var f := db'.finished[|db.finished|];
               && f.call == req.call && f.mode == step.mode && f.invokedAt == req.invokedAt
               && (db'.rows, f.reply) == AtomicOutcome(db.rows, f)
  {
    match step {
      case RunSave(r, _) => SaveIsAtomic(db, r);
      case RunUpdate(r, _) => UpdateIsAtomic(db, r);
      case RunDelete(r, _) => DeleteIsAtomic(db, r);
    }
  }

  lemma SaveKeeps(db: Db, r: nat, mode: Mode)
    requires DbInv(db) && DbEnabled(db, RunSave(r, mode))
    ensures DbInv(DbNext(db, RunSave(r, mode)))
  {
    var req := db.requests[r];
    assert RequestOk(db, req);
    var d := req.phase.device;
    if d.id in db.rows {
      RowHasCreator(db.ops, |db.ops|, d.id);
    }
    ResolvePrinted(d.id);
    SaveIsAtomic(db, r);
    CompleteKeeps(db, r, SaveStmt(db.rows, d), mode, Op(Created, d, Print(d.id), d.name, |db.ops|), Returned(d));
  }

  lemma UpdateKeeps(db: Db, r: nat, mode: Mode)
    requires DbInv(db) && DbEnabled(db, RunUpdate(r, mode))
    ensures DbInv(DbNext(db, RunUpdate(r, mode)))
  {
    var req := db.requests[r];
    assert RequestOk(db, req);
    var d, found, seen := req.phase.target, req.phase.found, req.phase.seen;
    var row := if d.id in db.rows then db.rows[d.id].(name := d.name, kind := d.kind) else d;
    var op := Op(Updated, row, Print(d.id), d.name, seen);
    UpdateIsAtomic(db, r);
    if d.id in db.rows {
      RowFacts(db, d.id);
    }
    ResolvePrinted(d.id);
    CompleteKeeps(db, r, UpdateStmt(db.rows, d), mode, op, Returned(d));
  }

  /** What the operations say about a row in the table. */
  lemma RowFacts(db: Db, u: Uuid)
    requires DbInv(db) && u in db.rows
    ensures db.rows[u].id == u && IsV4(u) && u in db.minted && Past(db, db.rows[u].createdAt)
    ensures db.rows[u].name != "" && db.rows[u].kind != ""
  {
    RowHasCreator(db.ops, |db.ops|, u);
    var j :| 0 <= j < |db.ops| && !db.ops[j].kind.Deleted? && db.ops[j].row == db.rows[u];
    assert OpOk(db, j);
  }

  lemma DeleteKeeps(db: Db, r: nat, mode: Mode)
    requires DbInv(db) && DbEnabled(db, RunDelete(r, mode))
    ensures DbInv(DbNext(db, RunDelete(r, mode)))
  {
    var req := db.requests[r];
    assert RequestOk(db, req);
    var found, seen, text := req.phase.found, req.phase.seen, req.call.text;
    var row := if found.id in db.rows then db.rows[found.id] else found;
    var op := Op(Deleted, row, text, found.name, seen);
    if found.id in db.rows {
      RowFacts(db, found.id);
      FoundName(db, found, seen);
    }
    DeleteIsAtomic(db, r);
    CompleteKeeps(db, r, DeleteStmt(db.rows, text), mode, op, Done);
  }

  lemma FoundName(db: Db, found: Device, seen: nat)
    requires DbInv(db) && FoundThen(db, found, seen)
    ensures found.name != ""
  {
    RowHasCreator(db.ops, seen, found.id);
    var j :| 0 <= j < seen && !db.ops[j].kind.Deleted? && db.ops[j].row == found;
    assert OpOk(db, j);
  }

  lemma BeginCreateKeeps(db: Db, r: nat, name: string, kind: string, id: Uuid)
    requires DbInv(db) && DbEnabled(db, BeginCreate(r, name, kind, id))
    ensures DbInv(DbNext(db, BeginCreate(r, name, kind, id)))
  {
    var call := Call.Create(name, kind, id, db.now);
    if CheckFields(name, kind).Some? {
      RejectKeeps(db, call, CheckFields(name, kind).value, Ran);
    } else {
      var db' := DbNext(db, BeginCreate(r, name, kind, id));
      QuietStep(db, db');
      forall k | 0 <= k < |db.ops| ensures db.ops[k].row.id != id {
        assert OpOk(db, k);
      }
      forall q | q in db.requests && db.requests[q].phase.SaveNext?
        ensures db.requests[q].phase.device.id != id
      {
        assert RequestOk(db, db.requests[q]);
      }
      assert RequestOk(db', db'.requests[r]);
    }
  }

  lemma GetKeeps(db: Db, text: string, mode: Mode)
    requires DbInv(db)
    ensures DbInv(DbNext(db, RunGet(text, mode)))
  {
    var db' := DbNext(db, RunGet(text, mode));
    QuietStep(db, db');
    LinearizableAppend(db, db', db'.finished[|db.finished|]);
    MatchAppend(db, db', db'.finished[|db.finished|]);
  }

  /** What `FindByID` returns is the current row of the id it resolved. */
  lemma FoundNow(db: Db, text: string)
    requires DbInv(db) && FindStmt(db.rows, text).Ok?
    ensures var d := FindStmt(db.rows, text).value;
            FoundThen(db, d, |db.ops|) && Resolve(text) == Some(d.id)
  {
    RowFacts(db, Resolve(text).value);
  }

  /** A request that goes on to a second statement. */
  lemma HoldKeeps(db: Db, r: nat, req: Request)
    requires DbInv(db) && r !in db.requests && RequestOk(db, req) && !req.phase.SaveNext?
    ensures DbInv(db.(requests := db.requests[r := req]))
  {
    var db' := db.(requests := db.requests[r := req]);
    QuietStep(db, db');
    assert RequestOk(db', req);
  }

  lemma FindForUpdateKeeps(db: Db, r: nat, text: string, name: string, kind: string, mode: Mode)
    requires DbInv(db) && DbEnabled(db, FindForUpdate(r, text, name, kind, mode))
    ensures DbInv(DbNext(db, FindForUpdate(r, text, name, kind, mode)))
  {
    var call := Call.Update(text, name, kind);
    var got := Observed(mode, FindStmt(db.rows, text));
    if got.Err? {
      RejectKeeps(db, call, got.error, ReadMode(mode));
    } else if CheckFields(name, kind).Some? {
      RejectKeeps(db, call, CheckFields(name, kind).value, Ran);
    } else {
      FoundNow(db, text);
      var d := got.value;
      HoldKeeps(db, r, Request(call, UpdateNext(d.(name := name, kind := kind), d, |db.ops|), |db.finished|));
    }
  }

  lemma FindForDeleteKeeps(db: Db, r: nat, text: string, mode: Mode)
    requires DbInv(db) && DbEnabled(db, FindForDelete(r, text, mode))
    ensures DbInv(DbNext(db, FindForDelete(r, text, mode)))
  {
    var call := Call.Delete(text);
    var got := Observed(mode, FindStmt(db.rows, text));
    if got.Err? {
      RejectKeeps(db, call, got.error, ReadMode(mode));
    } else {
      FoundNow(db, text);
      HoldKeeps(db, r, Request(call, DeleteNext(got.value, |db.ops|), |db.finished|));
    }
  }

  /** Every step of every request keeps the invariant. */
  lemma DbStepKeeps(db: Db, step: DbStep)
    requires DbInv(db) && DbEnabled(db, step)
    ensures DbInv(DbNext(db, step))
  {
    match step {
      case Tick(to) => QuietStep(db, DbNext(db, step));
      case BeginCreate(r, name, kind, id) => BeginCreateKeeps(db, r, name, kind, id);
      case RunSave(r, mode) => SaveKeeps(db, r, mode);
      case RunGet(text, mode) => GetKeeps(db, text, mode);
      case FindForUpdate(r, text, name, kind, mode) => FindForUpdateKeeps(db, r, text, name, kind, mode);
      case RunUpdate(r, mode) => UpdateKeeps(db, r, mode);
      case FindForDelete(r, text, mode) => FindForDeleteKeeps(db, r, text, mode);
      case RunDelete(r, mode) => DeleteKeeps(db, r, mode);
      case Crash => QuietStep(db, DbNext(db, step));
    }
  }

  /**
   Finished calls and committed operations correspond one to one and in order,
   each operation doing what its call asked for. Unless its answer was lost, a
   call committed one exactly if it is no read and did not fail; a call whose
   answer was lost was told of a failure, and committed one exactly if run
   atomically it would have succeeded.
   */
  lemma CallsCommitOperations(db: Db, k: nat)
    requires DbInv(db) && k < |db.finished|
    ensures var f, e := db.finished[k], EffectiveCalls(db.finished, |db.finished|);
            && |e| == |db.ops|
            && (forall n :: 0 <= n < |db.ops| ==> e[n] < |db.finished| && Carries(db.finished[e[n]].call, db.ops[n]))
            && (forall m, n :: 0 <= m < n < |e| ==> e[m] < e[n])
            && (if f.mode.AnswerLost?
                then
                  && f.reply == Failed(DatabaseFailure)
                  && (k in e <==> !f.call.Get? && !Atomic(TableAfter(db.finished, k), f.call).1.Failed?)
                else k in e <==> !f.call.Get? && !f.reply.Failed?)
            && (f.mode.NotRun? ==> f.reply == Failed(DatabaseFailure))
  {
    EffectiveMembers(db.finished, |db.finished|, k);
    assert ExplainedAt(db.finished, k);
  }
}
