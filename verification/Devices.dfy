/**
 The device table: validation, the effect of each SQL statement, and the
 application calls as if each one ran alone.
 */
module Devices {
  import opened Uuids

  /** Nanoseconds on the Go service's monotone clock. */
  type Instant = nat

  datatype Device = Device(id: Uuid, name: string, kind: string, createdAt: Instant)

  datatype Error = NameRequired | TypeRequired | NotFound | DatabaseFailure

  datatype Result<+T> = Ok(value: T) | Err(error: Error)

  type Table = map<Uuid, Device>

  datatype EventKind = Created | Updated | Deleted

  /** Shared by `NewDevice` and `Device.Update`: the name is checked first. */
  function CheckFields(name: string, kind: string): Option<Error> {
    if name == "" then Some(NameRequired)
    else if kind == "" then Some(TypeRequired)
    else None
  }

  // ---------- SQL statements ----------

  /** `SELECT ... WHERE id = $1`; a text that is no UUID is a database error. */
  function FindStmt(rows: Table, id: string): Result<Device> {
    match Resolve(id)
    case None => Err(DatabaseFailure)
    case Some(u) => if u in rows then Ok(rows[u]) else Err(NotFound)
  }

  /** `INSERT`; the primary key refuses a second row of the same id. */
  function SaveStmt(rows: Table, d: Device): (Table, Result<()>) {
    if d.id in rows then (rows, Err(DatabaseFailure)) else (rows[d.id := d], Ok(()))
  }

  /** `UPDATE ... SET name, type`: leaves `created_at` alone. */
  function UpdateStmt(rows: Table, d: Device): (Table, Result<()>) {
    if d.id in rows
    then (rows[d.id := rows[d.id].(name := d.name, kind := d.kind)], Ok(()))
    else (rows, Err(NotFound))
  }

  function DeleteStmt(rows: Table, id: string): (Table, Result<()>) {
    match Resolve(id)
    case None => (rows, Err(DatabaseFailure))
    case Some(u) => if u in rows then (rows - {u}, Ok(())) else (rows, Err(NotFound))
  }

  // ---------- Calls as single atomic operations ----------

  /** A call with its arguments; for `Create` also the id and the time it draws. */
  datatype Call =
    | Create(name: string, kind: string, id: Uuid, at: Instant)
    | Get(text: string)
    | Update(text: string, name: string, kind: string)
    | Delete(text: string)

  /** What the caller is told. */
  datatype Reply = Returned(device: Device) | Done | Failed(error: Error)

  /** The reference: each call as one indivisible change of the table. */
  function Atomic(rows: Table, call: Call): (Table, Reply) {
    match call
    case Create(name, kind, id, at) =>
      (match CheckFields(name, kind)
       case Some(e) => (rows, Failed(e))
       case None =>
         if id in rows then (rows, Failed(DatabaseFailure))
         else (rows[id := Device(id, name, kind, at)], Returned(Device(id, name, kind, at))))
    case Get(text) =>
      (match FindStmt(rows, text)
       case Err(e) => (rows, Failed(e))
       case Ok(d) => (rows, Returned(d)))
    case Update(text, name, kind) =>
      (match FindStmt(rows, text)
       case Err(e) => (rows, Failed(e))
       case Ok(d) =>
         match CheckFields(name, kind)
         case Some(e) => (rows, Failed(e))
         case None =>
           var row := d.(name := name, kind := kind);
           (rows[d.id := row], Returned(row)))
    case Delete(text) =>
      match FindStmt(rows, text)
      case Err(e) => (rows, Failed(e))
      case Ok(d) => (rows - {d.id}, Done)
  }

  function AtomicAll(rows: Table, calls: seq<Call>): Table {
    if calls == [] then rows
    else Atomic(AtomicAll(rows, calls[..|calls| - 1]), calls[|calls| - 1]).0
  }

  /** Every row is stored under its own id. */
  predicate Keyed(rows: Table) {
    forall u :: u in rows ==> rows[u].id == u
  }

  // ---------- Answers ----------

  /**
   A creation is refused for its name exactly if that is empty, for its type
   exactly if only that is empty, and for its id exactly if the row exists;
   otherwise it returns and stores the device with the given fields.
   */
  lemma CreateAnswer(rows: Table, name: string, kind: string, id: Uuid, at: Instant)
    ensures var (after, reply) := Atomic(rows, Call.Create(name, kind, id, at));
            && (reply == Failed(NameRequired) <==> name == "")
            && (reply == Failed(TypeRequired) <==> name != "" && kind == "")
            && (reply == Failed(DatabaseFailure) <==> name != "" && kind != "" && id in rows)
            && (reply == Returned(Device(id, name, kind, at)) <==> name != "" && kind != "" && id !in rows)
            && after == if reply.Failed? then rows else rows[id := Device(id, name, kind, at)]
  {
  }

  /**
   An update fails like its lookup, and otherwise for an empty name before an
   empty type; else it returns and stores the found device with both replaced.
   */
  lemma UpdateAnswer(rows: Table, text: string, name: string, kind: string)
    requires Keyed(rows)
    ensures var (after, reply) := Atomic(rows, Call.Update(text, name, kind));
            match FindStmt(rows, text)
            case Err(e) => reply == Failed(e) && after == rows
            case Ok(d) =>
              && (reply == Failed(NameRequired) <==> name == "")
              && (reply == Failed(TypeRequired) <==> name != "" && kind == "")
              && (reply == Returned(Device(d.id, name, kind, d.createdAt)) <==> name != "" && kind != "")
              && after == if reply.Failed? then rows else rows[d.id := Device(d.id, name, kind, d.createdAt)]
  {
  }

  // ---------- What a lookup sees of the other statements ----------

  /**
   A lookup finds a device under every spelling of its id and under no other
   text; it reports a database error exactly for the texts that spell no id.
   */
  lemma FindFollowsSpelling(rows: Table, text: string, d: Device)
    requires Keyed(rows)
    ensures FindStmt(rows, text) == Ok(d) <==> Resolve(text) == Some(d.id) && FindStmt(rows, Print(d.id)) == Ok(d)
    ensures FindStmt(rows, text) == Err(DatabaseFailure) <==> Resolve(text) == None
    ensures Resolve(text).Some? ==> FindStmt(rows, text) == FindStmt(rows, Print(Resolve(text).value))
  {
    ResolvePrinted(d.id);
    if Resolve(text).Some? {
      ResolvePrinted(Resolve(text).value);
    }
  }

  /**
   A device can be saved exactly if its id finds nothing. Then every spelling
   of the id finds the saved device; all other lookups stay as they were.
   */
  lemma SavedIsFound(rows: Table, d: Device, text: string)
    ensures var (after, r) := SaveStmt(rows, d);
            && (r == Ok(()) <==> FindStmt(rows, Print(d.id)) == Err(NotFound))
            && (r.Err? ==> r.error == DatabaseFailure && after == rows)
            && FindStmt(after, text) == if r.Ok? && Resolve(text) == Some(d.id) then Ok(d) else FindStmt(rows, text)
  {
    ResolvePrinted(d.id);
  }

  /**
   An update succeeds exactly if the id finds a device. Then every spelling
   finds it with the new name and type and nothing else changed.
   */
  lemma UpdatedIsFound(rows: Table, d: Device, text: string)
    requires Keyed(rows)
    ensures var (after, r) := UpdateStmt(rows, d);
            && Keyed(after) && r.Ok? == FindStmt(rows, Print(d.id)).Ok?
            && (r.Err? ==> r.error == NotFound && after == rows)
            && FindStmt(after, text) == if r.Ok? && Resolve(text) == Some(d.id)
                                        then Ok(d.(createdAt := FindStmt(rows, text).value.createdAt))
                                        else FindStmt(rows, text)
  {
    ResolvePrinted(d.id);
  }

  /**
   A deletion fails like the lookup under the same text. If it succeeds no
   spelling of the id finds anything; all other lookups stay as they were.
   */
  lemma DeletedIsNotFound(rows: Table, id: string, text: string)
    ensures var (after, r) := DeleteStmt(rows, id);
            && (match FindStmt(rows, id)
                case Err(e) => r == Err(e) && after == rows
                case Ok(_) => r == Ok(()))
            && FindStmt(after, id).Err?
            && (r.Ok? ==> FindStmt(after, Print(Resolve(id).value)) == Err(NotFound))
            && FindStmt(after, text) == if r.Ok? && Resolve(text) == Resolve(id) then Err(NotFound)
                                        else FindStmt(rows, text)
  {
    if Resolve(id).Some? {
      ResolvePrinted(Resolve(id).value);
    }
  }

  /** A call that may change the row with id `u`. */
  predicate Addresses(call: Call, u: Uuid) {
    match call
    case Create(_, _, id, _) => id == u
    case Get(_) => false
    case Update(text, _, _) => Resolve(text) == Some(u)
    case Delete(text) => Resolve(text) == Some(u)
  }

  predicate Untouched(calls: seq<Call>, u: Uuid) {
    forall i :: 0 <= i < |calls| ==> !Addresses(calls[i], u)
  }

  /** Calls that do not address a device leave its row, or its absence, alone. */
  lemma {:induction false} UntouchedStays(rows: Table, calls: seq<Call>, u: Uuid)
    requires Keyed(rows) && Untouched(calls, u)
    ensures var after := AtomicAll(rows, calls);
            Keyed(after) && (u in after <==> u in rows) && (u in rows ==> after[u] == rows[u])
  {
    if calls == [] {
    } else {
      UntouchedStays(rows, calls[..|calls| - 1], u);
      assert !Addresses(calls[|calls| - 1], u);
    }
  }

  /**
   Read your writes: after a call that returned a device, and any calls that
   do not address it, a get under any spelling of its id returns exactly that
   device; after a deletion it is not found.
   */
  lemma GetSeesLastWrite(rows: Table, call: Call, others: seq<Call>, text: string)
    requires Keyed(rows) && Resolve(text).Some? && Untouched(others, Resolve(text).value)
    ensures var (after, reply) := Atomic(rows, call);
            var got := Atomic(AtomicAll(after, others), Call.Get(text)).1;
            && (reply.Returned? && Resolve(text) == Some(reply.device.id) ==> got == reply)
            && (reply.Done? && call.Delete? && Resolve(text) == Resolve(call.text) ==> got == Failed(NotFound))
            && (!Addresses(call, Resolve(text).value) ==> got == Atomic(rows, Call.Get(text)).1)
  {
    UntouchedStays(Atomic(rows, call).0, others, Resolve(text).value);
  }

  /** No call of the sequence creates a row with id `u`. */
  predicate NeverCreates(calls: seq<Call>, u: Uuid) {
    forall i :: 0 <= i < |calls| && calls[i].Create? ==> calls[i].id != u
  }

  /** While nobody creates `u` anew, its row keeps its creation time for as long as it exists. */
  lemma {:induction false} CreationTimeSurvives(rows: Table, calls: seq<Call>, u: Uuid)
    requires Keyed(rows) && u in rows && NeverCreates(calls, u)
    ensures var after := AtomicAll(rows, calls);
            Keyed(after) && (u in after ==> after[u].createdAt == rows[u].createdAt)
  {
    if calls == [] {
    } else {
      CreationTimeSurvives(rows, calls[..|calls| - 1], u);
    }
  }
}
