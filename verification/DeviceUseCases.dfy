/**
 The Go use cases over a shared repository. Between the two statements of an
 update or a delete other requests may commit; each `Execute` therefore takes
 the calls that commit there, and is proved equal to one atomic call after them.
 */
module DeviceUseCases {
  import opened Uuids
  import opened Devices

  /** The in-memory device that use cases create, mutate and hand to the repository. */
  class DeviceEntity {
    const id: Uuid
    var name: string
    var kind: string
    const createdAt: Instant

    constructor (d: Device)
      ensures Value() == d
    {
      id, name, kind, createdAt := d.id, d.name, d.kind, d.createdAt;
    }

    function Value(): Device
      reads this
    {
      Device(id, name, kind, createdAt)
    }

    /** `Device.Update`: validates, then assigns name and type in place. */
    method Update(newName: string, newKind: string) returns (err: Option<Error>)
      modifies this
      ensures err == CheckFields(newName, newKind)
      ensures err == Some(NameRequired) <==> newName == ""
      ensures err == Some(TypeRequired) <==> newName != "" && newKind == ""
      ensures err == None <==> newName != "" && newKind != ""
      ensures Value() == if err.Some? then old(Value()) else old(Value()).(name := newName, kind := newKind)
    {
      if newName == "" {
        return Some(NameRequired);
      }
      if newKind == "" {
        return Some(TypeRequired);
      }
      name := newName;
      kind := newKind;
      return None;
    }
  }

  /** `PostgresDeviceRepository`: the `devices` table behind one connection pool. */
  class DeviceRepository {
    var rows: Table

    constructor ()
      ensures rows == map[]
    {
      rows := map[];
    }

    method Save(d: Device) returns (r: Result<()>)
      modifies this
      ensures (rows, r) == SaveStmt(old(rows), d)
      ensures r.Ok? <==> d.id !in old(rows)
      ensures forall u :: u in rows <==> u in old(rows) || (r.Ok? && u == d.id)
      ensures forall u :: u in rows && u in old(rows) ==> rows[u] == old(rows)[u]
    {
      if d.id in rows {
        return Err(DatabaseFailure);
      }
      rows := rows[d.id := d];
      return Ok(());
    }

    method FindByID(id: string) returns (r: Result<Device>)
      ensures r == FindStmt(rows, id)
      ensures r.Ok? <==> Resolve(id).Some? && Resolve(id).value in rows
    {
      var u := Resolve(id);
      if u.None? {
        return Err(DatabaseFailure);
      }
      if u.value !in rows {
        return Err(NotFound);
      }
      return Ok(rows[u.value]);
    }

    method Update(d: Device) returns (r: Result<()>)
      modifies this
      ensures (rows, r) == UpdateStmt(old(rows), d)
      ensures r.Ok? <==> d.id in old(rows)
      ensures rows.Keys == old(rows).Keys
      ensures forall u :: u in rows && u != d.id ==> rows[u] == old(rows)[u]
      ensures r.Ok? ==> rows[d.id].id == old(rows)[d.id].id && rows[d.id].createdAt == old(rows)[d.id].createdAt
    {
      var affected := 0;
      if d.id in rows {
        rows := rows[d.id := rows[d.id].(name := d.name, kind := d.kind)];
        affected := 1;
      }
      if affected == 0 {
        return Err(NotFound);
      }
      return Ok(());
    }

    method Delete(id: string) returns (r: Result<()>)
      modifies this
      ensures (rows, r) == DeleteStmt(old(rows), id)
      ensures r.Ok? <==> FindStmt(old(rows), id).Ok?
      ensures forall u :: u in rows <==> u in old(rows) && Resolve(id) != Some(u)
      ensures forall u :: u in rows ==> rows[u] == old(rows)[u]
    {
      var u := Resolve(id);
      if u.None? {
        return Err(DatabaseFailure);
      }
      var affected := 0;
      if u.value in rows {
        rows := rows - {u.value};
        affected := 1;
      }
      if affected == 0 {
        return Err(NotFound);
      }
      return Ok(());
    }

    /** What other requests commit while this one is between two statements. */
    method Interleave(others: seq<Call>)
      modifies this
      ensures rows == AtomicAll(old(rows), others)
    {
      for i := 0 to |others|
        invariant rows == AtomicAll(old(rows), others[..i])
      {
        assert others[..i + 1][..i] == others[..i];
        rows := Atomic(rows, others[i]).0;
      }
      assert others[..|others|] == others;
    }
  }

  /** The arguments of a detached publish; updates and deletes read the clock when it starts. */
  datatype Publication = Publication(kind: EventKind, deviceId: string, name: string, at: Option<Instant>)

  class UseCases {
    const repo: DeviceRepository
    /** Publishing goroutines started so far. */
    var spawned: seq<Publication>

    constructor (repo: DeviceRepository)
      ensures this.repo == repo && spawned == []
    {
      this.repo := repo;
      spawned := [];
    }

    /** `CreateDeviceUseCase.Execute`, drawing `id` and `now`. */
    method Create(name: string, kind: string, id: Uuid, now: Instant) returns (reply: Reply)
      modifies this, repo
      ensures (repo.rows, reply) == Atomic(old(repo.rows), Call.Create(name, kind, id, now))
      ensures reply == Failed(NameRequired) <==> name == ""
      ensures reply == Failed(TypeRequired) <==> name != "" && kind == ""
      ensures spawned == old(spawned) +
                if reply.Failed? then [] else [Publication(Created, Print(id), name, Some(now))]
    {
      var err := CheckFields(name, kind);
      if err.Some? {
        return Failed(err.value);
      }
      var device := Device(id, name, kind, now);
      var saved := repo.Save(device);
      if saved.Err? {
        return Failed(saved.error);
      }
      spawned := spawned + [Publication(Created, Print(device.id), device.name, Some(device.createdAt))];
      return Returned(device);
    }

    /** `GetDeviceUseCase.Execute`: what the repository finds, or its error. */
    method Get(id: string) returns (reply: Reply)
      ensures (repo.rows, reply) == Atomic(repo.rows, Call.Get(id))
      ensures forall d :: reply == Returned(d) <==> FindStmt(repo.rows, id) == Ok(d)
    {
      var found := repo.FindByID(id);
      if found.Err? {
        return Failed(found.error);
      }
      return Returned(found.value);
    }

    /**
     `UpdateDeviceUseCase.Execute` while `others` commit between its statements:
     its outcome is that of one atomic update at its last statement.
     */
    method Update(id: string, name: string, kind: string, others: seq<Call>) returns (reply: Reply)
      requires Keyed(repo.rows)
      requires Resolve(id).Some? ==> NeverCreates(others, Resolve(id).value)
      modifies this, repo
      ensures var reachesWrite := FindStmt(old(repo.rows), id).Ok? && CheckFields(name, kind).None?;
              var last := if reachesWrite then AtomicAll(old(repo.rows), others) else old(repo.rows);
              (repo.rows, reply) == Atomic(last, Call.Update(id, name, kind))
      ensures FindStmt(old(repo.rows), id).Ok? ==>
                && (reply == Failed(NameRequired) <==> name == "")
                && (reply == Failed(TypeRequired) <==> name != "" && kind == "")
      ensures spawned == old(spawned) +
                if reply.Failed? then [] else [Publication(Updated, Print(reply.device.id), name, None)]
      ensures !reply.Failed? ==> reply.Returned? && reply.device.id in repo.rows
                                 && reply.device == repo.rows[reply.device.id]
    {
      var found := repo.FindByID(id);
      if found.Err? {
        return Failed(found.error);
      }
      var device := new DeviceEntity(found.value);
      var invalid := device.Update(name, kind);
      if invalid.Some? {
        return Failed(invalid.value);
      }
      CreationTimeSurvives(repo.rows, others, device.id);
      repo.Interleave(others);
      var written := repo.Update(device.Value());
      if written.Err? {
        return Failed(written.error);
      }
      spawned := spawned + [Publication(Updated, Print(device.id), device.name, None)];
      return Returned(device.Value());
    }

    /**
     `DeleteDeviceUseCase.Execute` while `others` commit between its statements.
     The published name is the one found first; the published id is the
     caller's spelling of it.
     */
    method Delete(id: string, others: seq<Call>) returns (reply: Reply)
      requires Keyed(repo.rows)
      requires Resolve(id).Some? ==> NeverCreates(others, Resolve(id).value)
      modifies this, repo
      ensures var last := if FindStmt(old(repo.rows), id).Ok?
                          then AtomicAll(old(repo.rows), others) else old(repo.rows);
              (repo.rows, reply) == Atomic(last, Call.Delete(id))
      ensures reply.Failed? ==> spawned == old(spawned)
      ensures !reply.Failed? ==>
                && FindStmt(old(repo.rows), id).Ok?
                && var name := FindStmt(old(repo.rows), id).value.name;
                   spawned == old(spawned) + [Publication(Deleted, id, name, None)]
    {
      var found := repo.FindByID(id);
      if found.Err? {
        return Failed(found.error);
      }
      var device := found.value;
      CreationTimeSurvives(repo.rows, others, device.id);
      repo.Interleave(others);
      var deleted := repo.Delete(id);
      if deleted.Err? {
        return Failed(deleted.error);
      }
      spawned := spawned + [Publication(Deleted, id, device.name, None)];
      return Done;
    }
  }
}
