/**
 The tenant-scoped repository over the vehicle-block table, with the table's constraints and the
 session bracket that commits a whole request or rolls it back.

 The session's view of the table is `working`; `committed` is what other sessions see.
 */
module Repository {
  import opened Wrappers

  type Id = string
  type Tenant = string

  datatype Block = Block(
    tenant: Tenant,
    vehicle: string,
    start: int,
    end: int,
    payload: string,
    createdAt: int,
    updatedAt: int,
    deletedAt: Option<int>)

  type Table = map<Id, Block>

  datatype Error = NotFound | Integrity

  /** The columns a caller may pass to `create`; the tenant is not among them. */
  datatype NewBlock = NewBlock(
    vehicle: string, start: int, end: int, payload: string, createdAt: int, updatedAt: int, deletedAt: Option<int>)

  /** The columns a caller may pass to `update`: any at all, the key, the tenant and `deleted_at` included. */
  datatype Patch = Patch(
    id: Option<Id>,
    tenant: Option<Tenant>,
    vehicle: Option<string>,
    start: Option<int>,
    end: Option<int>,
    payload: Option<string>,
    createdAt: Option<int>,
    deletedAt: Option<Option<int>>)

  predicate Live(b: Block) {
    b.deletedAt == None
  }

  /** The filter on every query of the repository. */
  predicate Visible(b: Block, tenant: Tenant) {
    b.tenant == tenant && Live(b)
  }

  /** The exclusion constraint's operators: same vehicle, overlapping half-open ranges, both live. */
  predicate Conflict(a: Block, b: Block) {
    Live(a) && Live(b) && a.vehicle == b.vehicle && a.start < b.end && b.start < a.end
  }

  /** The row may be stored next to the rows of `t`. */
  predicate Admissible(t: Table, b: Block) {
    b.end > b.start && forall id :: id in t ==> !Conflict(b, t[id])
  }

  function MakeBlock(tenant: Tenant, n: NewBlock): Block {
    Block(tenant, n.vehicle, n.start, n.end, n.payload, n.createdAt, n.updatedAt, n.deletedAt)
  }

  function Or<T>(o: Option<T>, otherwise: T): T {
    if o.Some? then o.value else otherwise
  }

  function Patched(b: Block, p: Patch, now: int): Block {
    Block(Or(p.tenant, b.tenant), Or(p.vehicle, b.vehicle), Or(p.start, b.start), Or(p.end, b.end),
          Or(p.payload, b.payload), Or(p.createdAt, b.createdAt), now, Or(p.deletedAt, b.deletedAt))
  }

  datatype Op =
    | Create(id: Id, fields: NewBlock)
    | Update(id: Id, patch: Patch, now: int)
    | SoftDelete(id: Id, now: int)
    | HardDelete(id: Id)

  /** What a call leaves in the session, and what it raises. */
  datatype Effect = Effect(table: Table, error: Option<Error>)

  function Exec(t: Table, tenant: Tenant, op: Op): Effect {
    match op
    case Create(id, fields) =>
      var b := MakeBlock(tenant, fields);
      if id in t || !Admissible(t, b) then Effect(t, Some(Integrity)) else Effect(t[id := b], None)
    case Update(id, patch, now) =>
      if id !in t || !Visible(t[id], tenant) then Effect(t, Some(NotFound))
      else
        var key, b, rest := Or(patch.id, id), Patched(t[id], patch, now), t - {id};
        if key in rest || !Admissible(rest, b) then Effect(t, Some(Integrity))
        else
          var next := rest[key := b];
          Effect(next, if id in next && Visible(next[id], tenant) then None else Some(NotFound))
    case SoftDelete(id, now) =>
      if id in t && Visible(t[id], tenant) then Effect(t[id := t[id].(deletedAt := Some(now))], None)
      else Effect(t, None)
    case HardDelete(id) =>
      if id in t && Visible(t[id], tenant) then Effect(t - {id}, None) else Effect(t, Some(NotFound))
  }

  /** The calls of one request in order, up to the first that raises. */
  function ExecAll(t: Table, tenant: Tenant, ops: seq<Op>): Effect {
    if ops == [] then Effect(t, None)
    else
      var before := ExecAll(t, tenant, ops[..|ops| - 1]);
      if before.error.Some? then before else Exec(before.table, tenant, ops[|ops| - 1])
  }

  /** The session bracket: everything or nothing. */
  function Transaction(t: Table, tenant: Tenant, ops: seq<Op>): Table {
    var e := ExecAll(t, tenant, ops);
    if e.error == None then e.table else t
  }

  class Session {
    var committed: Table
    var working: Table

    constructor ()
      ensures committed == map[] && working == map[]
    {
      committed, working := map[], map[];
    }

    method Commit()
      modifies this
      ensures committed == working == old(working)
    {
      committed := working;
    }

    method Rollback()
      modifies this
      ensures committed == working == old(committed)
    {
      working := committed;
    }
  }

  class BlockRepository {
    const session: Session
    const tenant: Tenant

    constructor (session: Session, tenant: Tenant)
      ensures this.session == session && this.tenant == tenant
    {
      this.session, this.tenant := session, tenant;
    }

    method Get(id: Id) returns (b: Option<Block>)
      ensures b.Some? <==> id in session.working && Visible(session.working[id], tenant)
      ensures b.Some? ==> b.value == session.working[id]
    {
      b := if id in session.working && Visible(session.working[id], tenant) then Some(session.working[id]) else None;
    }

    method Count() returns (n: nat)
      ensures n == |set id | id in session.working && Visible(session.working[id], tenant)|
    {
      n := |set id | id in session.working && Visible(session.working[id], tenant)|;
    }

    method CreateBlock(id: Id, fields: NewBlock) returns (error: Option<Error>)
      modifies session`working
      ensures Effect(session.working, error) == Exec(old(session.working), tenant, Create(id, fields))
    {
      var b := MakeBlock(tenant, fields);
      if id in session.working || !Admissible(session.working, b) {
        return Some(Integrity);
      }
      session.working := session.working[id := b];
      error := None;
    }

    /** The statement touches a row only under the tenant filter; the closing read is under it too. */
    method UpdateBlock(id: Id, patch: Patch, now: int) returns (error: Option<Error>)
      modifies session`working
      ensures Effect(session.working, error) == Exec(old(session.working), tenant, Update(id, patch, now))
    {
      if id in session.working && Visible(session.working[id], tenant) {
        var key := Or(patch.id, id);
        var b := Patched(session.working[id], patch, now);
        var rest := session.working - {id};
        if key in rest || !Admissible(rest, b) {
          return Some(Integrity);
        }
        session.working := rest[key := b];
      }
      var found := Get(id);
      error := if found.None? then Some(NotFound) else None;
    }

    method SoftDeleteBlock(id: Id, now: int)
      modifies session`working
      ensures Effect(session.working, None) == Exec(old(session.working), tenant, SoftDelete(id, now))
    {
      if id in session.working && Visible(session.working[id], tenant) {
        session.working := session.working[id := session.working[id].(deletedAt := Some(now))];
      }
    }

    method HardDeleteBlock(id: Id) returns (error: Option<Error>)
      modifies session`working
      ensures Effect(session.working, error) == Exec(old(session.working), tenant, HardDelete(id))
    {
      var found := Get(id);
      if found.None? {
        return Some(NotFound);
      }
      session.working := session.working - {id};
      error := None;
    }

    /** A request in its session: the first error rolls back, otherwise the end commits. */
    method HandleRequest(ops: seq<Op>) returns (error: Option<Error>)
      requires session.working == session.committed
      modifies session
      ensures session.committed == session.working == Transaction(old(session.committed), tenant, ops)
      ensures error == ExecAll(old(session.committed), tenant, ops).error
    {
      error := None;
      var i := 0;
      while i < |ops|
        invariant 0 <= i <= |ops|
        invariant session.committed == old(session.committed)
        invariant error == None
        invariant Effect(session.working, None) == ExecAll(old(session.committed), tenant, ops[..i])
      {
        assert ops[..i + 1][..i] == ops[..i];
        match ops[i] {
          case Create(id, fields) => error := CreateBlock(id, fields);
          case Update(id, patch, now) => error := UpdateBlock(id, patch, now);
          case SoftDelete(id, now) => SoftDeleteBlock(id, now);
          case HardDelete(id) => error := HardDeleteBlock(id);
        }
        i := i + 1;
        if error.Some? {
          ErrorStops(old(session.committed), tenant, ops, i);
          session.Rollback();
          return;
        }
      }
      assert ops[..|ops|] == ops;
      session.Commit();
    }
  }

  lemma {:induction false} ErrorStops(t: Table, tenant: Tenant, ops: seq<Op>, i: nat)
    requires i <= |ops| && ExecAll(t, tenant, ops[..i]).error.Some?
    ensures ExecAll(t, tenant, ops) == ExecAll(t, tenant, ops[..i])
    decreases |ops|
  {
    if i == |ops| {
      assert ops[..i] == ops;
    } else {
      assert ops[..|ops| - 1][..i] == ops[..i];
      ErrorStops(t, tenant, ops[..|ops| - 1], i);
    }
  }

  // ---- The calendar's invariant ----

  ghost predicate NoConflicts(t: Table) {
    && (forall id :: id in t ==> t[id].end > t[id].start)
    && (forall i, j :: i in t && j in t && i != j ==> !Conflict(t[i], t[j]))
  }

  lemma ExecKeepsNoConflicts(t: Table, tenant: Tenant, op: Op)
    requires NoConflicts(t)
    ensures NoConflicts(Exec(t, tenant, op).table)
  {
    match op {
      case Create(id, fields) =>
        var b := MakeBlock(tenant, fields);
        if Admissible(t, b) && id !in t {
          AddKeepsNoConflicts(t, id, b);
        }
      case Update(id, patch, now) =>
        if id in t && Visible(t[id], tenant) {
          var key, b, rest := Or(patch.id, id), Patched(t[id], patch, now), t - {id};
          if Admissible(rest, b) && key !in rest {
            AddKeepsNoConflicts(rest, key, b);
          }
        }
      case SoftDelete(_, _) =>
      case HardDelete(_) =>
    }
  }

  lemma AddKeepsNoConflicts(t: Table, id: Id, b: Block)
    requires NoConflicts(t) && id !in t && Admissible(t, b)
    ensures NoConflicts(t[id := b])
  {
    forall j | j in t ensures !Conflict(b, t[j]) && !Conflict(t[j], b) {
    }
  }

  lemma {:induction false} RequestKeepsNoConflicts(t: Table, tenant: Tenant, ops: seq<Op>)
    requires NoConflicts(t)
    ensures NoConflicts(ExecAll(t, tenant, ops).table)
  {
    if ops != [] {
      RequestKeepsNoConflicts(t, tenant, ops[..|ops| - 1]);
      ExecKeepsNoConflicts(ExecAll(t, tenant, ops[..|ops| - 1]).table, tenant, ops[|ops| - 1]);
    }
  }

  datatype Request = Request(tenant: Tenant, ops: seq<Op>)

  function Serve(requests: seq<Request>): Table {
    if requests == [] then map[]
    else Transaction(Serve(requests[..|requests| - 1]), requests[|requests| - 1].tenant, requests[|requests| - 1].ops)
  }

  /** Whatever requests whichever tenants make, live blocks of one vehicle never overlap. */
  lemma {:induction false} LiveBlocksStayDisjoint(requests: seq<Request>)
    ensures NoConflicts(Serve(requests))
  {
    if requests != [] {
      var init, r := requests[..|requests| - 1], requests[|requests| - 1];
      LiveBlocksStayDisjoint(init);
      RequestKeepsNoConflicts(Serve(init), r.tenant, r.ops);
    }
  }

  /** The new block conflicts with no live block, or only with the one stored under `id`. */
  ghost predicate ConflictsOnlyWith(t: Table, b: Block, id: Id) {
    forall j :: j in t && j != id ==> !Conflict(b, t[j])
  }

  /** Soft-deleting a block frees exactly its own slot: afterwards a new block fits if and only if it conflicts with nothing else. */
  lemma SoftDeleteFreesSlot(t: Table, tenant: Tenant, id: Id, now: int, creator: Tenant, newId: Id, fields: NewBlock)
    requires id in t && Visible(t[id], tenant)
    ensures var freed := Exec(t, tenant, SoftDelete(id, now)).table;
            Exec(freed, creator, Create(newId, fields)).error == None
            <==> newId !in t && fields.end > fields.start && ConflictsOnlyWith(t, MakeBlock(creator, fields), id)
  {
    var freed, b := Exec(t, tenant, SoftDelete(id, now)).table, MakeBlock(creator, fields);
    assert freed.Keys == t.Keys;
    assert forall j :: j in t && j != id ==> freed[j] == t[j];
    assert !Conflict(b, freed[id]);
  }

  /** A hard delete undoes a creation exactly when the created row was live; otherwise it raises and the row stays. */
  lemma HardDeleteUndoesCreate(t: Table, tenant: Tenant, id: Id, fields: NewBlock)
    requires Exec(t, tenant, Create(id, fields)).error == None
    ensures var back := ExecAll(t, tenant, [Create(id, fields), HardDelete(id)]);
            && back.table == (if fields.deletedAt == None then t else Exec(t, tenant, Create(id, fields)).table)
            && back.error == (if fields.deletedAt == None then None else Some(NotFound))
  {
    var create, delete := Create(id, fields), HardDelete(id);
    assert [create, delete][..1] == [create] && [create][..0] == [];
    assert ExecAll(t, tenant, [create]) == Exec(t, tenant, create);
    assert t[id := MakeBlock(tenant, fields)] - {id} == t;
  }

  // ---- What a committed request leaves ----

  lemma ServeSnoc(requests: seq<Request>, r: Request)
    ensures Serve(requests + [r]) == Transaction(Serve(requests), r.tenant, r.ops)
  {
    assert (requests + [r])[..|requests + [r]| - 1] == requests;
  }

  lemma ExecOne(t: Table, tenant: Tenant, op: Op)
    ensures ExecAll(t, tenant, [op]) == Exec(t, tenant, op)
  {
    assert [op][..0] == [];
  }

  /** Two batches in one request are the second after the first, unless the first raises. */
  lemma {:induction false} CallsInOrder(t: Table, tenant: Tenant, a: seq<Op>, b: seq<Op>)
    ensures ExecAll(t, tenant, a + b) ==
            if ExecAll(t, tenant, a).error.Some? then ExecAll(t, tenant, a)
            else ExecAll(ExecAll(t, tenant, a).table, tenant, b)
  {
    if b == [] {
      assert a + b == a;
    } else {
      CallsInOrder(t, tenant, a, b[..|b| - 1]);
      assert (a + b)[..|a + b| - 1] == a + b[..|b| - 1];
    }
  }

  /** A request without an error takes effect whole, and one with an error not at all. */
  lemma CommittedWhole(requests: seq<Request>, r: Request)
    ensures var e := ExecAll(Serve(requests), r.tenant, r.ops);
            Serve(requests + [r]) == match e.error
                                     case None => e.table
                                     case Some(_) => Serve(requests)
  {
    ServeSnoc(requests, r);
  }

  /** Some live block of the vehicle overlaps the half-open range. */
  predicate Booked(t: Table, vehicle: string, start: int, end: int) {
    exists id :: id in t && t[id].deletedAt == None && t[id].vehicle == vehicle && start < t[id].end && t[id].start < end
  }

  /**
   A creation alone in its request is stored, with the caller's tenant and columns, if and only if its key is free,
   its range is not empty and no live block of the vehicle overlaps it; otherwise nothing changes.
   */
  lemma CreationCommitted(requests: seq<Request>, tenant: Tenant, id: Id, n: NewBlock)
    ensures var t := Serve(requests);
            var next := Serve(requests + [Request(tenant, [Create(id, n)])]);
            if id !in t && n.end > n.start && (n.deletedAt == None ==> !Booked(t, n.vehicle, n.start, n.end)) then
              && next.Keys == t.Keys + {id} && (forall j :: j in t ==> next[j] == t[j])
              && var b := next[id];
                 && b.tenant == tenant && b.vehicle == n.vehicle && b.start == n.start && b.end == n.end
                 && b.payload == n.payload && b.createdAt == n.createdAt && b.updatedAt == n.updatedAt
                 && b.deletedAt == n.deletedAt
            else next == t
  {
    var t := Serve(requests);
    ServeSnoc(requests, Request(tenant, [Create(id, n)]));
    ExecOne(t, tenant, Create(id, n));
    FitsExactly(t, MakeBlock(tenant, n));
  }

  lemma FitsExactly(t: Table, b: Block)
    ensures Admissible(t, b) <==>
              b.end > b.start && (b.deletedAt == None ==> !Booked(t, b.vehicle, b.start, b.end))
  {
    if b.end > b.start && b.deletedAt == None && !Booked(t, b.vehicle, b.start, b.end) {
      forall id | id in t ensures !Conflict(b, t[id]) {
      }
    }
    if b.deletedAt == None && Booked(t, b.vehicle, b.start, b.end) {
      var id :| id in t && t[id].deletedAt == None && t[id].vehicle == b.vehicle
                && b.start < t[id].end && t[id].start < b.end;
      assert Conflict(b, t[id]);
    }
  }

  /** The row is the tenant's and not soft-deleted. */
  predicate Owned(t: Table, tenant: Tenant, id: Id) {
    id in t && t[id].tenant == tenant && t[id].deletedAt == None
  }

  /** Deletions alone in their request: a soft one stamps the tenant's live row, a hard one removes it, and neither touches another. */
  lemma DeletionCommitted(requests: seq<Request>, tenant: Tenant, id: Id, now: int)
    ensures var t := Serve(requests);
            var soft := Serve(requests + [Request(tenant, [SoftDelete(id, now)])]);
            var hard := Serve(requests + [Request(tenant, [HardDelete(id)])]);
            if Owned(t, tenant, id) then
              && soft == t[id := t[id].(deletedAt := Some(now))] && !Owned(soft, tenant, id)
              && hard == t - {id}
            else soft == t && hard == t
  {
    var t := Serve(requests);
    ServeSnoc(requests, Request(tenant, [SoftDelete(id, now)]));
    ServeSnoc(requests, Request(tenant, [HardDelete(id)]));
    ExecOne(t, tenant, SoftDelete(id, now));
    ExecOne(t, tenant, HardDelete(id));
  }

  /** The stored column is the patched value where the caller gave one, and the old value elsewhere. */
  predicate Column<T(==)>(patch: Option<T>, before: T, after: T) {
    match patch
    case Some(v) => after == v
    case None => after == before
  }

  /**
   An update alone in its request changes the given columns and the update time of the tenant's live row, and
   nothing else, if and only if key, tenant and liveness stay and the new range is not empty and free; otherwise
   nothing changes.
   */
  lemma UpdateCommitted(requests: seq<Request>, tenant: Tenant, id: Id, p: Patch, now: int)
    ensures var t := Serve(requests);
            var next := Serve(requests + [Request(tenant, [Update(id, p, now)])]);
            if Owned(t, tenant, id)
               && p.id in {None, Some(id)} && p.tenant in {None, Some(tenant)} && p.deletedAt in {None, Some(None)}
               && Or(p.end, t[id].end) > Or(p.start, t[id].start)
               && !Booked(t - {id}, Or(p.vehicle, t[id].vehicle), Or(p.start, t[id].start), Or(p.end, t[id].end))
            then
              && next.Keys == t.Keys && (forall j :: j in t && j != id ==> next[j] == t[j])
              && var a, b := t[id], next[id];
                 && b.tenant == tenant && b.deletedAt == None && b.updatedAt == now
                 && Column(p.vehicle, a.vehicle, b.vehicle) && Column(p.start, a.start, b.start)
                 && Column(p.end, a.end, b.end) && Column(p.payload, a.payload, b.payload)
                 && Column(p.createdAt, a.createdAt, b.createdAt)
            else next == t
  {
    var t := Serve(requests);
    ServeSnoc(requests, Request(tenant, [Update(id, p, now)]));
    ExecOne(t, tenant, Update(id, p, now));
    UpdateSucceedsExactly(t, tenant, id, p, now);
    if Owned(t, tenant, id) {
      FitsExactly(t - {id}, Patched(t[id], p, now));
    }
  }

  /** What each call raises: a missing row, or one it would lose sight of, is not found; a key or range that does not fit is refused. */
  lemma ErrorsRaised(t: Table, tenant: Tenant, id: Id, n: NewBlock, p: Patch, now: int)
    ensures Exec(t, tenant, Create(id, n)).error ==
            if id !in t && n.end > n.start && (n.deletedAt == None ==> !Booked(t, n.vehicle, n.start, n.end)) then None
            else Some(Integrity)
    ensures Exec(t, tenant, SoftDelete(id, now)).error == None
    ensures Exec(t, tenant, HardDelete(id)).error == if Owned(t, tenant, id) then None else Some(NotFound)
    ensures !Owned(t, tenant, id) ==> Exec(t, tenant, Update(id, p, now)) == Effect(t, Some(NotFound))
    ensures Owned(t, tenant, id) ==>
              var key, live := Or(p.id, id), Or(p.deletedAt, None) == None;
              var start, end := Or(p.start, t[id].start), Or(p.end, t[id].end);
              var fits := (key == id || key !in t) && end > start
                          && (live ==> !Booked(t - {id}, Or(p.vehicle, t[id].vehicle), start, end));
              Exec(t, tenant, Update(id, p, now)).error ==
              if !fits then Some(Integrity)
              else if key == id && Or(p.tenant, tenant) == tenant && live then None
              else Some(NotFound)
  {
    FitsExactly(t, MakeBlock(tenant, n));
    if Owned(t, tenant, id) {
      FitsExactly(t - {id}, Patched(t[id], p, now));
    }
  }

  // ---- Tenants ----

  /** An update goes through exactly when the row is the tenant's, stays where it is and live, and fits. */
  lemma UpdateSucceedsExactly(t: Table, tenant: Tenant, id: Id, patch: Patch, now: int)
    ensures Exec(t, tenant, Update(id, patch, now)).error == None <==>
              && id in t && Visible(t[id], tenant)
              && Or(patch.id, id) == id && Or(patch.tenant, tenant) == tenant && Or(patch.deletedAt, None) == None
              && Admissible(t - {id}, Patched(t[id], patch, now))
    ensures Exec(t, tenant, Update(id, patch, now)).error == None ==>
              Exec(t, tenant, Update(id, patch, now)).table == t[id := Patched(t[id], patch, now)]
  {
    if Exec(t, tenant, Update(id, patch, now)).error == None {
      var b := Patched(t[id], patch, now);
      assert (t - {id})[id := b] == t[id := b];
    }
  }

  /** Every row of another tenant, and every soft-deleted row of any tenant, is in both tables, the same, or in neither. */
  ghost predicate OthersUnchanged(t: Table, next: Table, tenant: Tenant) {
    forall id ::
      && (id in t && (t[id].tenant != tenant || !Live(t[id])) ==> id in next && next[id] == t[id])
      && (id in next && next[id].tenant != tenant ==> id in t && t[id] == next[id])
  }

  /** An update of a visible row that names another tenant and is not refused by a key or a constraint. */
  predicate GivesAway(t: Table, tenant: Tenant, op: Op) {
    && op.Update? && op.id in t && Visible(t[op.id], tenant)
    && Or(op.patch.tenant, tenant) != tenant
    && Or(op.patch.id, op.id) !in t - {op.id}
    && Admissible(t - {op.id}, Patched(t[op.id], op.patch, op.now))
  }

  /**
   Inside the session, before any rollback: one call leaves every other tenant's rows and every soft-deleted
   row as they were if and only if it is not an update that gives a row away.
   */
  lemma ExecKeepsOthersExactly(t: Table, tenant: Tenant, op: Op)
    ensures OthersUnchanged(t, Exec(t, tenant, op).table, tenant) <==> !GivesAway(t, tenant, op)
    ensures GivesAway(t, tenant, op) ==> Exec(t, tenant, op).error == Some(NotFound)
  {
    var next := Exec(t, tenant, op).table;
    if GivesAway(t, tenant, op) {
      var key := Or(op.patch.id, op.id);
      assert key in next && next[key].tenant != tenant;
      assert key in t ==> key == op.id;
    }
  }

  lemma {:induction false} CallsKeepOthers(t: Table, tenant: Tenant, ops: seq<Op>)
    requires ExecAll(t, tenant, ops).error == None
    ensures OthersUnchanged(t, ExecAll(t, tenant, ops).table, tenant)
  {
    if ops != [] {
      var before := ExecAll(t, tenant, ops[..|ops| - 1]);
      CallsKeepOthers(t, tenant, ops[..|ops| - 1]);
      ExecKeepsOthersExactly(before.table, tenant, ops[|ops| - 1]);
    }
  }

  /** A committed request never changes, adds or removes another tenant's rows, and never touches a soft-deleted row. */
  lemma RequestKeepsOtherTenants(t: Table, tenant: Tenant, ops: seq<Op>)
    ensures OthersUnchanged(t, Transaction(t, tenant, ops), tenant)
  {
    if ExecAll(t, tenant, ops).error == None {
      CallsKeepOthers(t, tenant, ops);
    }
  }

  /**
   It is the rollback that protects: inside the session an update that gives the row away does write
   the other tenant's row before its closing read fails.
   */
  lemma FailedUpdateWritesBeforeRaising(t: Table, tenant: Tenant, other: Tenant, id: Id, now: int)
    requires id in t && Visible(t[id], tenant) && other != tenant && NoConflicts(t)
    ensures var give := Update(id, Patch(None, Some(other), None, None, None, None, None, None), now);
            && Exec(t, tenant, give).error == Some(NotFound)
            && !OthersUnchanged(t, Exec(t, tenant, give).table, tenant)
            && Transaction(t, tenant, [give]) == t
  {
    var give := Update(id, Patch(None, Some(other), None, None, None, None, None, None), now);
    var b := Patched(t[id], give.patch, now);
    assert Admissible(t - {id}, b) by {
      forall j | j in t - {id} ensures !Conflict(b, (t - {id})[j]) {
        assert !Conflict(t[id], t[j]);
      }
    }
    var next := Exec(t, tenant, give).table;
    assert next == (t - {id})[id := b] && next[id].tenant != tenant;
    assert [give][..0] == [];
    assert ExecAll(t, tenant, [give]) == Exec(t, tenant, give);
  }
}
