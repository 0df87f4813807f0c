/** The request store: requests kept in an id-keyed table, with lookup, patch-merge
    update and deletion. The store checks neither ownership nor the legality of a
    status change. */
module RequestService {
  import opened Wrappers
  import opened Strings
  import Table

  datatype Status = Pending | InProgress | Completed | Cancelled

  /** A stored request: the entity's columns and its two relations. `user` is the owner
      filled at creation. The entity has no column for a driver or for a client id, so
      nothing of that kind is ever stored. Coordinates, distance and time estimates are
      left out. */
  datatype Request = Request(
    id: int,
    originAddress: string,
    destinationAddress: string,
    createdAt: int,
    status: Status,
    user: Option<int>,
    vehicle: Option<int>)

  /** What `create` receives: the addresses, optionally a status, and the owner. */
  datatype NewRequest = NewRequest(
    originAddress: string,
    destinationAddress: string,
    status: Option<Status>,
    user: Option<int>)

  /** An update body: every field optional; absent fields are left alone. `driverId` and
      `userId` are accepted by the body but match no column of the entity. */
  datatype RequestPatch = RequestPatch(
    originAddress: Option<string>,
    destinationAddress: Option<string>,
    status: Option<Status>,
    driverId: Option<int>,
    userId: Option<int>)

  type Store = Table.Table<Request>

  /** Every row is stored under its own id. */
  ghost predicate Valid(s: Store) {
    Table.Valid(s) && forall k :: k in s.rows ==> s.rows[k].id == k
  }

  /** Some stored request names `userId` as its owner, so the `user` foreign key refers
      to that account. */
  predicate OwnedBy(s: Store, userId: int) {
    exists k :: k in s.rows && s.rows[k].user == Some(userId)
  }

  function NotFoundError(id: int): Error {
    NotFound("Request with ID " + IntToString(id) + " not found")
  }

  /** `create`: the row gets the next serial id, the database's current time, and status
      `pending` unless the input carried one. */
  function Create(s: Store, dto: NewRequest, now: int): (res: (Store, Request))
    requires Valid(s)
    ensures var (s', r) := res;
      && Valid(s')
      && r.id !in s.rows && s'.rows == s.rows[r.id := r]
      && r.status == (if dto.status.Some? then dto.status.value else Pending)
      && r.originAddress == dto.originAddress && r.destinationAddress == dto.destinationAddress
      && r.user == dto.user && r.createdAt == now
      && r.vehicle == None
  {
    var status := if dto.status.Some? then dto.status.value else Pending;
    var r := Request(s.nextId, dto.originAddress, dto.destinationAddress, now, status, dto.user, None);
    (Table.Add(s, r), r)
  }

  /** A row as a query without `relations` returns it: its columns, with neither the
      owner nor the vehicle loaded (both relations are lazy, not eager). */
  function Unloaded(r: Request): Request {
    r.(user := None, vehicle := None)
  }

  /** `findAll`: every stored request once, in id order, without its relations. */
  function FindAll(s: Store): (rs: seq<Request>)
    requires Valid(s)
    ensures forall i :: 0 <= i < |rs| ==> rs[i].id in s.rows && rs[i] == Unloaded(s.rows[rs[i].id])
    ensures forall k :: k in s.rows ==> exists i :: 0 <= i < |rs| && rs[i].id == k
    ensures forall i, j :: 0 <= i < j < |rs| ==> rs[i].id < rs[j].id
  {
    var rs := UnloadAll(Table.Rows(s));
    UnloadedRowsListed(s, rs);
    rs
  }

  /** Each row as a query without relations returns it. */
  function UnloadAll(rows: seq<Request>): (rs: seq<Request>)
    ensures |rs| == |rows| && forall i :: 0 <= i < |rs| ==> rs[i] == Unloaded(rows[i])
  {
    seq(|rows|, i requires 0 <= i < |rows| => Unloaded(rows[i]))
  }

  /** The unloaded rows follow the table's ascending ids, one per stored id. */
  lemma UnloadedRowsListed(s: Store, rs: seq<Request>)
    requires Valid(s) && rs == UnloadAll(Table.Rows(s))
    ensures forall i :: 0 <= i < |rs| ==> rs[i].id == Table.Ids(s)[i]
    ensures forall i :: 0 <= i < |rs| ==> rs[i].id in s.rows && rs[i] == Unloaded(s.rows[rs[i].id])
    ensures forall k :: k in s.rows ==> exists i :: 0 <= i < |rs| && rs[i].id == k
    ensures forall i, j :: 0 <= i < j < |rs| ==> rs[i].id < rs[j].id
  {
    var ids := Table.Ids(s);
    var rows := Table.Rows(s);
    forall i | 0 <= i < |rs| ensures rs[i].id == ids[i] {
      assert rows[i] == s.rows[ids[i]];
    }
    forall k | k in s.rows ensures exists i :: 0 <= i < |rs| && rs[i].id == k {
      var i :| 0 <= i < |rows| && ids[i] == k;
      assert rs[i].id == k;
    }
  }

  /** `findOne({ where: { id } })`: the request stored under `id` without its relations,
      NotFound for an absent id. */
  function FindOne(s: Store, id: int): (r: Result<Request>)
    requires Valid(s)
    ensures r.Ok? ==> r.value.id == id
    ensures id in s.rows <==> r.Ok?
    ensures r.Ok? ==>
      && r.value.user == None && r.value.vehicle == None
      && r.value.(user := s.rows[id].user, vehicle := s.rows[id].vehicle) == s.rows[id]
    ensures r.Err? ==> r.error == NotFoundError(id)
  {
    if id in s.rows then Ok(Unloaded(s.rows[id])) else Err(NotFoundError(id))
  }

  /** The `preload({ id, ...patch })` merge: the column fields the patch carries replace
      the stored ones; `driverId` and `userId` are not columns and are dropped. */
  function Merge(r: Request, p: RequestPatch): Request {
    r.(originAddress := if p.originAddress.Some? then p.originAddress.value else r.originAddress,
       destinationAddress := if p.destinationAddress.Some? then p.destinationAddress.value else r.destinationAddress,
       status := if p.status.Some? then p.status.value else r.status)
  }

  /** `update`: NotFound and no write for an absent id; otherwise the merged row is saved
      and returned. The stored relations stay as they were, but the row `preload` loaded
      carries none, so neither does the answer. Any status may be written over any other. */
  function Update(s: Store, id: int, p: RequestPatch): (res: (Store, Result<Request>))
    requires Valid(s)
    ensures Valid(res.0)
    ensures id !in s.rows ==> res == (s, Err(NotFoundError(id)))
    ensures id in s.rows ==>
      var prev := s.rows[id];
      && res.1.Ok? && id in res.0.rows
      && var r := res.0.rows[id];
      && res.0 == Table.Put(s, id, r)
      && res.1.value == r.(user := None, vehicle := None)
      && r.id == id && r.createdAt == prev.createdAt && r.user == prev.user && r.vehicle == prev.vehicle
      && (p.originAddress.Some? ==> r.originAddress == p.originAddress.value)
      && (p.originAddress.None? ==> r.originAddress == prev.originAddress)
      && (p.destinationAddress.Some? ==> r.destinationAddress == p.destinationAddress.value)
      && (p.destinationAddress.None? ==> r.destinationAddress == prev.destinationAddress)
      && (p.status.Some? ==> r.status == p.status.value)
      && (p.status.None? ==> r.status == prev.status)
  {
    if id !in s.rows then (s, Err(NotFoundError(id)))
    else
      var r := Merge(s.rows[id], p);
      (Table.Put(s, id, r), Ok(Unloaded(r)))
  }

  /** `remove`: NotFound and nothing deleted for an absent id; otherwise exactly that row goes. */
  function Remove(s: Store, id: int): (res: (Store, Result<()>))
    requires Valid(s)
    ensures Valid(res.0)
    ensures id !in s.rows ==> res == (s, Err(NotFoundError(id)))
    ensures id in s.rows ==>
      && res.1 == Ok(())
      && res.0.rows.Keys == s.rows.Keys - {id}
      && forall k :: k in res.0.rows ==> res.0.rows[k] == s.rows[k]
  {
    match FindOne(s, id)
    case Err(e) => (s, Err(e))
    case Ok(r) => (Table.Delete(s, r.id), Ok(()))
  }

  /** Creating and then looking the new id up returns the created request's columns; the
      owner is stored but not loaded by the lookup. */
  lemma CreateThenFind(s: Store, dto: NewRequest, now: int)
    requires Valid(s)
    ensures var (s', r) := Create(s, dto, now);
      && FindOne(s', r.id) == Ok(r.(user := None))
      && s'.rows[r.id].user == dto.user
      && r.status == (if dto.status.None? then Pending else dto.status.value)
  {
  }

  /** A request is listed by `findAll` exactly when it is a stored row without its
      relations. */
  lemma ListedIffStored(s: Store, q: Request)
    requires Valid(s)
    ensures q in FindAll(s) <==> q.id in s.rows && q == Unloaded(s.rows[q.id])
  {
    var rs := FindAll(s);
    if q.id in s.rows && q == Unloaded(s.rows[q.id]) {
      var i :| 0 <= i < |rs| && rs[i].id == q.id;
      assert rs[i] == q;
    }
  }

  /** A created request is listed by `findAll`, and every request listed before still is. */
  lemma CreateThenFindAll(s: Store, dto: NewRequest, now: int)
    requires Valid(s)
    ensures var (s', r) := Create(s, dto, now);
      && r.(user := None) in FindAll(s')
      && forall q :: q in FindAll(s) ==> q in FindAll(s')
  {
    var (s', r) := Create(s, dto, now);
    ListedIffStored(s', r.(user := None));
    forall q | q in FindAll(s) ensures q in FindAll(s') {
      ListedIffStored(s, q);
      ListedIffStored(s', q);
    }
  }

  /** After an update the merged row is stored, and a lookup returns what the update
      answered. */
  lemma UpdateThenFind(s: Store, id: int, p: RequestPatch)
    requires Valid(s) && id in s.rows
    ensures var (s', r) := Update(s, id, p);
      && r.Ok? && FindOne(s', id) == r
      && s'.rows[id] == Merge(s.rows[id], p)
  {
  }

  /** The patch's `driverId` and `userId` make no difference to an update: neither what
      is written nor what is returned. */
  lemma UpdateIgnoresDriverAndClient(s: Store, id: int, p: RequestPatch, driverId: Option<int>, userId: Option<int>)
    requires Valid(s)
    ensures Update(s, id, p.(driverId := driverId, userId := userId)) == Update(s, id, p)
  {
  }

  /** After a removal the id is gone. */
  lemma RemoveThenFind(s: Store, id: int)
    requires Valid(s)
    ensures FindOne(Remove(s, id).0, id) == Err(NotFoundError(id))
  {
  }

  /** No transition is refused: from any stored status, any other status can be written. */
  lemma AnyStatusTransitionAccepted(s: Store, id: int, to: Status)
    requires Valid(s) && id in s.rows
    ensures var (s', r) := Update(s, id, RequestPatch(None, None, Some(to), None, None));
      r.Ok? && s'.rows[id].status == to
  {
  }
}
