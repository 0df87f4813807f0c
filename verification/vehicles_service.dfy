/** The vehicle store: vehicles in an id-keyed table, looked up by id or by licence
    plate. Creation refuses a plate already on file; update does not look at plates. */
module VehiclesService {
  import opened Wrappers
  import opened Strings
  import Table

  datatype Vehicle = Vehicle(id: int, licensePlate: string, brand: string, model: string, capacity: int)

  datatype CreateVehicleDto = CreateVehicleDto(licensePlate: string, brand: string, model: string, capacity: int)

  /** Update body: every field optional; absent fields keep their stored values. */
  datatype UpdateVehicleDto = UpdateVehicleDto(licensePlate: Option<string>, brand: Option<string>,
                                               model: Option<string>, capacity: Option<int>)

  type Store = Table.Table<Vehicle>

  /** Every row is stored under its own id. The plate column carries no database
      constraint, so plate uniqueness is not part of validity. */
  ghost predicate Valid(s: Store) {
    Table.Valid(s) && forall k :: k in s.rows ==> s.rows[k].id == k
  }

  ghost predicate PlatesUnique(s: Store) {
    forall a, b :: a in s.rows && b in s.rows && s.rows[a].licensePlate == s.rows[b].licensePlate ==> a == b
  }

  function NotFoundById(id: int): Error {
    NotFound("Vehicle with ID " + IntToString(id) + " not found")
  }

  /** `findByLicensePlate`: the vehicle with this plate, NotFound naming the plate if
      there is none. */
  function FindByLicensePlate(s: Store, plate: string): (r: Result<Vehicle>)
    requires Valid(s)
    ensures r.Ok? ==> r.value in s.rows.Values && r.value.licensePlate == plate
    ensures r.Err? <==> forall k :: k in s.rows ==> s.rows[k].licensePlate != plate
    ensures r.Err? ==> r.error == NotFound("Vehicle with license plate " + plate + " not found")
  {
    match Table.FirstWhere(s, (v: Vehicle) => v.licensePlate == plate)
    case None => Err(NotFound("Vehicle with license plate " + plate + " not found"))
    case Some(k) => Ok(s.rows[k])
  }

  /** `create`: refused with "License plate already exists" when the plate is on file;
      otherwise stored under the next serial id. */
  function Create(s: Store, dto: CreateVehicleDto): (res: (Store, Result<Vehicle>))
    requires Valid(s)
    ensures Valid(res.0)
    ensures (exists k :: k in s.rows && s.rows[k].licensePlate == dto.licensePlate) ==>
      res == (s, Err(Failure("License plate already exists")))
    ensures (forall k :: k in s.rows ==> s.rows[k].licensePlate != dto.licensePlate) ==>
      && res.1.Ok?
      && var v := res.1.value;
      && v.id !in s.rows && res.0.rows == s.rows[v.id := v]
      && v == Vehicle(v.id, dto.licensePlate, dto.brand, dto.model, dto.capacity)
  {
    if FindByLicensePlate(s, dto.licensePlate).Ok? then (s, Err(Failure("License plate already exists")))
    else
      var v := Vehicle(s.nextId, dto.licensePlate, dto.brand, dto.model, dto.capacity);
      (Table.Add(s, v), Ok(v))
  }

  /** `findOne` */
  function FindOne(s: Store, id: int): (r: Result<Vehicle>)
    requires Valid(s)
    ensures id !in s.rows <==> r == Err(NotFoundById(id))
    ensures id in s.rows ==> r == Ok(s.rows[id]) && r.value.id == id
  {
    if id in s.rows then Ok(s.rows[id]) else Err(NotFoundById(id))
  }

  /** The entity `preload({ id, ...dto })` builds: the stored row with the supplied
      fields laid over it. */
  function Preload(v: Vehicle, dto: UpdateVehicleDto): Vehicle {
    v.(licensePlate := if dto.licensePlate.Some? then dto.licensePlate.value else v.licensePlate,
       brand := if dto.brand.Some? then dto.brand.value else v.brand,
       model := if dto.model.Some? then dto.model.value else v.model,
       capacity := if dto.capacity.Some? then dto.capacity.value else v.capacity)
  }

  /** `update`: NotFound and nothing saved for an absent id; otherwise the merged row is
      saved, with no check of the new plate against the others. */
  function Update(s: Store, id: int, dto: UpdateVehicleDto): (res: (Store, Result<Vehicle>))
    requires Valid(s)
    ensures Valid(res.0)
    ensures id !in s.rows ==> res == (s, Err(NotFoundById(id)))
    ensures id in s.rows ==>
      && res.1.Ok? && res.0.rows.Keys == s.rows.Keys && res.0.rows[id] == res.1.value
      && (forall k :: k in s.rows && k != id ==> res.0.rows[k] == s.rows[k])
      && var prev, v := s.rows[id], res.1.value;
      && v.id == id
      && v.licensePlate == (if dto.licensePlate.Some? then dto.licensePlate.value else prev.licensePlate)
      && v.brand == (if dto.brand.Some? then dto.brand.value else prev.brand)
      && v.model == (if dto.model.Some? then dto.model.value else prev.model)
      && v.capacity == (if dto.capacity.Some? then dto.capacity.value else prev.capacity)
  {
    if id !in s.rows then (s, Err(NotFoundById(id)))
    else
      var v := Preload(s.rows[id], dto);
      (Table.Put(s, id, v), Ok(v))
  }

  /** `remove` */
  function Remove(s: Store, id: int): (res: (Store, Result<()>))
    requires Valid(s)
    ensures Valid(res.0)
    ensures id !in s.rows ==> res == (s, Err(NotFoundById(id)))
    ensures id in s.rows ==> res.1.Ok? && res.0.rows == s.rows - {id}
  {
    if id !in s.rows then (s, Err(NotFoundById(id)))
    else (Table.Delete(s, id), Ok(()))
  }

  /** A vehicle created with a fresh plate is what a lookup by that plate returns. */
  lemma CreateThenFindByPlate(s: Store, dto: CreateVehicleDto)
    requires Valid(s) && FindByLicensePlate(s, dto.licensePlate).Err?
    ensures var (s', r) := Create(s, dto);
      r.Ok? && FindByLicensePlate(s', dto.licensePlate) == r && FindOne(s', r.value.id) == r
  {
    var (s', r) := Create(s, dto);
    var k := Table.FirstWhere(s', (v: Vehicle) => v.licensePlate == dto.licensePlate);
    assert s'.rows[r.value.id].licensePlate == dto.licensePlate;
    assert k.Some? && k.value == r.value.id;
  }

  /** After an update a lookup by id returns the merged row. */
  lemma UpdateThenFind(s: Store, id: int, dto: UpdateVehicleDto)
    requires Valid(s) && id in s.rows
    ensures var (s', r) := Update(s, id, dto);
      r.Ok? && FindOne(s', id) == r && r.value == Preload(s.rows[id], dto)
  {
  }

  /** After a removal the id is gone. */
  lemma RemoveThenFind(s: Store, id: int)
    requires Valid(s)
    ensures FindOne(Remove(s, id).0, id) == Err(NotFoundById(id))
  {
  }

  /** Creation alone never puts two vehicles under one plate. */
  lemma CreatePreservesPlateUniqueness(s: Store, dto: CreateVehicleDto)
    requires Valid(s) && PlatesUnique(s)
    ensures PlatesUnique(Create(s, dto).0)
  {
    var (s', r) := Create(s, dto);
    if r.Ok? {
      forall a, b | a in s'.rows && b in s'.rows && s'.rows[a].licensePlate == s'.rows[b].licensePlate
        ensures a == b
      {
        if a != r.value.id && b != r.value.id {
          assert s'.rows[a] == s.rows[a] && s'.rows[b] == s.rows[b];
        }
      }
    }
  }

  /** Update, unlike create, can give a second vehicle a plate that is already on file:
      two vehicles, and the second renamed to the first's plate. */
  lemma UpdateCanDuplicatePlate()
    ensures var s0 := Table.Empty<Vehicle>();
      var (s1, _) := Create(s0, CreateVehicleDto("ABC-123", "Toyota", "Hiace", 12));
      var (s2, _) := Create(s1, CreateVehicleDto("XYZ-789", "Ford", "Transit", 9));
      && PlatesUnique(s2)
      && var (s3, r) := Update(s2, 2, UpdateVehicleDto(Some("ABC-123"), None, None, None));
      && r.Ok? && !PlatesUnique(s3)
  {
    var s0 := Table.Empty<Vehicle>();
    var (s1, _) := Create(s0, CreateVehicleDto("ABC-123", "Toyota", "Hiace", 12));
    var (s2, _) := Create(s1, CreateVehicleDto("XYZ-789", "Ford", "Transit", 9));
    assert s2.rows.Keys == {1, 2};
    assert s2.rows[1].licensePlate == "ABC-123" && s2.rows[2].licensePlate == "XYZ-789";
    var (s3, r) := Update(s2, 2, UpdateVehicleDto(Some("ABC-123"), None, None, None));
    assert s3.rows[1].licensePlate == s3.rows[2].licensePlate;
  }
}
