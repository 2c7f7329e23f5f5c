/** The zoo store: the five tables, updated in place by the create, update and delete
    handlers, and read by the list, get-by-id and specialised query handlers.

    Foreign keys are checked when a child row is created or updated; an update whose id
    matches no row touches nothing, so it reports NotFound before any key is checked.
    Deletes never look at dependent rows. */
module Zoo {
  import opened Results
  import opened Tables
  import opened Models
  import opened IntParse
  import opened Db
  import Queries

  class Store {
    var enclosures: Table<EnclosureFields>
    var staff: Table<StaffFields>
    var animals: Table<AnimalFields>
    var feedings: Table<FeedingFields>
    var treatments: Table<TreatmentFields>

    ghost function Snapshot(): Database
      reads this
    {
      Database(enclosures, staff, animals, feedings, treatments)
    }

    ghost predicate Valid()
      reads this
    {
      TablesValid(Snapshot())
    }

    /** Every foreign key names an existing row. Child writes preserve it; parent deletes
        may break it (Db.ParentDeletesBreakIntegrity). */
    ghost predicate Consistent()
      reads this
    {
      RefsResolve(Snapshot())
    }

    /** `init_db` on a database file: missing tables are created empty, existing ones kept. */
    constructor Open(file: DbFile)
      requires FileValid(file)
      ensures Valid()
      ensures Snapshot() == InitSchema(file)
    {
      var db := InitSchema(file);
      enclosures, staff, animals := db.enclosures, db.staff, db.animals;
      feedings, treatments := db.feedings, db.treatments;
    }

    // ----- enclosures -----

    /** `INSERT INTO enclosures`: no foreign key, so it always succeeds with a fresh id. */
    method CreateEnclosure(f: EnclosureFields) returns (res: Response<Enclosure>)
      requires Valid()
      modifies this`enclosures
      ensures Valid()
      ensures res == Ok(Row(old(NextId(enclosures)), f))
      ensures !old(HasId(enclosures.rows, res.value.id))
      ensures enclosures == InsertRow(old(enclosures), f)
      ensures GetEnclosure(res.value.id) == res
      ensures old(Consistent()) ==> Consistent()
    {
      ghost var db := Snapshot();
      res := Ok(Row(NextId(enclosures), f));
      enclosures := InsertRow(enclosures, f);
      FindUnique(enclosures.rows, res.value);
      if RefsResolve(db) { EnclosureInsertKeepsRefs(db, f); }
    }

    function ListEnclosures(): (r: seq<Enclosure>)
      reads this
      requires Valid()
      ensures Ascending(r)
      ensures forall e :: e in r <==> e in enclosures.rows
    {
      enclosures.rows
    }

    function GetEnclosure(id: Id): (r: Response<Enclosure>)
      reads this
      ensures r.Ok? || r.NotFound?
      ensures r.Ok? <==> HasId(enclosures.rows, id)
      ensures r.Ok? ==> r.value in enclosures.rows && r.value.id == id
    {
      match Find(enclosures.rows, id)
      case Some(e) => Ok(e)
      case None => NotFound
    }

    /** `UPDATE enclosures SET name, enclosure_type, capacity WHERE id = ?`. */
    method UpdateEnclosure(id: Id, f: EnclosureFields) returns (res: Response<Enclosure>)
      requires Valid()
      modifies this`enclosures
      ensures Valid()
      ensures res == if old(HasId(enclosures.rows, id)) then Ok(Row(id, f)) else NotFound
      ensures enclosures == UpdateRow(old(enclosures), id, f)
      ensures res.NotFound? ==> enclosures == old(enclosures)
      ensures res.Ok? ==> GetEnclosure(id) == res
      ensures old(Consistent()) ==> Consistent()
    {
      ghost var db := Snapshot();
      if HasId(enclosures.rows, id) {
        res := Ok(Row(id, f));
        enclosures := UpdateRow(enclosures, id, f);
        FindUnique(enclosures.rows, res.value);
      } else {
        res := NotFound;
      }
      if RefsResolve(db) { EnclosureUpdateKeepsRefs(db, id, f); }
    }

    /** `DELETE FROM enclosures WHERE id = ?`; the animals table is not touched. */
    method DeleteEnclosure(id: Id) returns (res: Response<()>)
      requires Valid()
      modifies this`enclosures
      ensures Valid()
      ensures res == if old(HasId(enclosures.rows, id)) then Ok(()) else NotFound
      ensures enclosures == DeleteRow(old(enclosures), id)
      ensures res.NotFound? ==> enclosures == old(enclosures)
      ensures GetEnclosure(id) == NotFound
    {
      res := if HasId(enclosures.rows, id) then Ok(()) else NotFound;
      enclosures := DeleteRow(enclosures, id);
    }

    /** GET /enclosures/full. */
    function GetFullEnclosures(): (r: Response<seq<Enclosure>>)
      reads this
      requires Valid()
      ensures r.Ok?
      ensures forall e :: e in r.value <==>
        e in enclosures.rows && 0 < Queries.Occupancy(animals.rows, e.id) == e.fields.capacity
      ensures Ascending(r.value)
    {
      Ok(Queries.FullEnclosures(enclosures.rows, animals.rows))
    }

    // ----- staff -----

    method CreateStaff(f: StaffFields) returns (res: Response<Staff>)
      requires Valid()
      modifies this`staff
      ensures Valid()
      ensures res == Ok(Row(old(NextId(staff)), f))
      ensures !old(HasId(staff.rows, res.value.id))
      ensures staff == InsertRow(old(staff), f)
      ensures GetStaff(res.value.id) == res
      ensures old(Consistent()) ==> Consistent()
    {
      ghost var db := Snapshot();
      res := Ok(Row(NextId(staff), f));
      staff := InsertRow(staff, f);
      FindUnique(staff.rows, res.value);
      if RefsResolve(db) { StaffInsertKeepsRefs(db, f); }
    }

    function ListStaff(): (r: seq<Staff>)
      reads this
      requires Valid()
      ensures Ascending(r)
      ensures forall s :: s in r <==> s in staff.rows
    {
      staff.rows
    }

    function GetStaff(id: Id): (r: Response<Staff>)
      reads this
      ensures r.Ok? || r.NotFound?
      ensures r.Ok? <==> HasId(staff.rows, id)
      ensures r.Ok? ==> r.value in staff.rows && r.value.id == id
    {
      match Find(staff.rows, id)
      case Some(s) => Ok(s)
      case None => NotFound
    }

    /** `UPDATE staff ...`: on success the handler answers "Updated" without the record. */
    method UpdateStaff(id: Id, f: StaffFields) returns (res: Response<()>)
      requires Valid()
      modifies this`staff
      ensures Valid()
      ensures res == if old(HasId(staff.rows, id)) then Ok(()) else NotFound
      ensures staff == UpdateRow(old(staff), id, f)
      ensures res.NotFound? ==> staff == old(staff)
      ensures res.Ok? ==> GetStaff(id) == Ok(Row(id, f))
      ensures old(Consistent()) ==> Consistent()
    {
      ghost var db := Snapshot();
      if HasId(staff.rows, id) {
        res := Ok(());
        staff := UpdateRow(staff, id, f);
        FindUnique(staff.rows, Row(id, f));
      } else {
        res := NotFound;
      }
      if RefsResolve(db) { StaffUpdateKeepsRefs(db, id, f); }
    }

    method DeleteStaff(id: Id) returns (res: Response<()>)
      requires Valid()
      modifies this`staff
      ensures Valid()
      ensures res == if old(HasId(staff.rows, id)) then Ok(()) else NotFound
      ensures staff == DeleteRow(old(staff), id)
      ensures res.NotFound? ==> staff == old(staff)
      ensures GetStaff(id) == NotFound
    {
      res := if HasId(staff.rows, id) then Ok(()) else NotFound;
      staff := DeleteRow(staff, id);
    }

    /** GET /staff/role/{role}. */
    function GetStaffByRole(role: string): (r: Response<seq<Staff>>)
      reads this
      requires Valid()
      ensures r.Ok?
      ensures forall s :: s in r.value <==> s in staff.rows && s.fields.role == role
      ensures Ascending(r.value)
    {
      Ok(Queries.StaffWithRole(staff.rows, role))
    }

    // ----- animals -----

    /** `INSERT INTO animals`: rejected, with nothing added, when the enclosure does not exist. */
    method CreateAnimal(f: AnimalFields) returns (res: Response<Animal>)
      requires Valid()
      modifies this`animals
      ensures Valid()
      ensures res.Ok? || res.ConstraintError?
      ensures res.Ok? <==> HasId(enclosures.rows, f.enclosureId)
      ensures res.Ok? ==> res == Ok(Row(old(NextId(animals)), f)) && !old(HasId(animals.rows, res.value.id))
      ensures res.Ok? ==> animals == InsertRow(old(animals), f) && GetAnimal(res.value.id) == res
      ensures res.ConstraintError? ==> animals == old(animals)
      ensures old(Consistent()) ==> Consistent()
    {
      ghost var db := Snapshot();
      if HasId(enclosures.rows, f.enclosureId) {
        res := Ok(Row(NextId(animals), f));
        animals := InsertRow(animals, f);
        FindUnique(animals.rows, res.value);
        if RefsResolve(db) { AnimalInsertKeepsRefs(db, f); }
      } else {
        res := ConstraintError;
      }
    }

    function ListAnimals(): (r: seq<Animal>)
      reads this
      requires Valid()
      ensures Ascending(r)
      ensures forall a :: a in r <==> a in animals.rows
    {
      animals.rows
    }

    function GetAnimal(id: Id): (r: Response<Animal>)
      reads this
      ensures r.Ok? || r.NotFound?
      ensures r.Ok? <==> HasId(animals.rows, id)
      ensures r.Ok? ==> r.value in animals.rows && r.value.id == id
    {
      match Find(animals.rows, id)
      case Some(a) => Ok(a)
      case None => NotFound
    }

    /** `UPDATE animals SET name, age, enclosure_id, species WHERE id = ?`. */
    method UpdateAnimal(id: Id, f: AnimalFields) returns (res: Response<Animal>)
      requires Valid()
      modifies this`animals
      ensures Valid()
      ensures !old(HasId(animals.rows, id)) ==> res == NotFound
      ensures old(HasId(animals.rows, id)) && !HasId(enclosures.rows, f.enclosureId) ==> res == ConstraintError
      ensures old(HasId(animals.rows, id)) && HasId(enclosures.rows, f.enclosureId) ==> res == Ok(Row(id, f))
      ensures res.Ok? ==> animals == UpdateRow(old(animals), id, f) && GetAnimal(id) == res
      ensures !res.Ok? ==> animals == old(animals)
      ensures old(Consistent()) ==> Consistent()
    {
      ghost var db := Snapshot();
      if !HasId(animals.rows, id) {
        res := NotFound;
      } else if !HasId(enclosures.rows, f.enclosureId) {
        res := ConstraintError;
      } else {
        res := Ok(Row(id, f));
        animals := UpdateRow(animals, id, f);
        FindUnique(animals.rows, res.value);
        if RefsResolve(db) { AnimalUpdateKeepsRefs(db, id, f); }
      }
    }

    /** `DELETE FROM animals WHERE id = ?`; feedings and treatments are not touched. */
    method DeleteAnimal(id: Id) returns (res: Response<()>)
      requires Valid()
      modifies this`animals
      ensures Valid()
      ensures res == if old(HasId(animals.rows, id)) then Ok(()) else NotFound
      ensures animals == DeleteRow(old(animals), id)
      ensures res.NotFound? ==> animals == old(animals)
      ensures GetAnimal(id) == NotFound
    {
      res := if HasId(animals.rows, id) then Ok(()) else NotFound;
      animals := DeleteRow(animals, id);
    }

    /** GET /animals/older/{age}: an age that is not an `i32` is a bad request, answered
        before any table is read. */
    function GetAnimalsOlderThan(ageText: string): (r: Response<seq<Animal>>)
      reads this
      requires Valid()
      ensures r.Ok? || r.BadRequest?
      ensures r.BadRequest? <==> ParseI32(ageText).None?
      ensures r.Ok? ==> forall a :: a in r.value <==> a in animals.rows && a.fields.age > ParseI32(ageText).value
      ensures r.Ok? ==> Ascending(r.value)
    {
      match ParseI32(ageText)
      case None => BadRequest
      case Some(n) => Ok(Queries.AnimalsOlderThan(animals.rows, n))
    }

    // ----- feedings -----

    /** `INSERT INTO feedings`: rejected, with nothing added, unless both the animal and the
        staff member exist. */
    method CreateFeeding(f: FeedingFields) returns (res: Response<Feeding>)
      requires Valid()
      modifies this`feedings
      ensures Valid()
      ensures res.Ok? || res.ConstraintError?
      ensures res.Ok? <==> HasId(animals.rows, f.animalId) && HasId(staff.rows, f.staffId)
      ensures res.Ok? ==> res == Ok(Row(old(NextId(feedings)), f)) && !old(HasId(feedings.rows, res.value.id))
      ensures res.Ok? ==> feedings == InsertRow(old(feedings), f) && GetFeeding(res.value.id) == res
      ensures res.ConstraintError? ==> feedings == old(feedings)
      ensures old(Consistent()) ==> Consistent()
    {
      ghost var db := Snapshot();
      if HasId(animals.rows, f.animalId) && HasId(staff.rows, f.staffId) {
        res := Ok(Row(NextId(feedings), f));
        feedings := InsertRow(feedings, f);
        FindUnique(feedings.rows, res.value);
        if RefsResolve(db) { FeedingInsertKeepsRefs(db, f); }
      } else {
        res := ConstraintError;
      }
    }

    function ListFeedings(): (r: seq<Feeding>)
      reads this
      requires Valid()
      ensures Ascending(r)
      ensures forall x :: x in r <==> x in feedings.rows
    {
      feedings.rows
    }

    function GetFeeding(id: Id): (r: Response<Feeding>)
      reads this
      ensures r.Ok? || r.NotFound?
      ensures r.Ok? <==> HasId(feedings.rows, id)
      ensures r.Ok? ==> r.value in feedings.rows && r.value.id == id
    {
      match Find(feedings.rows, id)
      case Some(x) => Ok(x)
      case None => NotFound
    }

    /** `UPDATE feedings SET animal_id, staff_id, feeding_time WHERE id = ?`. */
    method UpdateFeeding(id: Id, f: FeedingFields) returns (res: Response<Feeding>)
      requires Valid()
      modifies this`feedings
      ensures Valid()
      ensures !old(HasId(feedings.rows, id)) ==> res == NotFound
      ensures old(HasId(feedings.rows, id)) && !(HasId(animals.rows, f.animalId) && HasId(staff.rows, f.staffId)) ==> res == ConstraintError
      ensures old(HasId(feedings.rows, id)) && HasId(animals.rows, f.animalId) && HasId(staff.rows, f.staffId) ==> res == Ok(Row(id, f))
      ensures res.Ok? ==> feedings == UpdateRow(old(feedings), id, f) && GetFeeding(id) == res
      ensures !res.Ok? ==> feedings == old(feedings)
      ensures old(Consistent()) ==> Consistent()
    {
      ghost var db := Snapshot();
      if !HasId(feedings.rows, id) {
        res := NotFound;
      } else if !(HasId(animals.rows, f.animalId) && HasId(staff.rows, f.staffId)) {
        res := ConstraintError;
      } else {
        res := Ok(Row(id, f));
        feedings := UpdateRow(feedings, id, f);
        FindUnique(feedings.rows, res.value);
        if RefsResolve(db) { FeedingUpdateKeepsRefs(db, id, f); }
      }
    }

    method DeleteFeeding(id: Id) returns (res: Response<()>)
      requires Valid()
      modifies this`feedings
      ensures Valid()
      ensures res == if old(HasId(feedings.rows, id)) then Ok(()) else NotFound
      ensures feedings == DeleteRow(old(feedings), id)
      ensures res.NotFound? ==> feedings == old(feedings)
      ensures GetFeeding(id) == NotFound
      ensures old(Consistent()) ==> Consistent()
    {
      ghost var db := Snapshot();
      res := if HasId(feedings.rows, id) then Ok(()) else NotFound;
      feedings := DeleteRow(feedings, id);
      if RefsResolve(db) { FeedingDeleteKeepsRefs(db, id); }
    }

    /** GET /feedings/after/{date}: `parseTime` stands for the `%Y-%m-%dT%H:%M:%S` parse; a
        date it rejects is a bad request, answered before any table is read. */
    function GetFeedingsAfter(dateText: string, parseTime: string -> Option<Timestamp>): (r: Response<seq<Feeding>>)
      reads this
      requires Valid()
      ensures r.Ok? || r.BadRequest?
      ensures r.BadRequest? <==> parseTime(dateText).None?
      ensures r.Ok? ==> forall x :: x in r.value <==> x in feedings.rows && x.fields.feedingTime > parseTime(dateText).value
      ensures r.Ok? ==> Queries.SortedByTime(r.value)
      ensures r.Ok? ==> forall x :: multiset(r.value)[x] <= 1
    {
      match parseTime(dateText)
      case None => BadRequest
      case Some(t) =>
        AscendingDistinct(feedings.rows);
        Ok(Queries.FeedingsAfter(feedings.rows, t))
    }

    // ----- medical treatments -----

    /** `INSERT INTO medical_treatments`: rejected, with nothing added, unless both the animal
        and the staff member exist. */
    method CreateTreatment(f: TreatmentFields) returns (res: Response<Treatment>)
      requires Valid()
      modifies this`treatments
      ensures Valid()
      ensures res.Ok? || res.ConstraintError?
      ensures res.Ok? <==> HasId(animals.rows, f.animalId) && HasId(staff.rows, f.staffId)
      ensures res.Ok? ==> res == Ok(Row(old(NextId(treatments)), f)) && !old(HasId(treatments.rows, res.value.id))
      ensures res.Ok? ==> treatments == InsertRow(old(treatments), f) && GetTreatment(res.value.id) == res
      ensures res.ConstraintError? ==> treatments == old(treatments)
      ensures old(Consistent()) ==> Consistent()
    {
      ghost var db := Snapshot();
      if HasId(animals.rows, f.animalId) && HasId(staff.rows, f.staffId) {
        res := Ok(Row(NextId(treatments), f));
        treatments := InsertRow(treatments, f);
        FindUnique(treatments.rows, res.value);
        if RefsResolve(db) { TreatmentInsertKeepsRefs(db, f); }
      } else {
        res := ConstraintError;
      }
    }

    function ListTreatments(): (r: seq<Treatment>)
      reads this
      requires Valid()
      ensures Ascending(r)
      ensures forall m :: m in r <==> m in treatments.rows
    {
      treatments.rows
    }

    function GetTreatment(id: Id): (r: Response<Treatment>)
      reads this
      ensures r.Ok? || r.NotFound?
      ensures r.Ok? <==> HasId(treatments.rows, id)
      ensures r.Ok? ==> r.value in treatments.rows && r.value.id == id
    {
      match Find(treatments.rows, id)
      case Some(m) => Ok(m)
      case None => NotFound
    }

    /** `UPDATE medical_treatments SET animal_id, staff_id, date, description WHERE id = ?`. */
    method UpdateTreatment(id: Id, f: TreatmentFields) returns (res: Response<Treatment>)
      requires Valid()
      modifies this`treatments
      ensures Valid()
      ensures !old(HasId(treatments.rows, id)) ==> res == NotFound
      ensures old(HasId(treatments.rows, id)) && !(HasId(animals.rows, f.animalId) && HasId(staff.rows, f.staffId)) ==> res == ConstraintError
      ensures old(HasId(treatments.rows, id)) && HasId(animals.rows, f.animalId) && HasId(staff.rows, f.staffId) ==> res == Ok(Row(id, f))
      ensures res.Ok? ==> treatments == UpdateRow(old(treatments), id, f) && GetTreatment(id) == res
      ensures !res.Ok? ==> treatments == old(treatments)
      ensures old(Consistent()) ==> Consistent()
    {
      ghost var db := Snapshot();
      if !HasId(treatments.rows, id) {
        res := NotFound;
      } else if !(HasId(animals.rows, f.animalId) && HasId(staff.rows, f.staffId)) {
        res := ConstraintError;
      } else {
        res := Ok(Row(id, f));
        treatments := UpdateRow(treatments, id, f);
        FindUnique(treatments.rows, res.value);
        if RefsResolve(db) { TreatmentUpdateKeepsRefs(db, id, f); }
      }
    }

    method DeleteTreatment(id: Id) returns (res: Response<()>)
      requires Valid()
      modifies this`treatments
      ensures Valid()
      ensures res == if old(HasId(treatments.rows, id)) then Ok(()) else NotFound
      ensures treatments == DeleteRow(old(treatments), id)
      ensures res.NotFound? ==> treatments == old(treatments)
      ensures GetTreatment(id) == NotFound
      ensures old(Consistent()) ==> Consistent()
    {
      ghost var db := Snapshot();
      res := if HasId(treatments.rows, id) then Ok(()) else NotFound;
      treatments := DeleteRow(treatments, id);
      if RefsResolve(db) { TreatmentDeleteKeepsRefs(db, id); }
    }

    /** GET /medical_treatments/by_staff/{first_name}/{last_name}. */
    function GetTreatmentsByStaff(first: string, last: string): (r: Response<seq<Treatment>>)
      reads this
      requires Valid()
      ensures r.Ok?
      ensures forall m :: m in r.value <==> m in treatments.rows && Queries.TreatedBy(m, staff.rows, first, last)
      ensures forall m :: m in r.value ==> HasId(staff.rows, m.fields.staffId)
      ensures Ascending(r.value)
    {
      Ok(Queries.TreatmentsByStaff(treatments.rows, staff.rows, first, last))
    }
  }

  /** A fresh database file: no table exists yet. */
  function NoTables(): (file: DbFile)
    ensures FileValid(file)
  {
    DbFile(None, None, None, None, None)
  }

  /** On a fresh database: create the enclosure "Savanna" of capacity 2 and two animals in it. */
  method OpenSavanna() returns (store: Store)
    ensures fresh(store) && store.Valid()
    ensures store.enclosures == Table([Row(1, EnclosureFields("Savanna", "outdoor", 2))], 1)
    ensures store.animals == Table([Row(1, AnimalFields("Leo", 5, 1, "lion")), Row(2, AnimalFields("Zed", 3, 1, "zebra"))], 2)
  {
    store := new Store.Open(NoTables());
    var e := store.CreateEnclosure(EnclosureFields("Savanna", "outdoor", 2));
    assert e == Ok(Row(1, EnclosureFields("Savanna", "outdoor", 2)));
    assert HasId(store.enclosures.rows, 1) by {
      assert store.enclosures.rows[0].id == 1;
    }
    var lion := AnimalFields("Leo", 5, 1, "lion");
    var zebra := AnimalFields("Zed", 3, 1, "zebra");
    var a1 := store.CreateAnimal(lion);
    assert a1.Ok? && store.animals.lastId == 1;
    assert store.animals.rows == [] + [Row(1, lion)] == [Row(1, lion)];
    var a2 := store.CreateAnimal(zebra);
    assert a2.Ok? && store.animals.lastId == 2;
    assert store.animals.rows == [Row(1, lion)] + [Row(2, zebra)] == [Row(1, lion), Row(2, zebra)];
  }

  /** A third animal, a giraffe, moves into the Savanna. */
  method AddGiraffe(store: Store)
    requires store.Valid()
    requires store.enclosures == Table([Row(1, EnclosureFields("Savanna", "outdoor", 2))], 1)
    requires store.animals == Table([Row(1, AnimalFields("Leo", 5, 1, "lion")), Row(2, AnimalFields("Zed", 3, 1, "zebra"))], 2)
    modifies store`animals
    ensures store.Valid()
    ensures store.animals.rows == [Row(1, AnimalFields("Leo", 5, 1, "lion")), Row(2, AnimalFields("Zed", 3, 1, "zebra")), Row(3, AnimalFields("Gil", 7, 1, "giraffe"))]
  {
    var lion := AnimalFields("Leo", 5, 1, "lion");
    var zebra := AnimalFields("Zed", 3, 1, "zebra");
    var giraffe := AnimalFields("Gil", 7, 1, "giraffe");
    assert HasId(store.enclosures.rows, 1) by {
      assert store.enclosures.rows[0].id == 1;
    }
    var a3 := store.CreateAnimal(giraffe);
    assert a3.Ok?;
    assert store.animals.rows == [Row(1, lion), Row(2, zebra)] + [Row(3, giraffe)] == [Row(1, lion), Row(2, zebra), Row(3, giraffe)];
  }

  /** The scenario of an enclosure filling up: with two animals in the Savanna (capacity 2)
      it is the one full enclosure; a third animal makes it no longer full. */
  method SavannaScenario() returns (full2: Response<seq<Enclosure>>, full3: Response<seq<Enclosure>>)
    ensures full2 == Ok([Row(1, EnclosureFields("Savanna", "outdoor", 2))])
    ensures full3 == Ok([])
  {
    var store := OpenSavanna();
    var savanna := Row(1, EnclosureFields("Savanna", "outdoor", 2));
    var lion := AnimalFields("Leo", 5, 1, "lion");
    var zebra := AnimalFields("Zed", 3, 1, "zebra");
    var giraffe := AnimalFields("Gil", 7, 1, "giraffe");
    Queries.CapacityTwoScenario(savanna, Row(1, lion), Row(2, zebra), Row(3, giraffe));
    full2 := store.GetFullEnclosures();
    AddGiraffe(store);
    full3 := store.GetFullEnclosures();
  }
}
