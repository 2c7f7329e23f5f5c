/** The schema `init_db` creates: five tables, `CREATE TABLE IF NOT EXISTS` each, and the
    foreign keys they declare. */
module Db {
  import opened Results
  import opened Tables
  import opened Models

  /** The five tables of the zoo database. */
  datatype Database = Database(
    enclosures: Table<EnclosureFields>,
    staff: Table<StaffFields>,
    animals: Table<AnimalFields>,
    feedings: Table<FeedingFields>,
    treatments: Table<TreatmentFields>)

  /** A database file as `init_db` opens it: each table may exist already, or not yet. */
  datatype DbFile = DbFile(
    enclosures: Option<Table<EnclosureFields>>,
    staff: Option<Table<StaffFields>>,
    animals: Option<Table<AnimalFields>>,
    feedings: Option<Table<FeedingFields>>,
    treatments: Option<Table<TreatmentFields>>)

  ghost predicate TablesValid(db: Database) {
    && Valid(db.enclosures)
    && Valid(db.staff)
    && Valid(db.animals)
    && Valid(db.feedings)
    && Valid(db.treatments)
  }

  /** Every table already in the file was built by this schema. */
  ghost predicate FileValid(file: DbFile) {
    && (file.enclosures.Some? ==> Valid(file.enclosures.value))
    && (file.staff.Some? ==> Valid(file.staff.value))
    && (file.animals.Some? ==> Valid(file.animals.value))
    && (file.feedings.Some? ==> Valid(file.feedings.value))
    && (file.treatments.Some? ==> Valid(file.treatments.value))
  }

  /** `CREATE TABLE IF NOT EXISTS`: an existing table is kept as it is, a missing one is
      created empty. */
  function CreateIfNotExists<T>(existing: Option<Table<T>>): (t: Table<T>)
    ensures (existing.Some? ==> Valid(existing.value)) ==> Valid(t)
    ensures existing.Some? ==> forall id :: HasId(t.rows, id) <==> HasId(existing.value.rows, id)
    ensures existing.None? ==> t.lastId == 0 && forall id :: !HasId(t.rows, id)
  {
    match existing
    case Some(t) => t
    case None => EmptyTable()
  }

  /** `init_db`: the five `CREATE TABLE IF NOT EXISTS` statements, in order. */
  function InitSchema(file: DbFile): (db: Database)
    ensures FileValid(file) ==> TablesValid(db)
    ensures file.enclosures.Some? ==> db.enclosures == file.enclosures.value
    ensures file.staff.Some? ==> db.staff == file.staff.value
    ensures file.animals.Some? ==> db.animals == file.animals.value
    ensures file.feedings.Some? ==> db.feedings == file.feedings.value
    ensures file.treatments.Some? ==> db.treatments == file.treatments.value
    ensures file.enclosures.None? ==> db.enclosures == EmptyTable()
    ensures file.staff.None? ==> db.staff == EmptyTable()
    ensures file.animals.None? ==> db.animals == EmptyTable()
    ensures file.feedings.None? ==> db.feedings == EmptyTable()
    ensures file.treatments.None? ==> db.treatments == EmptyTable()
  {
    Database(
      CreateIfNotExists(file.enclosures),
      CreateIfNotExists(file.staff),
      CreateIfNotExists(file.animals),
      CreateIfNotExists(file.feedings),
      CreateIfNotExists(file.treatments))
  }

  /** The file that holds a database's tables. */
  function Persist(db: Database): DbFile {
    DbFile(Some(db.enclosures), Some(db.staff), Some(db.animals), Some(db.feedings), Some(db.treatments))
  }

  /** Running `init_db` again on a file it has already initialised changes no row and no
      id counter. */
  lemma ReinitKeepsEverything(file: DbFile)
    ensures InitSchema(Persist(InitSchema(file))) == InitSchema(file)
  {
  }

  /** `FOREIGN KEY (enclosure_id) REFERENCES enclosures(id)`. */
  ghost predicate AnimalRefsResolve(enclosures: seq<Enclosure>, animals: seq<Animal>) {
    forall a :: a in animals ==> HasId(enclosures, a.fields.enclosureId)
  }

  /** `FOREIGN KEY (animal_id) REFERENCES animals(id)`, `FOREIGN KEY (staff_id) REFERENCES staff(id)`. */
  ghost predicate FeedingRefsResolve(animals: seq<Animal>, staff: seq<Staff>, feedings: seq<Feeding>) {
    forall f :: f in feedings ==> HasId(animals, f.fields.animalId) && HasId(staff, f.fields.staffId)
  }

  /** `FOREIGN KEY (animal_id) REFERENCES animals(id)`, `FOREIGN KEY (staff_id) REFERENCES staff(id)`. */
  ghost predicate TreatmentRefsResolve(animals: seq<Animal>, staff: seq<Staff>, treatments: seq<Treatment>) {
    forall m :: m in treatments ==> HasId(animals, m.fields.animalId) && HasId(staff, m.fields.staffId)
  }

  /** Every foreign key of every row names an existing row. */
  ghost predicate RefsResolve(db: Database) {
    && AnimalRefsResolve(db.enclosures.rows, db.animals.rows)
    && FeedingRefsResolve(db.animals.rows, db.staff.rows, db.feedings.rows)
    && TreatmentRefsResolve(db.animals.rows, db.staff.rows, db.treatments.rows)
  }

  /** Adding an enclosure keeps every enclosure id, so every reference that resolved still
      resolves. */
  lemma EnclosureInsertKeepsRefs(db: Database, e: EnclosureFields)
    requires RefsResolve(db)
    ensures RefsResolve(db.(enclosures := InsertRow(db.enclosures, e)))
  {
  }

  /** Replacing an enclosure's fields keeps every enclosure id. */
  lemma EnclosureUpdateKeepsRefs(db: Database, id: Id, e: EnclosureFields)
    requires RefsResolve(db)
    ensures RefsResolve(db.(enclosures := UpdateRow(db.enclosures, id, e)))
  {
  }

  /** Adding a staff member keeps every staff id. */
  lemma StaffInsertKeepsRefs(db: Database, s: StaffFields)
    requires RefsResolve(db)
    ensures RefsResolve(db.(staff := InsertRow(db.staff, s)))
  {
  }

  /** Replacing a staff member's fields keeps every staff id. */
  lemma StaffUpdateKeepsRefs(db: Database, id: Id, s: StaffFields)
    requires RefsResolve(db)
    ensures RefsResolve(db.(staff := UpdateRow(db.staff, id, s)))
  {
  }

  /** An animal added with an existing enclosure keeps every reference resolved. */
  lemma AnimalInsertKeepsRefs(db: Database, f: AnimalFields)
    requires RefsResolve(db)
    requires HasId(db.enclosures.rows, f.enclosureId)
    ensures RefsResolve(db.(animals := InsertRow(db.animals, f)))
  {
    var ins := InsertRow(db.animals, f);
    assert forall a :: a in ins.rows ==> a in db.animals.rows || a == Row(NextId(db.animals), f);
  }

  /** An animal updated with an existing enclosure keeps its id, so feedings and treatments
      still find it. */
  lemma AnimalUpdateKeepsRefs(db: Database, id: Id, f: AnimalFields)
    requires RefsResolve(db)
    requires HasId(db.enclosures.rows, f.enclosureId)
    ensures RefsResolve(db.(animals := UpdateRow(db.animals, id, f)))
  {
  }

  /** A feeding added with an existing animal and staff member keeps every reference resolved. */
  lemma FeedingInsertKeepsRefs(db: Database, f: FeedingFields)
    requires RefsResolve(db)
    requires HasId(db.animals.rows, f.animalId) && HasId(db.staff.rows, f.staffId)
    ensures RefsResolve(db.(feedings := InsertRow(db.feedings, f)))
  {
    var ins := InsertRow(db.feedings, f);
    assert forall x :: x in ins.rows ==> x in db.feedings.rows || x == Row(NextId(db.feedings), f);
  }

  /** A feeding updated with an existing animal and staff member keeps every reference resolved. */
  lemma FeedingUpdateKeepsRefs(db: Database, id: Id, f: FeedingFields)
    requires RefsResolve(db)
    requires HasId(db.animals.rows, f.animalId) && HasId(db.staff.rows, f.staffId)
    ensures RefsResolve(db.(feedings := UpdateRow(db.feedings, id, f)))
  {
  }

  /** No table refers to feedings, so deleting one breaks no reference. */
  lemma FeedingDeleteKeepsRefs(db: Database, id: Id)
    requires RefsResolve(db)
    ensures RefsResolve(db.(feedings := DeleteRow(db.feedings, id)))
  {
  }

  /** A treatment added with an existing animal and staff member keeps every reference resolved. */
  lemma TreatmentInsertKeepsRefs(db: Database, m: TreatmentFields)
    requires RefsResolve(db)
    requires HasId(db.animals.rows, m.animalId) && HasId(db.staff.rows, m.staffId)
    ensures RefsResolve(db.(treatments := InsertRow(db.treatments, m)))
  {
    var ins := InsertRow(db.treatments, m);
    assert forall x :: x in ins.rows ==> x in db.treatments.rows || x == Row(NextId(db.treatments), m);
  }

  /** A treatment updated with an existing animal and staff member keeps every reference resolved. */
  lemma TreatmentUpdateKeepsRefs(db: Database, id: Id, m: TreatmentFields)
    requires RefsResolve(db)
    requires HasId(db.animals.rows, m.animalId) && HasId(db.staff.rows, m.staffId)
    ensures RefsResolve(db.(treatments := UpdateRow(db.treatments, id, m)))
  {
  }

  /** No table refers to treatments, so deleting one breaks no reference. */
  lemma TreatmentDeleteKeepsRefs(db: Database, id: Id)
    requires RefsResolve(db)
    ensures RefsResolve(db.(treatments := DeleteRow(db.treatments, id)))
  {
  }

  /** Under the store's delete policy (dependents are not checked, as on a connection
      that does not enforce foreign keys), deleting an enclosure that an animal lives in
      leaves that animal dangling. */
  lemma DeleteOccupiedEnclosureDangles(db: Database, a: Animal)
    requires a in db.animals.rows
    ensures !AnimalRefsResolve(DeleteRow(db.enclosures, a.fields.enclosureId).rows, db.animals.rows)
  {
  }

  /** Deleting an animal that has a feeding, or a staff member who gave one, leaves the
      feeding dangling; the same holds for treatments. */
  lemma DeleteReferencedParentDangles(db: Database, f: Feeding, m: Treatment)
    requires f in db.feedings.rows && m in db.treatments.rows
    ensures !FeedingRefsResolve(DeleteRow(db.animals, f.fields.animalId).rows, db.staff.rows, db.feedings.rows)
    ensures !FeedingRefsResolve(db.animals.rows, DeleteRow(db.staff, f.fields.staffId).rows, db.feedings.rows)
    ensures !TreatmentRefsResolve(DeleteRow(db.animals, m.fields.animalId).rows, db.staff.rows, db.treatments.rows)
    ensures !TreatmentRefsResolve(db.animals.rows, DeleteRow(db.staff, m.fields.staffId).rows, db.treatments.rows)
  {
  }

  /** A database one row per table, every reference resolved. */
  function Sample(): (db: Database)
    ensures TablesValid(db) && RefsResolve(db)
  {
    var db := Database(
      Table([Row(1, EnclosureFields("Savanna", "outdoor", 2))], 1),
      Table([Row(1, StaffFields("Dana", "Levi", "keeper", "050-0000000"))], 1),
      Table([Row(1, AnimalFields("Leo", 5, 1, "lion"))], 1),
      Table([Row(1, FeedingFields(1, 1, 0))], 1),
      Table([Row(1, TreatmentFields(1, 1, 0, "checkup"))], 1));
    assert db.enclosures.rows[0].id == 1 && db.animals.rows[0].id == 1 && db.staff.rows[0].id == 1;
    db
  }

  /** Referential integrity is not an invariant of the store: from a consistent database,
      one parent delete of each kind breaks it. */
  lemma ParentDeletesBreakIntegrity()
    ensures exists db :: TablesValid(db) && RefsResolve(db) && !RefsResolve(db.(enclosures := DeleteRow(db.enclosures, 1)))
    ensures exists db :: TablesValid(db) && RefsResolve(db) && !RefsResolve(db.(animals := DeleteRow(db.animals, 1)))
    ensures exists db :: TablesValid(db) && RefsResolve(db) && !RefsResolve(db.(staff := DeleteRow(db.staff, 1)))
  {
    var db := Sample();
    DeleteOccupiedEnclosureDangles(db, db.animals.rows[0]);
    DeleteReferencedParentDangles(db, db.feedings.rows[0], db.treatments.rows[0]);
    assert !RefsResolve(db.(enclosures := DeleteRow(db.enclosures, 1)));
    assert !RefsResolve(db.(animals := DeleteRow(db.animals, 1)));
    assert !RefsResolve(db.(staff := DeleteRow(db.staff, 1)));
  }
}
