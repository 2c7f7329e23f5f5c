/** The five record kinds of the zoo. Each record is a row: its system-assigned id together
    with the fields a create or update request carries. */
module Models {
  import opened Tables

  /** Rust's `i32`. */
  type Int32 = x: int | -0x8000_0000 <= x < 0x8000_0000

  /** A `NaiveDateTime`, abstracted to its position on the time line. Stored timestamps and
      query bounds share one text encoding, so comparing them compares instants. */
  type Timestamp = int

  datatype EnclosureFields = EnclosureFields(name: string, enclosureType: string, capacity: Int32)

  datatype StaffFields = StaffFields(firstName: string, lastName: string, role: string, phone: string)

  datatype AnimalFields = AnimalFields(name: string, age: Int32, enclosureId: Id, species: string)

  datatype FeedingFields = FeedingFields(animalId: Id, staffId: Id, feedingTime: Timestamp)

  datatype TreatmentFields = TreatmentFields(animalId: Id, staffId: Id, date: Timestamp, description: string)

  type Enclosure = Row<EnclosureFields>
  type Staff = Row<StaffFields>
  type Animal = Row<AnimalFields>
  type Feeding = Row<FeedingFields>
  type Treatment = Row<TreatmentFields>
}
