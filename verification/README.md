# Zoo record store — a Dafny model

The zoo service keeps five kinds of record — enclosures, staff, animals, feedings and
medical treatments — in five SQLite tables, and exposes create, list, get-by-id, update
and delete for each, plus five specialised queries: full enclosures, staff by role,
animals older than an age, feedings after a time, and treatments by staff name. Every
handler passes one SQL statement to SQLite; this model states what those statements do to
the tables.

Layout:

- `results.dfy` (`Results`): `Option`, and `Response` — the kind of answer a handler
  gives (`Ok` with its value, `NotFound`, `ConstraintError` for a rejected foreign key,
  `BadRequest` for an unparsable path argument).
- `tables.dfy` (`Tables`): one table with an `INTEGER PRIMARY KEY AUTOINCREMENT` id, as a
  value: its rows in rowid order and `lastId`, the largest id ever issued (SQLite's
  `sqlite_sequence` entry). `InsertRow`, `UpdateRow`, `DeleteRow`, `Find` and `Where` are
  written once and used for all five tables.
- `models.dfy` (`Models`): the five record kinds, as the request fields plus the row id.
  `age` and `capacity` are `i32`; timestamps are an abstract ordered value.
- `intparse.dfy` (`IntParse`): Rust's `str::parse::<i32>`, used to read the age path
  argument.
- `queries.dfy` (`Queries`): the five specialised queries as functions of table contents.
- `db.dfy` (`Db`): `init_db`'s `CREATE TABLE IF NOT EXISTS` schema, the
  foreign keys as predicates, and what writes do to them.
- `store.dfy` (`Zoo`): the `Store` class, whose five fields are the tables; create, update
  and delete are methods that reassign a field, the reads are functions of the fields.

Foreign keys follow one fixed policy: they are checked when a child row is created or
updated, and a parent delete never looks at dependent rows. No foreign key declares an
`ON DELETE` action, so SQLite applies `NO ACTION`: on a connection that enforces foreign
keys, deleting a referenced parent fails with a constraint error, while on one that does
not, the delete succeeds and leaves its children dangling. Whether a statement runs on an
enforcing connection depends on the connection pool; for parent deletes the model takes
the non-enforcing behaviour. An update whose id matches no row changes
nothing and so checks no key: it answers `NotFound` before any `ConstraintError`.
A rejected key is the handler's `500 Database error` answer; the model calls it
`ConstraintError` and shows that the table is left as it was.

The full-enclosures query is an inner join of enclosures with animals, grouped by
enclosure id, keeping the groups whose count equals the capacity. An enclosure that no
animal names has no group, so it is never returned, even with capacity 0.

## Model

| member | source | states |
|---|---|---|
| Tables.EmptyTable | app/src/db.rs:16-21 | a table just created has no rows, has issued no id (its counter is 0, so the first insert receives id 1), and satisfies the table invariant |
| Tables.Find | app/src/controllers/animal_controller.rs:56-71 | `WHERE id = ?` finds a row exactly when one carries that id, and what it finds is a row of the table with that id |
| Tables.FindUnique | app/src/db.rs:17 | since the primary key makes ids unique, the row found for an id is the one row of the table with it |
| Tables.Where | app/src/controllers/staff_controller.rs:111 | a `WHERE` filter keeps exactly the rows satisfying the condition, keeps id order, and returns the table itself when every row qualifies |
| Tables.WhereCount | app/src/controllers/feeding_controller.rs:129 | a filter keeps each qualifying row as many times as the table holds it and drops every other |
| Tables.AscendingDistinct | app/src/db.rs:17 | rows with strictly ascending ids hold no row twice |
| Tables.Valid | app/src/db.rs:17 | the AUTOINCREMENT invariant: ids strictly ascend in rowid order, are positive, and none exceeds the largest id ever issued |
| Tables.NextId | app/src/db.rs:17 | on a valid table the next id is positive and larger than every id in the table |
| Tables.InsertRow | app/src/db.rs:17 | an insert appends exactly one row, whose id is one past the largest id ever issued, is carried by no existing row, and becomes the new counter; the invariant is kept |
| Tables.Assign | app/src/controllers/feeding_controller.rs:77 | a keyed assignment changes the fields of exactly the rows with that id and moves no id |
| Tables.UpdateRow | app/src/controllers/enclosure_controller.rs:105-123 | a keyed update replaces the whole record of the row with that id, keeps every id and the counter, changes no other row, and is a no-op when no row has the id |
| Tables.DeleteRow | app/src/controllers/staff_controller.rs:93-99 | a keyed delete removes exactly the row with that id, keeps every other row and the counter, and is a no-op when no row has the id |
| Tables.IdsNeverReused | app/src/db.rs:17 | along any sequence of inserts, updates and deletes, each issued id is larger than every id issued before it, even ids since deleted, and the table invariant holds throughout |
| IntParse.ParseI32 | app/src/controllers/animal_controller.rs:137-140 | an accepted text is non-empty, is an optional sign followed by at least one digit and nothing else, and its sign matches the value's |
| IntParse.ParseShowRoundTrip | app/src/controllers/animal_controller.rs:137 | every `i32` written in decimal parses back to itself |
| IntParse.ParseAcceptsWellFormed | app/src/controllers/animal_controller.rs:137-138 | every optional sign followed by one or more digits whose value is an `i32` is accepted, with that value |
| IntParse.ParseRejectsOutOfRange | app/src/controllers/animal_controller.rs:137-139 | an optional sign followed by one or more digits whose value lies outside the `i32` range is rejected |
| IntParse.ParseRejectsMalformed | app/src/controllers/animal_controller.rs:137-139 | the empty text, a lone sign, a leading space and a trailing letter are rejected |
| IntParse.ParseRange | app/src/controllers/animal_controller.rs:137-139 | 2147483648 and -2147483649 are rejected as out of `i32` range, -2147483648 is accepted |
| IntParse.ParseLeadingZeros | app/src/controllers/animal_controller.rs:137-138 | a plus sign and leading zeros are accepted: "+007" is 7 |
| IntParse.ShowNat | app/src/controllers/animal_controller.rs:137 | the decimal rendering used as the parse's inverse is non-empty and all digits |
| Queries.AnimalsOlderThan | app/src/controllers/animal_controller.rs:142 | exactly the animals whose age is strictly greater than the bound, in id order |
| Queries.StaffWithRole | app/src/controllers/staff_controller.rs:111 | exactly the staff whose role equals the argument, character for character, in id order |
| Queries.TreatmentsByStaff | app/src/controllers/medical_treatment_controller.rs:146-148 | exactly the treatments whose staff row exists and has both names equal to the arguments; a treatment whose staff row is gone never appears |
| Queries.InsertByTime | app/src/controllers/feeding_controller.rs:129 | inserting into a time-sorted sequence keeps it sorted and adds exactly that one row |
| Queries.SortByTime | app/src/controllers/feeding_controller.rs:129 | `ORDER BY feeding_time` yields a time-sorted permutation of its input |
| Queries.FeedingsAfter | app/src/controllers/feeding_controller.rs:129 | exactly the feedings strictly later than the bound, each as often as in the table, sorted by time |
| Queries.Occupancy | app/src/controllers/enclosure_controller.rs:53 | the group size equals the number of animals a `WHERE enclosure_id = e` filter keeps; it is at most the number of animals, and positive exactly when some animal names the enclosure |
| Queries.FullEnclosures | app/src/controllers/enclosure_controller.rs:50-53 | an enclosure is returned if and only if at least one animal names it and the number that do equals its capacity, in id order, each at most once |
| Queries.CapacityTwoScenario | app/src/controllers/enclosure_controller.rs:50-53 | a capacity-2 enclosure is full with two animals and not with one or three |
| Queries.EmptyEnclosureNeverFull | app/src/controllers/enclosure_controller.rs:51 | an enclosure no animal names is never full, whatever its capacity, including 0 |
| Queries.AfterScenario | app/src/controllers/feeding_controller.rs:129 | with feedings at T-1, T and T+1, only the one at T+1 is after T |
| Db.CreateIfNotExists | app/src/db.rs:16 | the table it yields satisfies the table invariant whenever an existing one did; an existing table keeps exactly its ids, and a missing one is created holding no id with a counter of 0 |
| Db.InitSchema | app/src/db.rs:3-102 | every table already in the file is kept unchanged, every missing one is created empty, and valid tables stay valid |
| Db.ReinitKeepsEverything | app/src/db.rs:16-93 | initialising a database that was already initialised changes no row and no id counter |
| Db.AnimalRefsResolve | app/src/db.rs:55 | every animal's enclosure_id names an existing enclosure |
| Db.FeedingRefsResolve | app/src/db.rs:72-73 | every feeding's animal_id and staff_id name an existing animal and staff member |
| Db.TreatmentRefsResolve | app/src/db.rs:91-92 | every treatment's animal_id and staff_id name an existing animal and staff member |
| Db.EnclosureInsertKeepsRefs | app/src/db.rs:55 | inserting an enclosure keeps every foreign key resolved |
| Db.EnclosureUpdateKeepsRefs | app/src/db.rs:55 | updating an enclosure keeps every foreign key resolved |
| Db.StaffInsertKeepsRefs | app/src/db.rs:73 | inserting a staff member keeps every foreign key resolved |
| Db.StaffUpdateKeepsRefs | app/src/db.rs:73 | updating a staff member keeps every foreign key resolved |
| Db.AnimalInsertKeepsRefs | app/src/db.rs:49-56 | inserting an animal whose enclosure exists keeps every foreign key resolved |
| Db.AnimalUpdateKeepsRefs | app/src/db.rs:49-56 | updating an animal to an existing enclosure keeps every foreign key resolved, including those of the feedings and treatments that name the animal |
| Db.FeedingInsertKeepsRefs | app/src/db.rs:67-74 | inserting a feeding whose animal and staff member exist keeps every foreign key resolved |
| Db.FeedingUpdateKeepsRefs | app/src/db.rs:67-74 | updating a feeding to an existing animal and staff member keeps every foreign key resolved |
| Db.FeedingDeleteKeepsRefs | app/src/db.rs:67-74 | no table refers to feedings, so deleting one breaks no foreign key |
| Db.TreatmentInsertKeepsRefs | app/src/db.rs:85-93 | inserting a treatment whose animal and staff member exist keeps every foreign key resolved |
| Db.TreatmentUpdateKeepsRefs | app/src/db.rs:85-93 | updating a treatment to an existing animal and staff member keeps every foreign key resolved |
| Db.TreatmentDeleteKeepsRefs | app/src/db.rs:85-93 | no table refers to treatments, so deleting one breaks no foreign key |
| Db.DeleteOccupiedEnclosureDangles | app/src/db.rs:55 | deleting an enclosure some animal lives in leaves that animal's foreign key unresolved |
| Db.DeleteReferencedParentDangles | app/src/db.rs:72-73 | deleting the animal or the staff member a feeding or treatment names leaves that row's key unresolved |
| Db.Sample | app/src/db.rs:49-93 | a database with one row per table is valid and has every key resolved |
| Db.ParentDeletesBreakIntegrity | app/src/db.rs:91-92 | from a consistent database, deleting an enclosure, an animal or a staff member can break referential integrity |
| Zoo.Store.Open | app/src/db.rs:3-102 | opening a database file yields exactly the tables `init_db` leaves, all valid |
| Zoo.Store.Consistent | app/src/db.rs:55-92 | referential integrity of the store: every foreign key of every row names an existing row |
| Zoo.Store.CreateEnclosure | app/src/controllers/enclosure_controller.rs:7-23 | always succeeds, appends one row with a fresh id and the input fields, returns it, and get-by-id then returns it |
| Zoo.Store.ListEnclosures | app/src/controllers/enclosure_controller.rs:29 | every enclosure and no other, in strictly ascending id order |
| Zoo.Store.GetEnclosure | app/src/controllers/enclosure_controller.rs:78-92 | the enclosure with that id, or NotFound exactly when none has it |
| Zoo.Store.UpdateEnclosure | app/src/controllers/enclosure_controller.rs:105-123 | on an existing id replaces all three fields and returns the row; on an absent id returns NotFound and changes nothing |
| Zoo.Store.DeleteEnclosure | app/src/controllers/enclosure_controller.rs:136-145 | removes exactly that enclosure and touches only the enclosures table, or returns NotFound and changes nothing |
| Zoo.Store.GetFullEnclosures | app/src/controllers/enclosure_controller.rs:50-53 | exactly the enclosures with at least one animal and as many animals as their capacity |
| Zoo.Store.CreateStaff | app/src/controllers/staff_controller.rs:7-25 | always succeeds, appends one row with a fresh id and all four fields, and get-by-id then returns it |
| Zoo.Store.ListStaff | app/src/controllers/staff_controller.rs:31 | every staff member, in strictly ascending id order |
| Zoo.Store.GetStaff | app/src/controllers/staff_controller.rs:52-67 | the staff member with that id, or NotFound exactly when none has it |
| Zoo.Store.UpdateStaff | app/src/controllers/staff_controller.rs:75-86 | on an existing id replaces all four fields and answers success without the record; on an absent id NotFound with nothing changed |
| Zoo.Store.DeleteStaff | app/src/controllers/staff_controller.rs:93-100 | removes exactly that staff row, or returns NotFound and changes nothing |
| Zoo.Store.GetStaffByRole | app/src/controllers/staff_controller.rs:104-113 | exactly the staff whose role equals the argument |
| Zoo.Store.CreateAnimal | app/src/controllers/animal_controller.rs:7-25 | succeeds exactly when the enclosure exists, appending one row with a fresh id and the input fields; otherwise ConstraintError with no row added |
| Zoo.Store.ListAnimals | app/src/controllers/animal_controller.rs:31 | every animal, in strictly ascending id order |
| Zoo.Store.GetAnimal | app/src/controllers/animal_controller.rs:56-72 | the animal with that id, or NotFound exactly when none has it |
| Zoo.Store.UpdateAnimal | app/src/controllers/animal_controller.rs:84-107 | NotFound on an absent id, else ConstraintError when the enclosure does not exist, else a full replace keeping the id; only success changes the table |
| Zoo.Store.DeleteAnimal | app/src/controllers/animal_controller.rs:115-124 | removes exactly that animal, or returns NotFound and changes nothing |
| Zoo.Store.GetAnimalsOlderThan | app/src/controllers/animal_controller.rs:137-142 | BadRequest exactly when the age text is not an `i32`; otherwise exactly the animals strictly older |
| Zoo.Store.CreateFeeding | app/src/controllers/feeding_controller.rs:8-24 | succeeds exactly when the animal and the staff member exist, appending one row with a fresh id; otherwise ConstraintError with no row added |
| Zoo.Store.ListFeedings | app/src/controllers/feeding_controller.rs:30 | every feeding, in strictly ascending id order |
| Zoo.Store.GetFeeding | app/src/controllers/feeding_controller.rs:50-65 | the feeding with that id, or NotFound exactly when none has it |
| Zoo.Store.UpdateFeeding | app/src/controllers/feeding_controller.rs:77-98 | NotFound on an absent id, else ConstraintError when the animal or staff member is missing, else a full replace keeping the id; only success changes the table |
| Zoo.Store.DeleteFeeding | app/src/controllers/feeding_controller.rs:105-112 | removes exactly that feeding, or returns NotFound and changes nothing |
| Zoo.Store.GetFeedingsAfter | app/src/controllers/feeding_controller.rs:123-129 | BadRequest exactly when the date does not parse; otherwise exactly the feedings strictly later, each once, sorted by time |
| Zoo.Store.CreateTreatment | app/src/controllers/medical_treatment_controller.rs:10-31 | succeeds exactly when the animal and the staff member exist, appending one row with a fresh id and returning it; otherwise ConstraintError with no row added |
| Zoo.Store.ListTreatments | app/src/controllers/medical_treatment_controller.rs:36 | every treatment, in strictly ascending id order |
| Zoo.Store.GetTreatment | app/src/controllers/medical_treatment_controller.rs:63-79 | the treatment with that id, or NotFound exactly when none has it |
| Zoo.Store.UpdateTreatment | app/src/controllers/medical_treatment_controller.rs:90-113 | NotFound on an absent id, else ConstraintError when the animal or staff member is missing, else all four fields replaced keeping the id; only success changes the table |
| Zoo.Store.DeleteTreatment | app/src/controllers/medical_treatment_controller.rs:123-135 | removes exactly that treatment, or returns NotFound and changes nothing |
| Zoo.Store.GetTreatmentsByStaff | app/src/controllers/medical_treatment_controller.rs:146-148 | exactly the treatments whose existing staff row has both names equal to the arguments |
| Zoo.NoTables | app/src/db.rs:3-5 | a database file with no tables yet is a valid starting point |
| Zoo.OpenSavanna | app/src/controllers/animal_controller.rs:7-22 | on a fresh database, one enclosure and two animals in it receive ids 1, 1 and 2 |
| Zoo.AddGiraffe | app/src/controllers/animal_controller.rs:7-22 | a third animal created in the enclosure receives id 3 and goes last |
| Zoo.SavannaScenario | app/src/controllers/enclosure_controller.rs:50-53 | through the store's own operations, the capacity-2 enclosure is the one full enclosure with two animals, and none is full after a third arrives |

Each write method also states the whole new table (`InsertRow`, `UpdateRow` or `DeleteRow`
of the old one), keeps the table invariant, and, except for parent deletes, keeps every
foreign key resolved when all were resolved before.

## Left out

- HTTP routing, JSON bodies, status codes and response texts: each handler is modelled by
  the kind of answer it gives and the record it returns.
- Connection pooling, `async`, and concurrent requests: the store is sequential.
- `PRAGMA foreign_keys = ON` runs on a single pooled connection, so whether SQLite enforces
  a key depends on the connection; the model fixes the policy described above, under
  which parent deletes always succeed and may leave children dangling
  (`Db.ParentDeletesBreakIntegrity`).
- The `%Y-%m-%dT%H:%M:%S` timestamp parse and the TEXT encoding of timestamps: a timestamp
  is an integer on the time line, the parse a parameter of `Zoo.Store.GetFeedingsAfter`.
- Zoo.Store.DeleteEnclosure, Zoo.Store.DeleteAnimal, Zoo.Store.DeleteStaff: on a
  connection that enforces foreign keys, SQLite rejects the delete of a parent that still
  has children with a constraint error; the model always performs the delete, as a
  non-enforcing connection does, and does not capture that rejection.
- Engine and connectivity errors (the `500` answer that is not a key violation), `println!`
  logging, and the database file path.
- Ids are unbounded integers: the 64-bit limit of `last_insert_rowid` and SQLite's "database
  full" error on exhausting the rowid range are not modelled.
- Queries.SortByTime: rows with equal feeding times keep their table order; SQLite leaves
  that order unspecified, and the model states only that the result is sorted and a
  permutation.
- Queries.AnimalsOlderThan, Queries.StaffWithRole, Queries.TreatmentsByStaff and
  Queries.FullEnclosures return rows in id order; their SQL has no `ORDER BY`, so the real
  order is whatever SQLite's scan gives.
- NOT NULL column constraints: every field of a request is always present in the model, so
  there is nothing to reject.
