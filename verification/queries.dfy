/** The specialised read queries, as functions of the table contents. None of them changes
    a table. */
module Queries {
  import opened Tables
  import opened Models

  /** `SELECT ... FROM animals WHERE age > ?`, in table order. */
  function AnimalsOlderThan(animals: seq<Animal>, n: int): (r: seq<Animal>)
    ensures forall a :: a in r <==> a in animals && a.fields.age > n
    ensures Ascending(animals) ==> Ascending(r)
  {
    Where(animals, (a: Animal) => a.fields.age > n)
  }

  /** `SELECT * FROM staff WHERE role = ?`: an exact, case-sensitive match, in table order. */
  function StaffWithRole(staff: seq<Staff>, role: string): (r: seq<Staff>)
    ensures forall s :: s in r <==> s in staff && s.fields.role == role
    ensures Ascending(staff) ==> Ascending(r)
  {
    Where(staff, (s: Staff) => s.fields.role == role)
  }

  /** The staff row `m` names exists and carries exactly these first and last names. */
  predicate TreatedBy(m: Treatment, staff: seq<Staff>, first: string, last: string) {
    exists s :: s in staff && s.id == m.fields.staffId && s.fields.firstName == first && s.fields.lastName == last
  }

  /** The treatments joined with the staff row their staff_id names, kept when that row's
      first and last names both equal the arguments; in table order. A treatment whose staff
      row no longer exists has no join partner and never appears. */
  function TreatmentsByStaff(treatments: seq<Treatment>, staff: seq<Staff>, first: string, last: string): (r: seq<Treatment>)
    ensures forall m :: m in r <==> m in treatments && TreatedBy(m, staff, first, last)
    ensures forall m :: m in r ==> HasId(staff, m.fields.staffId)
    ensures Ascending(treatments) ==> Ascending(r)
  {
    var r := Where(treatments, (m: Treatment) => TreatedBy(m, staff, first, last));
    assert forall m :: m in r ==> HasId(staff, m.fields.staffId) by {
      forall m | m in r ensures HasId(staff, m.fields.staffId) {
        var s :| s in staff && s.id == m.fields.staffId && s.fields.firstName == first && s.fields.lastName == last;
        var i :| 0 <= i < |staff| && staff[i] == s;
      }
    }
    r
  }

  ghost predicate SortedByTime(s: seq<Feeding>) {
    forall i, j :: 0 <= i < j < |s| ==> s[i].fields.feedingTime <= s[j].fields.feedingTime
  }

  /** Place `f` before the first row of a time-sorted sequence that is later than it. */
  function InsertByTime(f: Feeding, s: seq<Feeding>): (r: seq<Feeding>)
    requires SortedByTime(s)
    ensures SortedByTime(r)
    ensures multiset(r) == multiset(s) + multiset{f}
  {
    if s == [] || f.fields.feedingTime <= s[0].fields.feedingTime then [f] + s
    else
      var rest := InsertByTime(f, s[1..]);
      InsertBehindHead(f, s, rest);
      [s[0]] + rest
  }

  lemma InsertBehindHead(f: Feeding, s: seq<Feeding>, rest: seq<Feeding>)
    requires SortedByTime(s) && s != []
    requires s[0].fields.feedingTime < f.fields.feedingTime
    requires SortedByTime(rest) && multiset(rest) == multiset(s[1..]) + multiset{f}
    ensures SortedByTime([s[0]] + rest)
    ensures multiset([s[0]] + rest) == multiset(s) + multiset{f}
  {
    assert s == [s[0]] + s[1..];
    forall k | 0 <= k < |rest| ensures s[0].fields.feedingTime <= rest[k].fields.feedingTime {
      assert rest[k] in multiset(rest);
      if rest[k] != f {
        assert rest[k] in s[1..];
        var m :| 0 <= m < |s[1..]| && s[1..][m] == rest[k];
        assert s[m + 1] == rest[k];
      }
    }
  }

  /** `ORDER BY feeding_time`: a time-sorted permutation (rows with equal times keep their
      table order). */
  function SortByTime(s: seq<Feeding>): (r: seq<Feeding>)
    ensures SortedByTime(r)
    ensures multiset(r) == multiset(s)
  {
    if s == [] then []
    else
      assert s == [s[0]] + s[1..];
      InsertByTime(s[0], SortByTime(s[1..]))
  }

  /** `SELECT ... FROM feedings WHERE feeding_time > ? ORDER BY feeding_time`: every row
      later than `t`, as often as it is in the table, and no other, in time order. */
  function FeedingsAfter(feedings: seq<Feeding>, t: Timestamp): (r: seq<Feeding>)
    ensures forall x :: x in r <==> x in feedings && x.fields.feedingTime > t
    ensures forall x :: multiset(r)[x] == if x.fields.feedingTime > t then multiset(feedings)[x] else 0
    ensures SortedByTime(r)
  {
    var later := (x: Feeding) => x.fields.feedingTime > t;
    WhereCount(feedings, later);
    var r := SortByTime(Where(feedings, later));
    assert forall x :: x in r <==> x in multiset(Where(feedings, later));
    r
  }

  /** The animal lives in enclosure `e`. */
  function LivesIn(e: Id): Animal -> bool {
    (a: Animal) => a.fields.enclosureId == e
  }

  /** The size of one join group: the number of animals whose enclosure_id is `e`. */
  function Occupancy(animals: seq<Animal>, e: Id): (c: nat)
    ensures c == |Where(animals, LivesIn(e))|
    ensures c <= |animals|
    ensures c > 0 <==> exists a :: a in animals && a.fields.enclosureId == e
  {
    if animals == [] then 0
    else
      assert animals == [animals[0]] + animals[1..];
      (if animals[0].fields.enclosureId == e then 1 else 0) + Occupancy(animals[1..], e)
  }

  /** Enclosures joined with the animals that live in them, one group per enclosure, kept
      when the group's size equals the capacity. The inner join leaves out every enclosure
      without animals, whatever its capacity; grouping by the enclosure id lists each
      enclosure at most once. */
  function FullEnclosures(enclosures: seq<Enclosure>, animals: seq<Animal>): (r: seq<Enclosure>)
    ensures forall e :: e in r <==> e in enclosures && 0 < Occupancy(animals, e.id) == e.fields.capacity
    ensures Ascending(enclosures) ==> Ascending(r)
  {
    Where(enclosures, (e: Enclosure) => 0 < Occupancy(animals, e.id) == e.fields.capacity)
  }

  /** An enclosure of capacity 2 is full with exactly two animals, not with one or three. */
  lemma CapacityTwoScenario(e: Enclosure, a1: Animal, a2: Animal, a3: Animal)
    requires e.fields.capacity == 2
    requires a1.fields.enclosureId == a2.fields.enclosureId == a3.fields.enclosureId == e.id
    ensures FullEnclosures([e], [a1]) == []
    ensures FullEnclosures([e], [a1, a2]) == [e]
    ensures FullEnclosures([e], [a1, a2, a3]) == []
  {
    assert Occupancy([a1], e.id) == 1;
    assert [a1, a2][1..] == [a2];
    assert Occupancy([a1, a2], e.id) == 2;
    assert [a1, a2, a3][1..] == [a2, a3];
    assert [a2, a3][1..] == [a3];
    assert Occupancy([a1, a2, a3], e.id) == 3;
  }

  /** An enclosure that no animal names is never full, even with capacity 0. */
  lemma EmptyEnclosureNeverFull(enclosures: seq<Enclosure>, animals: seq<Animal>, e: Enclosure)
    requires forall a :: a in animals ==> a.fields.enclosureId != e.id
    ensures e !in FullEnclosures(enclosures, animals)
  {
  }

  /** With feedings at t - 1, t and t + 1, only the one at t + 1 is later than t. */
  lemma AfterScenario(t: Timestamp, f1: Feeding, f2: Feeding, f3: Feeding)
    requires f1.fields.feedingTime == t - 1
    requires f2.fields.feedingTime == t
    requires f3.fields.feedingTime == t + 1
    ensures FeedingsAfter([f1, f2, f3], t) == [f3]
  {
    var r := FeedingsAfter([f1, f2, f3], t);
    assert multiset(r)[f3] == multiset([f1, f2, f3])[f3] >= 1;
    assert forall x :: x in r ==> x == f3;
    assert multiset(r) == multiset{f3} by {
      forall x ensures multiset(r)[x] == multiset{f3}[x] {
        if x == f3 {
          assert multiset([f1, f2, f3])[f3] == 1;
        }
      }
    }
    assert |r| == |multiset(r)| == 1;
    assert r[0] in r;
  }
}
