/**
 * The enrollment table behind the repository: a map keyed by the unique
 * (studentId, courseId) pair, in place of the relational store.
 */
module EnrollmentRepository {
  import opened Wrappers
  import opened Enrollments

  type Table = map<Key, Enrollment>

  /** Every record sits under its own (studentId, courseId) key. */
  predicate KeysMatch(table: Table) {
    forall k | k in table :: KeyOf(table[k]) == k
  }

  /** The lookup by the unique key, as a value: the record for (studentId, courseId), if any. */
  function Lookup(table: Table, studentId: string, courseId: string): (r: Option<Enrollment>)
    requires KeysMatch(table)
    ensures r.Some? ==> r.value in table.Values && KeyOf(r.value) == Key(studentId, courseId)
    ensures forall e | e in table.Values && KeyOf(e) == Key(studentId, courseId) :: r == Some(e)
  {
    var k := Key(studentId, courseId);
    if k in table then Some(table[k]) else None
  }

  /** The table after `updateProgress` on an existing key: only that record's three fields change. */
  function Updated(table: Table, k: Key, completedLessons: seq<string>, progress: int, now: int): (t: Table)
    requires k in table
    ensures t.Keys == table.Keys
    ensures t[k] == table[k].(completedLessons := completedLessons, progress := progress, lastAccessedAt := now)
    ensures forall j | j in table && j != k :: t[j] == table[j]
  {
    table[k := table[k].(completedLessons := completedLessons, progress := progress, lastAccessedAt := now)]
  }

  /** Read-your-writes: looking the key up after an update returns exactly the written values. */
  lemma ReadYourWrites(table: Table, studentId: string, courseId: string, completedLessons: seq<string>, progress: int, now: int)
    requires KeysMatch(table) && Key(studentId, courseId) in table
    ensures KeysMatch(Updated(table, Key(studentId, courseId), completedLessons, progress, now))
    ensures var r := Lookup(Updated(table, Key(studentId, courseId), completedLessons, progress, now), studentId, courseId);
            r.Some? && r.value.completedLessons == completedLessons && r.value.progress == progress
            && r.value.lastAccessedAt == now && r.value.id == table[Key(studentId, courseId)].id
  {
  }

  class EnrollmentStore {
    var table: Table

    predicate Valid()
      reads this
    {
      KeysMatch(table)
    }

    constructor ()
      ensures Valid() && table == map[]
    {
      table := map[];
    }

    /** `findByStudentId`: exactly the records of that student (the store's row order is not modelled). */
    method FindByStudentId(studentId: string) returns (found: set<Enrollment>)
      ensures forall e :: e in found <==> e in table.Values && e.studentId == studentId
    {
      found := set k | k in table && table[k].studentId == studentId :: table[k];
    }

    /** `findByStudentAndCourse`: the single record under the unique key, or none. */
    method FindByStudentAndCourse(studentId: string, courseId: string) returns (found: Option<Enrollment>)
      requires Valid()
      ensures found == Lookup(table, studentId, courseId)
    {
      var k := Key(studentId, courseId);
      if k in table {
        found := Some(table[k]);
      } else {
        found := None;
      }
    }

    /**
     * `create`: a zero-progress record with no completed lessons. Creating a key that
     * already exists violates the unique constraint: nothing is written.
     */
    method Create(studentId: string, courseId: string, id: string, now: int) returns (created: Option<Enrollment>)
      requires Valid()
      modifies this
      ensures Valid()
      ensures Key(studentId, courseId) in old(table) ==> created == None && table == old(table)
      ensures Key(studentId, courseId) !in old(table) ==>
                created == Some(NewEnrollment(id, studentId, courseId, now)) &&
                table == old(table)[Key(studentId, courseId) := NewEnrollment(id, studentId, courseId, now)]
    {
      var k := Key(studentId, courseId);
      if k in table {
        created := None;
      } else {
        var e := NewEnrollment(id, studentId, courseId, now);
        table := table[k := e];
        created := Some(e);
      }
    }

    /**
     * `updateProgress`: replaces completedLessons and progress with the given values
     * and refreshes lastAccessedAt. Updating a missing key fails and writes nothing.
     */
    method UpdateProgress(studentId: string, courseId: string, completedLessons: seq<string>, progress: int, now: int)
      returns (updated: Option<Enrollment>)
      requires Valid()
      modifies this
      ensures Valid()
      ensures Key(studentId, courseId) !in old(table) ==> updated == None && table == old(table)
      ensures Key(studentId, courseId) in old(table) ==>
                table == Updated(old(table), Key(studentId, courseId), completedLessons, progress, now) &&
                updated == Some(table[Key(studentId, courseId)])
    {
      var k := Key(studentId, courseId);
      if k in table {
        table := Updated(table, k, completedLessons, progress, now);
        updated := Some(table[k]);
      } else {
        updated := None;
      }
    }

    /** `deleteMany` on enrollments where studentId matches: every record of that student goes, no other. */
    method DeleteByStudentId(studentId: string)
      requires Valid()
      modifies this
      ensures Valid()
      ensures forall k :: k in table <==> k in old(table) && k.studentId != studentId
      ensures forall k | k in table :: table[k] == old(table)[k]
    {
      table := map k | k in table && k.studentId != studentId :: table[k];
    }
  }
}
