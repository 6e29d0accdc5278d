/**
 * The backend enrollment handlers. `MarkLessonCompleted` is the producer of
 * `LessonCompleted`: it looks the enrollment up, writes the new completion through
 * the repository, then publishes the event on the bus.
 */
module EnrollmentController {
  import opened Wrappers
  import opened Progress
  import opened DomainEvents
  import opened Enrollments
  import opened EnrollmentRepository
  import opened EventBus
  import opened CourseCompletion
  import opened Requests

  const MissingStudentId: string := "Missing studentId"
  const InternalError: string := "Internal Server Error"

  /** The JSON reply `{ data, error }` with its HTTP status. */
  datatype Response = Response(status: int, data: Option<Enrollment>, error: Option<string>)
  datatype ListResponse = ListResponse(status: int, data: Option<set<Enrollment>>, error: Option<string>)

  /** The outcome of marking a lesson: the reply, the table afterwards, and the event to publish, if any. */
  datatype MarkResult = MarkResult(response: Response, table: Table, event: Option<DomainEvent>)

  /**
   * `markLessonCompleted` over the table. A missing enrollment is a 404 with no write;
   * an already-completed lesson returns the stored record with no write and no event;
   * only a new completion writes the record, with progress under `rule`, and yields a
   * `LessonCompleted` event. `Mark(AsWritten, …)` is the handler as the source has it.
   */
  function Mark(rule: Rounding, table: Table, studentId: string, courseId: string, lessonId: string, totalLessons: nat, now: int)
    : (r: MarkResult)
    requires KeysMatch(table) && totalLessons > 0
    ensures KeysMatch(r.table) && r.table.Keys == table.Keys
    ensures Key(studentId, courseId) !in table ==>
              r == MarkResult(Response(404, None, Some(EnrollmentNotFound)), table, None)
    ensures r.event.Some? <==>
              Key(studentId, courseId) in table && lessonId !in table[Key(studentId, courseId)].completedLessons
    ensures r.event.None? ==> r.table == table
    ensures Key(studentId, courseId) in table && r.event.None? ==>
              r.response == Response(200, Some(table[Key(studentId, courseId)]), None)
    ensures r.event.Some? ==>
              var k := Key(studentId, courseId);
              && r.event.value == NewLessonCompleted(studentId, courseId, lessonId, now)
              && r.table[k] == WithLessonCompleted(rule, table[k], lessonId, totalLessons, now)
              && (forall j | j in table && j != k :: r.table[j] == table[j])
              && r.response == Response(200, Some(r.table[k]), None)
  {
    var found := Lookup(table, studentId, courseId);
    if found.None? then
      MarkResult(Response(404, None, Some(EnrollmentNotFound)), table, None)
    else if lessonId in found.value.completedLessons then
      MarkResult(Response(200, found, None), table, None)
    else
      var k := Key(studentId, courseId);
      var newCompleted := found.value.completedLessons + [lessonId];
      var progress := Percent(rule, |newCompleted|, totalLessons);
      var table' := Updated(table, k, newCompleted, progress, now);
      MarkResult(Response(200, Some(table'[k]), None), table', Some(NewLessonCompleted(studentId, courseId, lessonId, now)))
  }

  /** For a course of fewer than 200 lessons the corrected rule changes nothing: both rules give the same mark. */
  lemma MarkRulesAgreeBelow200(table: Table, studentId: string, courseId: string, lessonId: string,
                               totalLessons: nat, now: int)
    requires KeysMatch(table) && 0 < totalLessons < 200
    ensures Mark(AsWritten, table, studentId, courseId, lessonId, totalLessons, now)
            == Mark(Corrected, table, studentId, courseId, lessonId, totalLessons, now)
  {
    var k := Key(studentId, courseId);
    if k in table {
      PercentRulesAgreeBelow200(|table[k].completedLessons| + 1, totalLessons);
    }
  }

  /** Marking the same lesson a second time changes nothing and publishes nothing. */
  lemma MarkIdempotent(rule: Rounding, table: Table, studentId: string, courseId: string, lessonId: string, totalLessons: nat, now: int, later: int)
    requires KeysMatch(table) && totalLessons > 0
    ensures var once := Mark(rule, table, studentId, courseId, lessonId, totalLessons, now);
            var twice := Mark(rule, once.table, studentId, courseId, lessonId, totalLessons, later);
            twice.table == once.table && twice.event == None
            && twice.response.data == once.response.data
  {
  }

  /** The lessons of a course, in order: the denominator of the progress. */
  predicate WithinCourse(completed: seq<string>, lessons: seq<string>) {
    forall l | l in completed :: l in lessons
  }

  lemma {:induction false} DistinctCard(s: seq<string>)
    requires Distinct(s)
    ensures |set x | x in s| == |s|
  {
    if s != [] {
      var init := s[..|s| - 1];
      assert Distinct(init);
      DistinctCard(init);
      assert (set x | x in s) == (set x | x in init) + {s[|s| - 1]};
      assert s[|s| - 1] !in init;
    }
  }

  lemma {:induction false} CardSubset(a: set<string>, b: set<string>)
    requires a <= b
    ensures |a| <= |b|
    ensures |a| == |b| ==> a == b
    decreases |b|
  {
    if b != {} {
      var x :| x in b;
      CardSubset(a - {x}, b - {x});
      if x in a {
        assert |a - {x}| == |a| - 1;
        assert a == (a - {x}) + {x};
        assert b == (b - {x}) + {x};
      } else {
        assert a - {x} == a;
      }
    }
  }

  /**
   * The enrollment invariant a new completion keeps when its lessons belong to the
   * course: completed lessons stay duplicate-free and within the course, progress stays
   * in 0..100, and it is 100 when every lesson of the course is completed. The converse,
   * 100 only then, holds under `ExactAtEnd`: as written it fails from 200 lessons.
   */
  lemma MarkKeepsProgressInvariant(rule: Rounding, table: Table, studentId: string, courseId: string, lessonId: string,
                                   lessons: seq<string>, now: int)
    requires KeysMatch(table) && Key(studentId, courseId) in table
    requires Distinct(lessons) && lessonId in lessons
    requires Distinct(table[Key(studentId, courseId)].completedLessons)
    requires WithinCourse(table[Key(studentId, courseId)].completedLessons, lessons)
    ensures var e := Mark(rule, table, studentId, courseId, lessonId, |lessons|, now).table[Key(studentId, courseId)];
            && Distinct(e.completedLessons)
            && WithinCourse(e.completedLessons, lessons)
            && (lessonId !in table[Key(studentId, courseId)].completedLessons ==>
                  && 0 <= e.progress <= 100
                  && ((forall l | l in lessons :: l in e.completedLessons) ==> e.progress == 100)
                  && (ExactAtEnd(rule, |lessons|) && e.progress == 100 ==>
                        forall l | l in lessons :: l in e.completedLessons))
  {
    var k := Key(studentId, courseId);
    var prior := table[k].completedLessons;
    if lessonId !in prior {
      var e := Mark(rule, table, studentId, courseId, lessonId, |lessons|, now).table[k];
      var c := e.completedLessons;
      assert c == prior + [lessonId];
      assert Distinct(c);
      DistinctCard(c);
      DistinctCard(lessons);
      var cs, ls := set x | x in c, set x | x in lessons;
      assert cs <= ls;
      CardSubset(cs, ls);
      assert |c| <= |lessons|;
      if ExactAtEnd(rule, |lessons|) && e.progress == 100 {
        assert |c| == |lessons|;
        assert cs == ls;
        forall l | l in lessons
          ensures l in c
        {
          assert l in ls;
        }
      }
      if forall l | l in lessons :: l in c {
        assert ls <= cs;
        CardSubset(ls, cs);
      }
    }
  }

  /** The table after marking `lessons` one after another, all at instant `now`. */
  function MarkAll(rule: Rounding, table: Table, studentId: string, courseId: string, lessons: seq<string>, totalLessons: nat, now: int)
    : (t: Table)
    requires KeysMatch(table) && totalLessons > 0
    ensures KeysMatch(t) && t.Keys == table.Keys
    decreases |lessons|
  {
    if lessons == [] then table
    else
      var before := MarkAll(rule, table, studentId, courseId, lessons[..|lessons| - 1], totalLessons, now);
      Mark(rule, before, studentId, courseId, lessons[|lessons| - 1], totalLessons, now).table
  }

  /** Every event one mark request publishes: the lesson event and whatever its handlers publish. */
  function MarkTrace(rule: Rounding, registry: Registry, table: Table, studentId: string, courseId: string,
                     lessonId: string, totalLessons: nat, now: int): seq<DomainEvent>
    requires KeysMatch(table) && totalLessons > 0
  {
    var r := Mark(rule, table, studentId, courseId, lessonId, totalLessons, now);
    if r.event.Some? then Cascade(registry, r.table, r.event.value, now) else []
  }

  /** From a fresh enrollment, marking distinct lessons in turn leaves exactly those lessons completed. */
  lemma {:induction false} MarkAllCompletes(rule: Rounding, table: Table, studentId: string, courseId: string,
                                            lessons: seq<string>, totalLessons: nat, now: int)
    requires KeysMatch(table) && totalLessons > 0
    requires Key(studentId, courseId) in table && table[Key(studentId, courseId)].completedLessons == []
    requires Distinct(lessons)
    ensures var t := MarkAll(rule, table, studentId, courseId, lessons, totalLessons, now);
            Key(studentId, courseId) in t && t[Key(studentId, courseId)].completedLessons == lessons
    decreases |lessons|
  {
    if lessons != [] {
      var init, last := lessons[..|lessons| - 1], lessons[|lessons| - 1];
      assert Distinct(init);
      MarkAllCompletes(rule, table, studentId, courseId, init, totalLessons, now);
      assert last !in init;
      assert init + [last] == lessons;
    }
  }

  /** From a fresh enrollment, after n distinct lessons the progress is that of n lessons out of the total. */
  lemma MarkAllProgress(rule: Rounding, table: Table, studentId: string, courseId: string, lessons: seq<string>,
                        totalLessons: nat, now: int)
    requires KeysMatch(table) && totalLessons > 0
    requires Key(studentId, courseId) in table && table[Key(studentId, courseId)].completedLessons == []
    requires Distinct(lessons) && lessons != []
    ensures MarkAll(rule, table, studentId, courseId, lessons, totalLessons, now)[Key(studentId, courseId)].progress
            == Percent(rule, |lessons|, totalLessons)
  {
    var init := lessons[..|lessons| - 1];
    assert Distinct(init);
    MarkAllCompletes(rule, table, studentId, courseId, init, totalLessons, now);
    assert lessons[|lessons| - 1] !in init;
  }

  /**
   * With the subscriber registered once, marking lesson k+1 of an N-lesson course, the
   * lessons before it already marked from a fresh enrollment, publishes one
   * `CourseCompleted` exactly when the progress of k+1 lessons is 100.
   */
  lemma MarkTraceCompletions(rule: Rounding, registry: Registry, table: Table, studentId: string, courseId: string,
                             lessons: seq<string>, now: int, k: nat)
    requires KeysMatch(table) && Key(studentId, courseId) in table
    requires table[Key(studentId, courseId)].completedLessons == []
    requires Distinct(lessons) && k < |lessons|
    requires Count(HandlersFor(registry, LessonCompletedName), CourseCompletionCheck) == 1
    ensures var before := MarkAll(rule, table, studentId, courseId, lessons[..k], |lessons|, now);
            CourseCompletions(MarkTrace(rule, registry, before, studentId, courseId, lessons[k], |lessons|, now))
            == if Percent(rule, k + 1, |lessons|) == 100 then 1 else 0
  {
    var key := Key(studentId, courseId);
    var n := |lessons|;
    var prefix := lessons[..k];
    assert Distinct(prefix);
    MarkAllCompletes(rule, table, studentId, courseId, prefix, n, now);
    var before := MarkAll(rule, table, studentId, courseId, prefix, n, now);
    assert lessons[k] !in prefix;
    var r := Mark(rule, before, studentId, courseId, lessons[k], n, now);
    assert r.table[key].progress == Percent(rule, k + 1, n);
    LessonCompletionCascade(registry, r.table, r.event.value, now);
  }

  /**
   * Completion propagation under `ExactAtEnd` (the corrected rule, or any course of
   * fewer than 200 lessons as written): marking the lessons of an N-lesson course in
   * turn, from a fresh enrollment, publishes no `CourseCompleted` for the first N-1
   * lessons and exactly one for the N-th.
   */
  lemma CourseCompletedExactlyAtLastLesson(rule: Rounding, registry: Registry, table: Table, studentId: string,
                                           courseId: string, lessons: seq<string>, now: int, k: nat)
    requires KeysMatch(table) && Key(studentId, courseId) in table
    requires table[Key(studentId, courseId)].completedLessons == []
    requires Distinct(lessons) && k < |lessons|
    requires Count(HandlersFor(registry, LessonCompletedName), CourseCompletionCheck) == 1
    ensures var before := MarkAll(rule, table, studentId, courseId, lessons[..k], |lessons|, now);
            var events := MarkTrace(rule, registry, before, studentId, courseId, lessons[k], |lessons|, now);
            && (k == |lessons| - 1 ==> CourseCompletions(events) == 1)
            && (ExactAtEnd(rule, |lessons|) && k < |lessons| - 1 ==> CourseCompletions(events) == 0)
  {
    MarkTraceCompletions(rule, registry, table, studentId, courseId, lessons, now, k);
  }

  /** As written, the next-to-last lesson of a course of 200 or more lessons brings progress to 100. */
  lemma OneShortRoundsUp(n: nat)
    requires n >= 200
    ensures Percent(AsWritten, n - 2 + 1, n) == 100
  {
    assert !ExactAtEnd(AsWritten, n);
  }

  /**
   * As written, a course of 200 lessons or more completes early: marking lesson N-1,
   * one short of the end, already publishes a `CourseCompleted` (399 of 400 is 99.75 %,
   * rounded to 100).
   */
  lemma CourseCompletedEarlyAsWritten(registry: Registry, table: Table, studentId: string, courseId: string,
                                      lessons: seq<string>, now: int, k: nat)
    requires KeysMatch(table) && Key(studentId, courseId) in table
    requires table[Key(studentId, courseId)].completedLessons == []
    requires Distinct(lessons) && |lessons| >= 200 && k == |lessons| - 2
    requires Count(HandlersFor(registry, LessonCompletedName), CourseCompletionCheck) == 1
    ensures var before := MarkAll(AsWritten, table, studentId, courseId, lessons[..k], |lessons|, now);
            CourseCompletions(MarkTrace(AsWritten, registry, before, studentId, courseId, lessons[k], |lessons|, now)) == 1
  {
    OneShortRoundsUp(|lessons|);
    MarkTraceCompletions(AsWritten, registry, table, studentId, courseId, lessons, now, k);
  }

  /**
   * `markLessonCompleted`. The store write happens before the publish, so the handlers
   * re-read the updated record. A rejected publish (`publishRejects`) turns the reply
   * into a 500 but does not undo the write: the two are not atomic.
   */
  method MarkLessonCompleted(rule: Rounding, store: EnrollmentStore, bus: InMemoryEventBus, studentId: string,
                             courseId: string, lessonId: string, totalLessons: nat, now: int, publishRejects: bool)
    returns (response: Response, published: seq<DomainEvent>)
    requires store.Valid() && WiredForCompletion(bus.handlers) && totalLessons > 0
    modifies store
    ensures store.Valid()
    ensures var r := Mark(rule, old(store.table), studentId, courseId, lessonId, totalLessons, now);
            && store.table == r.table
            && (r.event.None? ==> published == [] && response == r.response)
            && (r.event.Some? ==> published == Cascade(bus.handlers, store.table, r.event.value, now))
            && (r.event.Some? && publishRejects ==> response == Response(500, None, Some(InternalError)))
            && (r.event.Some? && !publishRejects ==> response == r.response)
  {
    var found := store.FindByStudentAndCourse(studentId, courseId);
    if found.None? {
      response, published := Response(404, None, Some(EnrollmentNotFound)), [];
      return;
    }
    var enrollment := found.value;
    if lessonId !in enrollment.completedLessons {
      var newCompleted := enrollment.completedLessons + [lessonId];
      var progress := Percent(rule, |newCompleted|, totalLessons);
      var updated := store.UpdateProgress(studentId, courseId, newCompleted, progress, now);
      var event := NewLessonCompleted(studentId, courseId, lessonId, now);
      published := Deliver(bus, store, event, now);
      if publishRejects {
        response := Response(500, None, Some(InternalError));
      } else {
        response := Response(200, updated, None);
      }
      return;
    }
    response, published := Response(200, Some(enrollment), None), [];
  }

  /**
   * `enroll`: a missing studentId or courseId is a 400; an existing pair is a 400 that
   * returns the existing record; otherwise a zero-progress record is created.
   */
  method Enroll(store: EnrollmentStore, studentId: Option<string>, courseId: Option<string>, id: string, now: int)
    returns (response: Response)
    requires store.Valid()
    modifies store
    ensures store.Valid()
    ensures !Truthy(studentId) || !Truthy(courseId) ==>
              response == Response(400, None, Some(MissingParameters)) && store.table == old(store.table)
    ensures Truthy(studentId) && Truthy(courseId) && Key(studentId.value, courseId.value) in old(store.table) ==>
              && response == Response(400, Some(old(store.table)[Key(studentId.value, courseId.value)]), Some(AlreadyEnrolled))
              && store.table == old(store.table)
    ensures Truthy(studentId) && Truthy(courseId) && Key(studentId.value, courseId.value) !in old(store.table) ==>
              var e := NewEnrollment(id, studentId.value, courseId.value, now);
              && store.table == old(store.table)[Key(studentId.value, courseId.value) := e]
              && response == Response(200, Some(e), None)
  {
    if !Truthy(studentId) || !Truthy(courseId) {
      return Response(400, None, Some(MissingParameters));
    }
    var existing := store.FindByStudentAndCourse(studentId.value, courseId.value);
    if existing.Some? {
      return Response(400, existing, Some(AlreadyEnrolled));
    }
    var created := store.Create(studentId.value, courseId.value, id, now);
    response := Response(200, created, None);
  }

  /** `getStudentEnrollments`: a 400 without a usable studentId, otherwise exactly that student's records. */
  method GetStudentEnrollments(store: EnrollmentStore, studentId: QueryParam) returns (response: ListResponse)
    ensures QueryString(studentId).None? ==> response == ListResponse(400, None, Some(MissingStudentId))
    ensures QueryString(studentId).Some? ==>
              response.status == 200 && response.error == None && response.data.Some? &&
              forall e :: e in response.data.value <==> e in store.table.Values && e.studentId == studentId.value
  {
    var s := QueryString(studentId);
    if s.None? {
      return ListResponse(400, None, Some(MissingStudentId));
    }
    var found := store.FindByStudentId(s.value);
    response := ListResponse(200, Some(found), None);
  }

  /** `getEnrollment`: a 400 without both parameters, otherwise the record under the pair, or null. */
  method GetEnrollment(store: EnrollmentStore, studentId: QueryParam, courseId: QueryParam) returns (response: Response)
    requires store.Valid()
    ensures QueryString(studentId).None? || QueryString(courseId).None? ==>
              response == Response(400, None, Some(MissingParameters))
    ensures QueryString(studentId).Some? && QueryString(courseId).Some? ==>
              response == Response(200, Lookup(store.table, studentId.value, courseId.value), None)
  {
    var s, c := QueryString(studentId), QueryString(courseId);
    if s.None? || c.None? {
      return Response(400, None, Some(MissingParameters));
    }
    var found := store.FindByStudentAndCourse(s.value, c.value);
    response := Response(200, found, None);
  }
}
