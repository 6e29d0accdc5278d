/**
 * The frontend's mock enrollment service: the same enrollment logic over an
 * in-memory list of records (the browser storage holding the list is not modelled;
 * every call reads and writes the list `stored`).
 */
module FrontendEnrollments {
  import opened Wrappers
  import opened Progress
  import opened Enrollments

  /** A course as far as progress is concerned: its id and its lesson ids. */
  datatype Course = Course(id: string, lessons: seq<string>)

  datatype ServiceResponse<T> = ServiceResponse(data: Option<T>, error: Option<string>)

  /** `filter(e => e.studentId === studentId)`: that student's records, in stored order. */
  function StudentEnrollments(all: seq<Enrollment>, studentId: string): (r: seq<Enrollment>)
    ensures forall e :: e in r <==> e in all && e.studentId == studentId
    ensures |r| <= |all|
  {
    if all == [] then []
    else
      var last := all[|all| - 1];
      StudentEnrollments(all[..|all| - 1], studentId) + (if last.studentId == studentId then [last] else [])
  }

  /** The filter distributes over concatenation, so it keeps the stored order. */
  lemma {:induction false} StudentEnrollmentsAppend(a: seq<Enrollment>, b: seq<Enrollment>, studentId: string)
    ensures StudentEnrollments(a + b, studentId) == StudentEnrollments(a, studentId) + StudentEnrollments(b, studentId)
    decreases |b|
  {
    if b == [] {
      assert a + b == a;
    } else {
      assert (a + b)[..|a + b| - 1] == a + b[..|b| - 1];
      StudentEnrollmentsAppend(a, b[..|b| - 1], studentId);
    }
  }

  /** `findIndex` on the (studentId, courseId) pair: the first matching position, or -1. */
  function FindEnrollment(all: seq<Enrollment>, studentId: string, courseId: string): (i: int)
    ensures -1 <= i < |all|
    ensures i >= 0 ==> KeyOf(all[i]) == Key(studentId, courseId)
    ensures forall j | 0 <= j < |all| && (i == -1 || j < i) :: KeyOf(all[j]) != Key(studentId, courseId)
  {
    if all == [] then -1
    else if KeyOf(all[0]) == Key(studentId, courseId) then 0
    else
      var k := FindEnrollment(all[1..], studentId, courseId);
      if k == -1 then -1 else k + 1
  }

  /** At most one record per (studentId, courseId) pair. */
  predicate UniquePairs(all: seq<Enrollment>) {
    forall i, j | 0 <= i < j < |all| :: KeyOf(all[i]) != KeyOf(all[j])
  }

  /** Under unique pairs, the record found is the only one for its pair. */
  lemma FoundIsOnly(all: seq<Enrollment>, studentId: string, courseId: string)
    requires UniquePairs(all)
    ensures var i := FindEnrollment(all, studentId, courseId);
            forall j | 0 <= j < |all| && KeyOf(all[j]) == Key(studentId, courseId) :: j == i
  {
  }

  /** Appending a record for a pair not yet present keeps the pairs unique. */
  lemma AppendNewKeepsUnique(all: seq<Enrollment>, e: Enrollment)
    requires UniquePairs(all) && FindEnrollment(all, e.studentId, e.courseId) == -1
    ensures UniquePairs(all + [e])
  {
  }

  class EnrollmentService {
    var stored: seq<Enrollment>

    constructor (initial: seq<Enrollment>)
      ensures stored == initial
    {
      stored := initial;
    }

    /** `getStudentEnrollments`: always succeeds, with that student's records in stored order. */
    method GetStudentEnrollments(studentId: string) returns (r: ServiceResponse<seq<Enrollment>>)
      ensures r.error == None && r.data.Some?
      ensures forall e :: e in r.data.value <==> e in stored && e.studentId == studentId
      ensures r.data.value == StudentEnrollments(stored, studentId)
    {
      r := ServiceResponse(Some(StudentEnrollments(stored, studentId)), None);
    }

    /** `getEnrollment`: the first record for the pair, or null; never an error. */
    method GetEnrollment(studentId: string, courseId: string) returns (r: ServiceResponse<Enrollment>)
      ensures r.error == None
      ensures r.data.Some? <==> exists j | 0 <= j < |stored| :: KeyOf(stored[j]) == Key(studentId, courseId)
      ensures r.data.Some? ==> r.data.value == stored[FindEnrollment(stored, studentId, courseId)]
    {
      var i := FindEnrollment(stored, studentId, courseId);
      if i == -1 {
        r := ServiceResponse(None, None);
      } else {
        r := ServiceResponse(Some(stored[i]), None);
      }
    }

    /**
     * `enroll`: an existing pair returns that record with an error and changes nothing;
     * otherwise exactly one zero-progress record is appended.
     */
    method Enroll(studentId: string, courseId: string, id: string, now: int) returns (r: ServiceResponse<Enrollment>)
      modifies this
      ensures var i := FindEnrollment(old(stored), studentId, courseId);
              i >= 0 ==> r == ServiceResponse(Some(old(stored)[i]), Some(AlreadyEnrolled)) && stored == old(stored)
      ensures FindEnrollment(old(stored), studentId, courseId) == -1 ==>
                var e := NewEnrollment(id, studentId, courseId, now);
                stored == old(stored) + [e] && r == ServiceResponse(Some(e), None)
      ensures UniquePairs(old(stored)) ==> UniquePairs(stored)
    {
      var i := FindEnrollment(stored, studentId, courseId);
      if i >= 0 {
        return ServiceResponse(Some(stored[i]), Some(AlreadyEnrolled));
      }
      var e := NewEnrollment(id, studentId, courseId, now);
      assert UniquePairs(stored) ==> UniquePairs(stored + [e]) by {
        if UniquePairs(stored) { AppendNewKeepsUnique(stored, e); }
      }
      stored := stored + [e];
      r := ServiceResponse(Some(e), None);
    }

    /**
     * `markLessonAsCompleted`: no record for the pair is an error and saves nothing; an
     * already-completed lesson returns the record unchanged; a new completion rewrites
     * only the record at the found position.
     */
    method MarkLessonAsCompleted(rule: Rounding, studentId: string, course: Course, lessonId: string, now: int)
      returns (r: ServiceResponse<Enrollment>)
      requires |course.lessons| > 0
      modifies this
      ensures var i := FindEnrollment(old(stored), studentId, course.id);
              && (i == -1 ==> r == ServiceResponse(None, Some(EnrollmentNotFound)) && stored == old(stored))
              && (i >= 0 && lessonId in old(stored)[i].completedLessons ==>
                    r == ServiceResponse(Some(old(stored)[i]), None) && stored == old(stored))
              && (i >= 0 && lessonId !in old(stored)[i].completedLessons ==>
                    stored == old(stored)[i := WithLessonCompleted(rule, old(stored)[i], lessonId, |course.lessons|, now)] &&
                    r == ServiceResponse(Some(stored[i]), None))
      ensures |stored| == |old(stored)|
      ensures UniquePairs(old(stored)) ==> UniquePairs(stored)
    {
      var i := FindEnrollment(stored, studentId, course.id);
      if i == -1 {
        return ServiceResponse(None, Some(EnrollmentNotFound));
      }
      var enrollment := stored[i];
      if lessonId !in enrollment.completedLessons {
        enrollment := WithLessonCompleted(rule, enrollment, lessonId, |course.lessons|, now);
        stored := stored[i := enrollment];
      }
      r := ServiceResponse(Some(enrollment), None);
    }
  }
}
