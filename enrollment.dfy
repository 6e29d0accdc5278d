/** The enrollment record linking one student to one course, shared by the backend and the frontend. */
module Enrollments {
  import opened Progress

  /** Error texts shared by the backend handlers and the frontend service. */
  const MissingParameters: string := "Missing parameters"
  const AlreadyEnrolled: string := "Ya estás inscrito"
  const EnrollmentNotFound: string := "Inscripción no encontrada"

  /** The unique identity of an enrollment: the (studentId, courseId) pair. */
  datatype Key = Key(studentId: string, courseId: string)

  /** Timestamps are wall-clock instants supplied by the caller. */
  datatype Enrollment = Enrollment(
    id: string,
    studentId: string,
    courseId: string,
    completedLessons: seq<string>,
    progress: int,
    enrolledAt: int,
    lastAccessedAt: int)

  function KeyOf(e: Enrollment): Key {
    Key(e.studentId, e.courseId)
  }

  predicate Distinct<T(==)>(s: seq<T>) {
    forall i, j :: 0 <= i < j < |s| ==> s[i] != s[j]
  }

  /** A fresh enrollment: no completed lessons and zero progress. */
  function NewEnrollment(id: string, studentId: string, courseId: string, now: int): (e: Enrollment)
    ensures KeyOf(e) == Key(studentId, courseId) && e.id == id
    ensures e.completedLessons == [] && e.progress == 0
    ensures e.enrolledAt == now && e.lastAccessedAt == now
  {
    Enrollment(id, studentId, courseId, [], 0, now, now)
  }

  /**
   * A genuinely new completion of `lessonId` in a course of `totalLessons` lessons:
   * the lesson is appended, progress is recomputed from the new count under `rule`,
   * the access time is refreshed and every other field is kept.
   */
  function WithLessonCompleted(rule: Rounding, e: Enrollment, lessonId: string, totalLessons: nat, now: int)
    : (r: Enrollment)
    requires totalLessons > 0
    ensures r.completedLessons == e.completedLessons + [lessonId]
    ensures |r.completedLessons| == |e.completedLessons| + 1
    ensures r.progress == Percent(rule, |e.completedLessons| + 1, totalLessons)
    ensures KeyOf(r) == KeyOf(e) && r.id == e.id && r.enrolledAt == e.enrolledAt
    ensures r.lastAccessedAt == now
    ensures Distinct(e.completedLessons) && lessonId !in e.completedLessons ==> Distinct(r.completedLessons)
    ensures |e.completedLessons| < totalLessons ==> 0 <= r.progress <= 100
    ensures |r.completedLessons| == totalLessons ==> r.progress == 100
    ensures |e.completedLessons| < totalLessons && ExactAtEnd(rule, totalLessons) ==>
              (r.progress == 100 <==> |r.completedLessons| == totalLessons)
  {
    var completed := e.completedLessons + [lessonId];
    e.(completedLessons := completed,
       progress := Percent(rule, |completed|, totalLessons),
       lastAccessedAt := now)
  }
}
