/**
 * The two domain events, as one closed sum type. A datatype value is immutable, so
 * the events' readonly fields can never change after construction; `occurredOn`
 * is the wall-clock instant of construction, supplied by the caller.
 */
module DomainEvents {

  const LessonCompletedName: string := "LessonCompleted"
  const CourseCompletedName: string := "CourseCompleted"

  datatype DomainEvent =
    | LessonCompleted(studentId: string, courseId: string, lessonId: string, occurredOn: int)
    | CourseCompleted(studentId: string, courseId: string, occurredOn: int)

  /** The `eventName` tag the bus dispatches on; the two kinds never share a tag. */
  function EventName(e: DomainEvent): (name: string)
    ensures name == LessonCompletedName <==> e.LessonCompleted?
    ensures name == CourseCompletedName <==> e.CourseCompleted?
  {
    match e
    case LessonCompleted(_, _, _, _) => LessonCompletedName
    case CourseCompleted(_, _, _) => CourseCompletedName
  }

  /** `new LessonCompletedEvent(studentId, courseId, lessonId)` at instant `now`. */
  function NewLessonCompleted(studentId: string, courseId: string, lessonId: string, now: int): (e: DomainEvent)
    ensures EventName(e) == LessonCompletedName
    ensures e.studentId == studentId && e.courseId == courseId && e.lessonId == lessonId
    ensures e.occurredOn == now
  {
    LessonCompleted(studentId, courseId, lessonId, now)
  }

  /** `new CourseCompletedEvent(studentId, courseId)` at instant `now`. */
  function NewCourseCompleted(studentId: string, courseId: string, now: int): (e: DomainEvent)
    ensures EventName(e) == CourseCompletedName && EventName(e) != LessonCompletedName
    ensures e.studentId == studentId && e.courseId == courseId
    ensures e.occurredOn == now
  {
    CourseCompleted(studentId, courseId, now)
  }
}
