/**
 * The seeded course `c1` (lessons l1-1 … l1-4) worked through the model: progress goes
 * 25, 50, 75, 100, a repeated lesson changes nothing, and only the fourth lesson makes
 * the subscriber publish `CourseCompleted`. A four-lesson course is below 200 lessons,
 * so each of these holds under either progress rule.
 */
module SeedScenario {
  import opened DomainEvents
  import opened Progress
  import opened Enrollments
  import opened EnrollmentRepository
  import opened EventBus
  import opened CourseCompletion
  import opened EnrollmentController

  const Lessons: seq<string> := ["l1-1", "l1-2", "l1-3", "l1-4"]
  const Student: string := "student-1"
  const CourseId: string := "c1"

  /** The table right after the student enrolls in c1. */
  function Enrolled(id: string, now: int): (t: Table)
    ensures KeysMatch(t) && Key(Student, CourseId) in t
    ensures t[Key(Student, CourseId)].completedLessons == []
  {
    map[Key(Student, CourseId) := NewEnrollment(id, Student, CourseId, now)]
  }

  lemma LessonsDistinct()
    ensures Distinct(Lessons)
  {
    forall i, j | 0 <= i < j < |Lessons|
      ensures Lessons[i] != Lessons[j]
    {
      assert Lessons[i][3] != Lessons[j][3];
    }
  }

  /** After the first k lessons of c1, progress is 25·k. */
  lemma SeedProgress(rule: Rounding, id: string, now: int, k: nat)
    requires 1 <= k <= |Lessons|
    ensures var t := MarkAll(rule, Enrolled(id, now), Student, CourseId, Lessons[..k], |Lessons|, now);
            Key(Student, CourseId) in t && t[Key(Student, CourseId)].progress == 25 * k
  {
    LessonsDistinct();
    assert Distinct(Lessons[..k]);
    MarkAllProgress(rule, Enrolled(id, now), Student, CourseId, Lessons[..k], |Lessons|, now);
    RoundedPercentUnique(k, 4, 25 * k);
    PercentRulesAgreeBelow200(k, 4);
  }

  /** Marking l1-1 a second time leaves progress at 25 and publishes nothing. */
  lemma SeedRepeatIsSilent(rule: Rounding, id: string, now: int, later: int)
    ensures var t := MarkAll(rule, Enrolled(id, now), Student, CourseId, Lessons[..1], |Lessons|, now);
            var registry := map[LessonCompletedName := [CourseCompletionCheck]];
            Mark(rule, t, Student, CourseId, "l1-1", |Lessons|, later).table[Key(Student, CourseId)].progress == 25
            && MarkTrace(rule, registry, t, Student, CourseId, "l1-1", |Lessons|, later) == []
  {
    SeedProgress(rule, id, now, 1);
    LessonsDistinct();
    MarkAllCompletes(rule, Enrolled(id, now), Student, CourseId, Lessons[..1], |Lessons|, now);
    assert Lessons[..1] == ["l1-1"];
  }

  /** With the subscriber wired at startup, only the fourth lesson yields a `CourseCompleted`. */
  lemma SeedCompletion(rule: Rounding, id: string, now: int, k: nat)
    requires k < |Lessons|
    ensures var registry := map[LessonCompletedName := [CourseCompletionCheck]];
            var t := MarkAll(rule, Enrolled(id, now), Student, CourseId, Lessons[..k], |Lessons|, now);
            CourseCompletions(MarkTrace(rule, registry, t, Student, CourseId, Lessons[k], |Lessons|, now))
            == if k == 3 then 1 else 0
  {
    var registry := map[LessonCompletedName := [CourseCompletionCheck]];
    assert HandlersFor(registry, LessonCompletedName) == [CourseCompletionCheck];
    assert Count([CourseCompletionCheck], CourseCompletionCheck) == 1;
    LessonsDistinct();
    CourseCompletedExactlyAtLastLesson(rule, registry, Enrolled(id, now), Student, CourseId, Lessons, now, k);
  }
}
