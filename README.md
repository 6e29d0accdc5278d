# SkillFlow LMS — enrollment progress, domain events and the certificate gate

This project models the core of SkillFlow, a small learning-management system. The model covers the following:

- **Enrollment progress.** A student enrolls in a course. Each lesson the student completes is appended once to the enrollment's `completedLessons`. `progress` is recomputed as a rounded percentage of the course's lessons. Marking a lesson that is already completed changes nothing.
  - Every write path takes a `Rounding` rule. `AsWritten` is the source's `Math.round`. `Corrected` is the fix described in the Findings section below.
  - The two rules agree for every course of fewer than 200 lessons.
- **Domain events.** The first completion of a lesson publishes a `LessonCompleted` event on an in-process event bus, which is a process-wide singleton. `CourseCompletionSubscriber` is registered once at server start. It re-reads the enrollment and publishes `CourseCompleted` when progress is exactly 100.
  - Progress can exceed 100 when the request's `totalLessons` is smaller than the number of completed lessons: 5 completions against 4 give 125. Then no `CourseCompleted` is published.
- **The certificate gate.** A certificate is served only to an enrolled student whose progress is at least 100, and only for a course and user that exist. The file is named `certificado-<courseId>.pdf`.
- **User sync.** A user arriving from the auth provider is upserted by id. Any older user holding the same email is deleted first, together with that user's enrollments. Missing names and avatars get defaults.
- **The browser-side enrollment service.** This is the frontend's own copy of the same rules, kept in a list of enrollment records.

The model's parts:

- The persistent enrollment table is a `map` from (student, course) keys, kept by the class `EnrollmentStore`.
- The event bus is the class `InMemoryEventBus`, with a handler registry `map<string, seq<Handler>>`.
- Handlers are values: `CourseCompletionCheck` is the subscriber's callback, and `External(id)` stands for any other handler.
- Each state-changing method is proved against a pure specification function:
  - `MarkLessonCompleted` against `EnrollmentController.Mark` and `CourseCompletion.Cascade`;
  - `Deliver` against `Cascade`;
  - `EnrollmentService.MarkLessonAsCompleted` against `Enrollments.WithLessonCompleted`;
  - `SyncUser` against `UserController.Evicted` and `UserController.EvictedTable`;
  - the store methods against `EnrollmentRepository.Lookup` and `EnrollmentRepository.Updated`;
  - the bus methods against `EventBus.Subscribed` and `EventBus.HandlersFor`.
- The certificate gate is the pure function `CertificateController.Download`.
- Clock readings and generated ids are parameters.
- A failing `publish` is the boolean parameter `publishRejects`.

## Model

| member | source | states |
|---|---|---|
| Progress.RoundedPercent | src/backend/infrastructure/controllers/EnrollmentController.ts:72 | The result is the integer nearest to 100·n/t, with halves rounded up, as `Math.round` does for non-negative values. |
| Progress.RoundedPercentUnique | src/backend/infrastructure/controllers/EnrollmentController.ts:72 | At most one integer satisfies the rounding bounds, so the rounded percentage is determined by n and t. |
| Progress.RoundedPercentFullIffAll | src/backend/infrastructure/controllers/EnrollmentController.ts:72 | For fewer than 200 lessons, the rounded percentage is 100 exactly when every lesson is completed. |
| Progress.HundredBeforeLastLesson | src/backend/infrastructure/controllers/EnrollmentController.ts:72 | For 200 or more lessons, the rounded percentage already reaches 100 with one lesson still missing. |
| Progress.HundredAt399Of400 | services/enrollmentService.ts:96 | A concrete case of the same: 399 of 400 lessons rounds to 100. |
| Progress.CompletionPercent | src/backend/infrastructure/controllers/EnrollmentController.ts:72 | The corrected progress: it is 100 when all lessons are completed and below 100 while one is missing. It is 99 exactly where rounding would reach 100 with a lesson missing, and the rounded value everywhere else. |
| Progress.CompletionPercentRange | services/enrollmentService.ts:94-96 | When no more lessons are completed than the course has, progress lies in 0..100. |
| Progress.CompletionPercentAgreesBelow200 | src/backend/infrastructure/controllers/EnrollmentController.ts:72 | For fewer than 200 lessons, the corrected progress equals the source's rounded value. |
| Progress.RoundedPercentMonotone | src/backend/infrastructure/controllers/EnrollmentController.ts:71-72 | As written, completing more lessons never lowers the rounded progress. |
| Progress.RoundedPercentAtMost100 | services/enrollmentService.ts:94-96 | As written, at most as many completed lessons as the course has never round above 100. |
| Progress.Percent | src/backend/infrastructure/controllers/EnrollmentController.ts:72 | `AsWritten` gives the source's rounded value and `Corrected` the corrected one. Under both, progress is at most 100 within the course and 100 at the end. Below 100 until the end is promised only under `ExactAtEnd`. Without it, as written, the next-to-last lesson already gives 100. |
| Progress.PercentMonotone | src/backend/infrastructure/controllers/EnrollmentController.ts:71-72 | Under either rule, completing more lessons never lowers the progress. |
| Progress.PercentRulesAgreeBelow200 | services/enrollmentService.ts:96 | Below 200 lessons, both rules store the same progress. |
| DomainEvents.EventName | src/backend/domain/events/LessonCompletedEvent.ts:3-14 | An event's name is "LessonCompleted" exactly for lesson events and "CourseCompleted" exactly for course events. |
| DomainEvents.NewLessonCompleted | src/backend/domain/events/LessonCompletedEvent.ts:7-13 | The new event carries the given student, course and lesson, the given time, and the name "LessonCompleted". |
| DomainEvents.NewCourseCompleted | src/backend/domain/events/CourseCompletedEvent.ts:3-13 | The new event carries the given student and course, the given time, and the name "CourseCompleted". |
| Enrollments.NewEnrollment | src/backend/infrastructure/repositories/PrismaEnrollmentRepository.ts:25-35 | A fresh enrollment has the given key and id, no completed lessons, progress 0, and both timestamps at the given time. |
| Enrollments.WithLessonCompleted | src/backend/infrastructure/controllers/EnrollmentController.ts:70-74 | The lesson is appended after the existing ones, and a duplicate-free list stays duplicate-free. Progress is the chosen rule's value for the new count, and the key, id and enrollment time are kept. Within the course, progress is 100 when the list covers every lesson. Under `ExactAtEnd`, only then. |
| EnrollmentRepository.Lookup | src/backend/infrastructure/repositories/PrismaEnrollmentRepository.ts:13-23 | The lookup finds the enrollment stored under (student, course) when there is one, and none otherwise. |
| EnrollmentRepository.Updated | src/backend/infrastructure/repositories/PrismaEnrollmentRepository.ts:37-52 | Only the addressed record changes. Its lessons, progress and last-access time are replaced, and every other field and every other record is kept. |
| EnrollmentRepository.ReadYourWrites | src/backend/infrastructure/repositories/PrismaEnrollmentRepository.ts:37-52 | A lookup after an update returns exactly the written lessons and progress. |
| EnrollmentRepository.EnrollmentStore.FindByStudentId | src/backend/infrastructure/repositories/PrismaEnrollmentRepository.ts:6-11 | Returns exactly the stored enrollments of the given student. |
| EnrollmentRepository.EnrollmentStore.FindByStudentAndCourse | src/backend/infrastructure/repositories/PrismaEnrollmentRepository.ts:13-23 | Returns the table's lookup for the pair and changes nothing. |
| EnrollmentRepository.EnrollmentStore.Create | src/backend/infrastructure/repositories/PrismaEnrollmentRepository.ts:25-35 | Inserts a fresh enrollment under a new key. An existing key (the unique constraint) fails and leaves the table unchanged. |
| EnrollmentRepository.EnrollmentStore.UpdateProgress | src/backend/infrastructure/repositories/PrismaEnrollmentRepository.ts:37-52 | The new table is the specified update and the updated record is returned. A missing record fails and changes nothing. |
| EnrollmentRepository.EnrollmentStore.DeleteByStudentId | src/backend/infrastructure/controllers/UserController.ts:33-35 | Removes exactly the given student's enrollments and keeps all others. |
| EventBus.Subscribed | src/backend/infrastructure/events/InMemoryEventBus.ts:18-23 | Subscribing appends the handler to the event's list, creating the list if it is absent, and leaves every other event's list alone. |
| EventBus.SubscribeTwiceRegistersTwice | src/backend/infrastructure/events/InMemoryEventBus.ts:18-23 | Subscribing twice registers the handler twice, so it runs twice per publish. |
| EventBus.SubscribeLeavesOtherEvents | src/backend/infrastructure/events/InMemoryEventBus.ts:18-23 | A subscription under one event name does not change the handlers of any other name. |
| EventBus.InMemoryEventBus.Subscribe | src/backend/infrastructure/events/InMemoryEventBus.ts:18-23 | The registry becomes the specified subscription. |
| EventBus.InMemoryEventBus.Publish | src/backend/infrastructure/events/InMemoryEventBus.ts:25-31 | The handlers invoked are exactly those registered under the event's name, in order, or none when no handler is registered. |
| EventBus.EventBusHolder.GetInstance | src/backend/infrastructure/events/InMemoryEventBus.ts:11-16 | Creates the bus with an empty registry on first use, and returns the same bus from then on. |
| EventBus.GetInstanceTwice | src/backend/infrastructure/events/InMemoryEventBus.ts:11-16 | Two calls return the same bus. |
| CourseCompletion.CompletionEvent | src/backend/application/subscribers/CourseCompletionSubscriber.ts:12-24 | A `CourseCompleted` event is produced exactly when the event's enrollment exists with progress exactly 100, for the same student and course. |
| CourseCompletion.ReactionsShape | src/backend/application/subscribers/CourseCompletionSubscriber.ts:16-22 | Every event the handlers publish is a `CourseCompleted`, and their number equals how many completion checks see progress 100. |
| CourseCompletion.LessonCompletionCascade | src/backend/application/subscribers/CourseCompletionSubscriber.ts:12-24 | Publishing a lesson completion yields exactly one `CourseCompleted` per registered completion check when the enrollment is at 100, and none otherwise. |
| CourseCompletion.CourseCompletedIsTerminal | src/backend/application/subscribers/CourseCompletionSubscriber.ts:7-10 | Under the server's wiring, publishing `CourseCompleted` invokes no completion check, so nothing further is published. |
| CourseCompletion.CourseCompletionSubscriber.constructor | src/backend/application/subscribers/CourseCompletionSubscriber.ts:7-10 | Constructing the subscriber registers its check once under "LessonCompleted" on the given bus. |
| CourseCompletion.CourseCompletionSubscriber.OnLessonCompleted | src/backend/application/subscribers/CourseCompletionSubscriber.ts:12-24 | Publishes the completion event exactly when the specification yields one, and reports the handlers that publish invoked. |
| CourseCompletion.Deliver | src/backend/infrastructure/events/InMemoryEventBus.ts:25-31 | Running the handlers publish returns publishes exactly the specified cascade, starting with the event itself. |
| CourseCompletion.Startup | src/backend/server.ts:8 | After start-up, the bus's only registration is the completion check under "LessonCompleted", registered once. |
| Requests.QueryString | src/backend/infrastructure/controllers/CertificateController.ts:14 | A query parameter is usable exactly when it occurs once with a non-empty value. |
| EnrollmentController.Mark | src/backend/infrastructure/controllers/EnrollmentController.ts:64-84 | A missing enrollment gives 404 with no change. An already-completed lesson gives 200 with the stored record, no event and no change. A new lesson writes the record recomputed under the chosen rule (`AsWritten` is the source). It changes no other key, emits one `LessonCompleted` for the request, and replies 200 with the written record. |
| EnrollmentController.MarkRulesAgreeBelow200 | src/backend/infrastructure/controllers/EnrollmentController.ts:70-84 | For a course of fewer than 200 lessons, the source's mark and the corrected mark are identical: same reply, same table, same event. |
| EnrollmentController.MarkIdempotent | src/backend/infrastructure/controllers/EnrollmentController.ts:70-84 | Marking the same lesson twice leaves the table as the first mark left it and emits no second event. |
| EnrollmentController.MarkKeepsProgressInvariant | src/backend/infrastructure/controllers/EnrollmentController.ts:70-74 | If an enrollment's lessons are distinct and within the course, that stays true after a mark. A new completion gives progress in 0..100, and 100 once every course lesson is completed. Under `ExactAtEnd` (the corrected rule, or fewer than 200 lessons as written), 100 only then. |
| EnrollmentController.MarkAllCompletes | src/backend/infrastructure/controllers/EnrollmentController.ts:70-71 | From a fresh enrollment, marking distinct lessons in turn leaves exactly those lessons completed, in that order. |
| EnrollmentController.MarkAllProgress | src/backend/infrastructure/controllers/EnrollmentController.ts:72 | After marking k distinct new lessons of a course, the progress is the chosen rule's value for k: as written, `Math.round(k / t * 100)`. |
| EnrollmentController.MarkTraceCompletions | src/backend/infrastructure/controllers/EnrollmentController.ts:70-79 | With the subscriber registered once, marking lesson k+1 in turn leads to one `CourseCompleted` exactly when the rule's progress for k+1 lessons is 100, and to none otherwise. |
| EnrollmentController.CourseCompletedExactlyAtLastLesson | src/backend/infrastructure/controllers/EnrollmentController.ts:70-79 | The mark of the last lesson leads to one `CourseCompleted`. Under `ExactAtEnd`, every earlier mark leads to none. |
| EnrollmentController.CourseCompletedEarlyAsWritten | src/backend/infrastructure/controllers/EnrollmentController.ts:72 | As written, for a course of 200 lessons or more, the mark of the next-to-last lesson already leads to a `CourseCompleted`. |
| EnrollmentController.MarkLessonCompleted | src/backend/infrastructure/controllers/EnrollmentController.ts:59-89 | The store and the reply follow `Mark` under the chosen rule. The published events are the specified cascade over the updated table. A rejected publish replies 500 while the update stands. |
| EnrollmentController.Enroll | src/backend/infrastructure/controllers/EnrollmentController.ts:39-57 | Missing fields give 400, and an existing enrollment gives 400 "Ya estás inscrito", each with no change. Otherwise one fresh enrollment is created and returned with 200. |
| EnrollmentController.GetStudentEnrollments | src/backend/infrastructure/controllers/EnrollmentController.ts:9-22 | A missing or non-string student id gives 400. Otherwise the reply is 200 with exactly that student's enrollments. |
| EnrollmentController.GetEnrollment | src/backend/infrastructure/controllers/EnrollmentController.ts:24-37 | Missing parameters give 400. Otherwise the reply is 200 with the pair's enrollment, or with none. |
| FrontendEnrollments.StudentEnrollments | services/enrollmentService.ts:30 | The result holds exactly the student's records, in stored order. |
| FrontendEnrollments.StudentEnrollmentsAppend | services/enrollmentService.ts:30 | Filtering distributes over appending records. |
| FrontendEnrollments.FindEnrollment | services/enrollmentService.ts:81 | Returns the first index whose record matches the pair, or −1 when none does. |
| FrontendEnrollments.FoundIsOnly | services/enrollmentService.ts:39-41 | When pairs are unique, the found record is the only one for its pair. |
| FrontendEnrollments.AppendNewKeepsUnique | services/enrollmentService.ts:53-68 | Appending a record for an absent pair keeps the pairs unique. |
| FrontendEnrollments.EnrollmentService.GetStudentEnrollments | services/enrollmentService.ts:27-32 | Returns the filtered records with no error, and changes nothing. |
| FrontendEnrollments.EnrollmentService.GetEnrollment | services/enrollmentService.ts:37-42 | Returns the first matching record, or none, and changes nothing. |
| FrontendEnrollments.EnrollmentService.Enroll | services/enrollmentService.ts:47-72 | An existing pair returns that record with the error "Ya estás inscrito" and no change. Otherwise a fresh record is appended, and pairs stay unique. |
| FrontendEnrollments.EnrollmentService.MarkLessonAsCompleted | services/enrollmentService.ts:77-105 | A missing pair gives "Inscripción no encontrada". A completed lesson returns the record unchanged. A new lesson rewrites only that record, with the lesson appended and progress recomputed under the chosen rule. |
| CertificateController.CertificateFilename | src/backend/infrastructure/controllers/CertificateController.ts:46 | The name is "certificado-" plus the course id plus ".pdf", and the course id can be read back from it. |
| CertificateController.CertificateFilenameInjective | src/backend/infrastructure/controllers/CertificateController.ts:46 | Distinct courses get distinct certificate names. |
| CertificateController.Download | src/backend/infrastructure/controllers/CertificateController.ts:11-46 | The checks run in order: 400 for missing parameters, 404 when not enrolled, 403 when progress is below 100, and 404 when the course or user is missing. A PDF attachment named after the course is produced exactly when every check passes. |
| UserController.LocalPart | src/backend/infrastructure/controllers/UserController.ts:46 | Returns the text before the first '@', or the whole email when there is none. It never contains '@' and is a prefix of the email. |
| UserController.DefaultName | src/backend/infrastructure/controllers/UserController.ts:46 | A non-empty given name is kept, and a missing or empty one becomes the email's local part. |
| UserController.DefaultAvatar | src/backend/infrastructure/controllers/UserController.ts:47 | A non-empty given avatar is kept, and a missing or empty one becomes the avatar service's URL seeded with the email. |
| UserController.UserTable.FindByEmail | src/backend/infrastructure/controllers/UserController.ts:18-20 | Finds the user holding the email when there is one, and none otherwise. |
| UserController.UserTable.Delete | src/backend/infrastructure/controllers/UserController.ts:37-39 | Removes exactly the given user. |
| UserController.UserTable.Upsert | src/backend/infrastructure/controllers/UserController.ts:42-55 | Creates or overwrites the user under its id and keeps every other user. |
| UserController.SyncUser | src/backend/infrastructure/controllers/UserController.ts:5-62 | A non-POST gives 405 and a missing id or email gives 400, both with no change. Otherwise any other user holding the email is removed with that user's enrollments, and the given user is stored with defaults applied. Afterwards exactly one user holds the email, and user ids and emails stay unique. |
| SeedScenario.SeedProgress | prisma/seed.ts:25-30 | On the seeded four-lesson course, completing the first k lessons gives progress 25·k, under either rule. |
| SeedScenario.SeedRepeatIsSilent | prisma/seed.ts:25-30 | Re-marking a seeded lesson emits nothing and changes nothing. |
| SeedScenario.SeedCompletion | prisma/seed.ts:25-30 | On the seeded course, under either rule, exactly the fourth lesson's completion leads to one `CourseCompleted`. |

## Left out

- HTTP plumbing is not modelled: Vercel request and response objects, JSON bodies, CORS, and the express routing of `server.ts` beyond subscriber start-up. Replies are values with a status, data and an error text.
- PDF rendering is left out. The model stops at the certificate's content type and attachment header.
- `localStorage`, JSON serialisation and the simulated network delays of the frontend service are left out. The stored list is a field of the service class.
- `Promise.all` interleaving of handlers is not modelled. Handlers run one after another, in registration order, and a handler failing part-way is not modelled. A rejected or thrown `publish` appears only as the `publishRejects` flag.
- Floating-point arithmetic is modelled as exact rational rounding. `Math.round` of `n / t * 100` is taken as the integer nearest to 100·n/t, with halves rounded up. Binary floating point can differ from this at exact halves.
- Clock readings (`new Date()`, `Date.now()`) and generated ids are parameters.
- EnrollmentRepository.EnrollmentStore.FindByStudentId: returns a set, so the row order of `findMany` is not modelled.
- Database failures other than the unique constraint on (student, course) and a missing record on update are not modelled. The 500 replies for them are unreachable in the model.
- UserController.UserTable.Upsert: requires that no other user holds the email, and Delete requires that the user exists. These preconditions stand for the database's unique-email and not-found errors, which `SyncUser` never triggers.
- EnrollmentController.MarkLessonCompleted: the request body's fields are taken to be strings and `totalLessons` a positive integer. The source neither validates them nor checks that the lesson belongs to the course.
- FrontendEnrollments.EnrollmentService.MarkLessonAsCompleted: requires a course with at least one lesson. With none, the source computes a NaN or infinite progress.
- CourseCompletion.Deliver: runs the handlers of one publish and collects the events they publish. That the cascade stops after one level is proved under the server's wiring (`WiredForCompletion`), not for arbitrary registries.
- MarkKeepsProgressInvariant: "progress is 100 only when every lesson is completed" is promised only under `ExactAtEnd`, because the source as written breaks it from 200 lessons on. `CourseCompletedEarlyAsWritten` shows the consequence.
- CourseCompletedExactlyAtLastLesson: "no `CourseCompleted` before the last lesson" is promised only under `ExactAtEnd`, because as written a course of 200 or more lessons completes one lesson early. `CourseCompletedEarlyAsWritten` proves that early completion.
- Other controllers and services are not part of this model: courses, authentication, and the React components.

## Findings

| source | as written | input that shows it | evidently intended | confidence | as-written member | corrected member |
|---|---|---|---|---|---|---|
| src/backend/infrastructure/controllers/EnrollmentController.ts:72 | Progress is `Math.round(completed / total * 100)`. The subscriber publishes `CourseCompleted` at progress 100, and the certificate is served from 100. | A 400-lesson course after 398 marks: the 399th mark stores `Math.round(99.75)` = 100, so `CourseCompleted` is published with a lesson still missing. The same happens for every course of 200 or more lessons. | `CourseCompleted` only when every lesson is completed. | not executed | EnrollmentController.CourseCompletedEarlyAsWritten | EnrollmentController.CourseCompletedExactlyAtLastLesson |
| services/enrollmentService.ts:96 | The frontend service stores the same `Math.round(completed / total * 100)`. | 399 completed lessons of 400 give 99.75, which rounds to 100. | Progress reaches 100 only when every lesson is completed. | not executed | Progress.HundredAt399Of400 | Progress.CompletionPercent |

Every write path takes a rule: `Rounding.AsWritten` is the program as it stands, and `Rounding.Corrected` uses `Progress.CompletionPercent`. Under the corrected rule, `CourseCompletedExactlyAtLastLesson` and `MarkKeepsProgressInvariant` hold for every course size. `Progress.CompletionPercentAgreesBelow200` and `EnrollmentController.MarkRulesAgreeBelow200` show that the fix changes nothing for courses of fewer than 200 lessons. `Progress.HundredBeforeLastLesson` states the general form of the discrepancy.
