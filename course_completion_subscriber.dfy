/**
 * The course-completion subscriber, and the execution of the handlers a publish
 * invokes. On `LessonCompleted` the subscriber re-reads the enrollment and publishes
 * `CourseCompleted` when its progress is exactly 100.
 */
module CourseCompletion {
  import opened Wrappers
  import opened DomainEvents
  import opened Enrollments
  import opened EnrollmentRepository
  import opened EventBus

  /** What the subscriber publishes on receiving `e`, given the enrollment table it re-reads. */
  function CompletionEvent(table: Table, e: DomainEvent, now: int): (r: Option<DomainEvent>)
    requires KeysMatch(table)
    ensures r.Some? <==> Key(e.studentId, e.courseId) in table && table[Key(e.studentId, e.courseId)].progress == 100
    ensures r.Some? ==> r.value == NewCourseCompleted(e.studentId, e.courseId, now)
  {
    var found := Lookup(table, e.studentId, e.courseId);
    if found.Some? && found.value.progress == 100 then Some(NewCourseCompleted(e.studentId, e.courseId, now))
    else None
  }

  /** The events handler `h` publishes in reaction to `e`; a handler outside the model publishes none that the model sees. */
  function Reaction(h: Handler, table: Table, e: DomainEvent, now: int): seq<DomainEvent>
    requires KeysMatch(table)
  {
    match h
    case CourseCompletionCheck =>
      var c := CompletionEvent(table, e, now);
      if c.Some? then [c.value] else []
    case External(_) => []
  }

  /** The reactions of the handlers `hs`, invoked in order. */
  function Reactions(hs: seq<Handler>, table: Table, e: DomainEvent, now: int): seq<DomainEvent>
    requires KeysMatch(table)
  {
    if hs == [] then []
    else Reactions(hs[..|hs| - 1], table, e, now) + Reaction(hs[|hs| - 1], table, e, now)
  }

  /** Everything published when `e` is published: `e` itself, then each invoked handler's reactions. */
  function Cascade(registry: Registry, table: Table, e: DomainEvent, now: int): seq<DomainEvent>
    requires KeysMatch(table)
  {
    [e] + Reactions(HandlersFor(registry, EventName(e)), table, e, now)
  }

  /**
   * The wiring the application performs: the course-completion handler sits only
   * under `LessonCompleted`, so the `CourseCompleted` it publishes reaches no handler
   * of the model and the cascade stops there.
   */
  predicate WiredForCompletion(registry: Registry) {
    forall n | n in registry && n != LessonCompletedName :: CourseCompletionCheck !in registry[n]
  }

  /** The number of `CourseCompleted` events in a trace of published events. */
  function CourseCompletions(events: seq<DomainEvent>): nat {
    if events == [] then 0
    else CourseCompletions(events[..|events| - 1]) + (if events[|events| - 1].CourseCompleted? then 1 else 0)
  }

  lemma {:induction false} CourseCompletionsAppend(a: seq<DomainEvent>, b: seq<DomainEvent>)
    ensures CourseCompletions(a + b) == CourseCompletions(a) + CourseCompletions(b)
    decreases |b|
  {
    if b == [] {
      assert a + b == a;
    } else {
      assert (a + b)[..|a + b| - 1] == a + b[..|b| - 1];
      CourseCompletionsAppend(a, b[..|b| - 1]);
    }
  }

  /**
   * The reactions to `e` are one copy of the subscriber's event per registration of the
   * course-completion handler when the enrollment is at 100, and nothing otherwise.
   */
  lemma {:induction false} ReactionsShape(hs: seq<Handler>, table: Table, e: DomainEvent, now: int)
    requires KeysMatch(table)
    ensures var c := CompletionEvent(table, e, now);
            |Reactions(hs, table, e, now)| == (if c.Some? then Count(hs, CourseCompletionCheck) else 0)
    ensures forall x | x in Reactions(hs, table, e, now) :: x == NewCourseCompleted(e.studentId, e.courseId, now)
    ensures CourseCompletions(Reactions(hs, table, e, now)) == |Reactions(hs, table, e, now)|
  {
    if hs != [] {
      var init, last := hs[..|hs| - 1], hs[|hs| - 1];
      assert hs == init + [last];
      ReactionsShape(init, table, e, now);
      CountAppend(init, [last], CourseCompletionCheck);
      CourseCompletionsAppend(Reactions(init, table, e, now), Reaction(last, table, e, now));
      var r := Reaction(last, table, e, now);
      assert CourseCompletions(r) == |r| by {
        if r != [] { assert r[..0] == []; }
      }
    }
  }

  /**
   * Publishing a lesson completion yields as many `CourseCompleted` events as the
   * course-completion handler has registrations, when the re-read enrollment is at 100,
   * and none otherwise; each names the event's student and course.
   */
  lemma LessonCompletionCascade(registry: Registry, table: Table, e: DomainEvent, now: int)
    requires KeysMatch(table) && e.LessonCompleted?
    ensures var k := Key(e.studentId, e.courseId);
            CourseCompletions(Cascade(registry, table, e, now))
            == if k in table && table[k].progress == 100
               then Count(HandlersFor(registry, LessonCompletedName), CourseCompletionCheck) else 0
    ensures forall x | x in Cascade(registry, table, e, now)[1..] :: x == CourseCompleted(e.studentId, e.courseId, now)
  {
    var rs := Reactions(HandlersFor(registry, LessonCompletedName), table, e, now);
    ReactionsShape(HandlersFor(registry, LessonCompletedName), table, e, now);
    CourseCompletionsAppend([e], rs);
    assert [e][..0] == [];
    assert Cascade(registry, table, e, now)[1..] == rs;
  }

  /** Under the application's wiring a `CourseCompleted` event triggers nothing further. */
  lemma CourseCompletedIsTerminal(registry: Registry, table: Table, e: DomainEvent, now: int)
    requires KeysMatch(table) && WiredForCompletion(registry) && e.CourseCompleted?
    ensures Cascade(registry, table, e, now) == [e]
  {
    var hs := HandlersFor(registry, CourseCompletedName);
    assert CourseCompletionCheck !in hs;
    ReactionsShape(hs, table, e, now);
    assert Count(hs, CourseCompletionCheck) == 0 by {
      NotInCountZero(hs, CourseCompletionCheck);
    }
  }

  lemma {:induction false} NotInCountZero(hs: seq<Handler>, h: Handler)
    requires h !in hs
    ensures Count(hs, h) == 0
  {
    if hs != [] {
      assert h !in hs[1..];
      NotInCountZero(hs[1..], h);
    }
  }

  class CourseCompletionSubscriber {

    /** Construction subscribes the handler once under `LessonCompleted`. */
    constructor (bus: InMemoryEventBus)
      modifies bus
      ensures bus.handlers == Subscribed(old(bus.handlers), LessonCompletedName, CourseCompletionCheck)
    {
      new;
      bus.Subscribe(LessonCompletedName, CourseCompletionCheck);
    }

    /**
     * `onLessonCompleted`: re-reads the enrollment of (e.studentId, e.courseId) and, at
     * progress 100, publishes one `CourseCompleted` for the same pair. It never writes the
     * store; the handlers its own publish invokes are all outside the model.
     */
    static method OnLessonCompleted(bus: InMemoryEventBus, store: EnrollmentStore, e: DomainEvent, now: int)
      returns (published: seq<DomainEvent>, nestedInvoked: seq<Handler>)
      requires store.Valid() && WiredForCompletion(bus.handlers)
      ensures published == Reaction(CourseCompletionCheck, store.table, e, now)
      ensures published == [] ==> nestedInvoked == []
      ensures published != [] ==> nestedInvoked == HandlersFor(bus.handlers, CourseCompletedName)
      ensures forall h | h in nestedInvoked :: h.External?
    {
      var found := store.FindByStudentAndCourse(e.studentId, e.courseId);
      if found.Some? && found.value.progress == 100 {
        var completed := NewCourseCompleted(e.studentId, e.courseId, now);
        nestedInvoked := bus.Publish(completed);
        published := [completed];
      } else {
        published, nestedInvoked := [], [];
      }
    }
  }

  /**
   * `publish` together with the handlers it invokes: each registered handler runs once,
   * in registration order, and the result is every event published along the way.
   */
  method Deliver(bus: InMemoryEventBus, store: EnrollmentStore, e: DomainEvent, now: int)
    returns (published: seq<DomainEvent>)
    requires store.Valid() && WiredForCompletion(bus.handlers)
    ensures published == Cascade(bus.handlers, store.table, e, now)
  {
    var invoked := bus.Publish(e);
    published := [e];
    var i := 0;
    while i < |invoked|
      invariant 0 <= i <= |invoked|
      invariant published == [e] + Reactions(invoked[..i], store.table, e, now)
    {
      var out: seq<DomainEvent> := [];
      if invoked[i] == CourseCompletionCheck {
        var nested;
        out, nested := CourseCompletionSubscriber.OnLessonCompleted(bus, store, e, now);
      }
      assert invoked[..i + 1][..i] == invoked[..i];
      published := published + out;
      i := i + 1;
    }
    assert invoked[..|invoked|] == invoked;
  }

  /** Startup wiring: the bus is created and the subscriber constructed once, before any publish. */
  method Startup(holder: EventBusHolder) returns (bus: InMemoryEventBus)
    requires holder.instance == null
    modifies holder
    ensures holder.instance == bus && fresh(bus)
    ensures bus.handlers == map[LessonCompletedName := [CourseCompletionCheck]]
    ensures WiredForCompletion(bus.handlers)
    ensures Count(HandlersFor(bus.handlers, LessonCompletedName), CourseCompletionCheck) == 1
  {
    bus := holder.GetInstance();
    var subscriber := new CourseCompletionSubscriber(bus);
    assert HandlersFor(map[], LessonCompletedName) + [CourseCompletionCheck] == [CourseCompletionCheck];
    assert Count([CourseCompletionCheck], CourseCompletionCheck) == 1;
  }
}
