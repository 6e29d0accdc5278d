/**
 * The in-process event bus: a registry from event name to the ordered list of
 * handlers subscribed under it.
 */
module EventBus {
  import opened DomainEvents

  /**
   * The handlers the model knows: the course-completion subscriber's reaction, and
   * any other subscriber, whose reaction lies outside the model.
   */
  datatype Handler = CourseCompletionCheck | External(id: nat)

  type Registry = map<string, seq<Handler>>

  /** The list registered under `name`; a name never subscribed to has none. */
  function HandlersFor(registry: Registry, name: string): seq<Handler> {
    if name in registry then registry[name] else []
  }

  /** How many times `h` occurs in `hs`. */
  function Count(hs: seq<Handler>, h: Handler): nat {
    if hs == [] then 0 else (if hs[0] == h then 1 else 0) + Count(hs[1..], h)
  }

  lemma {:induction false} CountAppend(a: seq<Handler>, b: seq<Handler>, h: Handler)
    ensures Count(a + b, h) == Count(a, h) + Count(b, h)
  {
    if a == [] {
      assert a + b == b;
    } else {
      assert (a + b)[1..] == a[1..] + b;
      CountAppend(a[1..], b, h);
    }
  }

  /** The registry after `subscribe(name, h)`: `h` goes to the end of `name`'s list; every other list is kept. */
  function Subscribed(registry: Registry, name: string, h: Handler): (r: Registry)
    ensures r.Keys == registry.Keys + {name}
    ensures HandlersFor(r, name) == HandlersFor(registry, name) + [h]
    ensures forall n | n != name :: HandlersFor(r, n) == HandlersFor(registry, n)
  {
    registry[name := HandlersFor(registry, name) + [h]]
  }

  /** No de-duplication: subscribing the same handler twice registers it twice. */
  lemma SubscribeTwiceRegistersTwice(registry: Registry, name: string, h: Handler)
    ensures Count(HandlersFor(Subscribed(Subscribed(registry, name, h), name, h), name), h)
            == Count(HandlersFor(registry, name), h) + 2
  {
    var hs := HandlersFor(registry, name);
    assert HandlersFor(Subscribed(Subscribed(registry, name, h), name, h), name) == hs + [h] + [h];
    CountAppend(hs + [h], [h], h);
    CountAppend(hs, [h], h);
    assert Count([h], h) == 1;
  }

  /** A handler subscribed under one name is never invoked for an event of another name. */
  lemma SubscribeLeavesOtherEvents(registry: Registry, name: string, h: Handler, e: DomainEvent)
    requires EventName(e) != name
    ensures HandlersFor(Subscribed(registry, name, h), EventName(e)) == HandlersFor(registry, EventName(e))
  {
  }

  class InMemoryEventBus {
    var handlers: Registry

    constructor ()
      ensures handlers == map[]
    {
      handlers := map[];
    }

    /** `subscribe`: appends `h` to `name`'s list, creating an empty list first when absent. */
    method Subscribe(name: string, h: Handler)
      modifies this
      ensures handlers == Subscribed(old(handlers), name, h)
    {
      if name !in handlers {
        handlers := handlers[name := []];
      }
      handlers := handlers[name := handlers[name] + [h]];
    }

    /**
     * `publish`: the handlers to invoke for `e`, in registration order: those under
     * `e`'s name and no others, none when nobody subscribed. The registry is not changed.
     */
    method Publish(e: DomainEvent) returns (invoked: seq<Handler>)
      ensures EventName(e) !in handlers ==> invoked == []
      ensures EventName(e) in handlers ==> invoked == handlers[EventName(e)]
      ensures forall h :: Count(invoked, h) == Count(HandlersFor(handlers, EventName(e)), h)
    {
      var name := EventName(e);
      if name in handlers {
        invoked := handlers[name];
      } else {
        invoked := [];
      }
    }
  }

  /** The lazily assigned static `instance` slot of the bus class. */
  class EventBusHolder {
    var instance: InMemoryEventBus?

    constructor ()
      ensures instance == null
    {
      instance := null;
    }

    /** `getInstance`: creates an empty bus on the first call, and returns that same bus ever after. */
    method GetInstance() returns (bus: InMemoryEventBus)
      modifies this
      ensures old(instance) != null ==> bus == old(instance)
      ensures old(instance) == null ==> fresh(bus) && bus.handlers == map[]
      ensures instance == bus
    {
      if instance == null {
        instance := new InMemoryEventBus();
      }
      bus := instance;
    }
  }

  /** Two successive fetches of the bus yield one and the same instance. */
  method GetInstanceTwice(holder: EventBusHolder) returns (first: InMemoryEventBus, second: InMemoryEventBus)
    modifies holder
    ensures first == second && holder.instance == first
  {
    first := holder.GetInstance();
    second := holder.GetInstance();
  }
}
