/** Client events: the `EventHandler` registry, keyed by event name. Each
 *  registration also subscribes the event on the client, persistently (`on`)
 *  or for a single delivery (`once`). */
module Events {
  import opened Common

  datatype Event = Event(name: string, once: bool, client: Client?)

  /** The client method a registration subscribes through. */
  function ModeOf(event: Event): (mode: ListenMode)
    ensures mode == Once <==> event.once
  {
    if event.once then Once else On
  }

  class EventHandler {
    var events: seq<Event>
    var client: Client?

    /** Event names are unique within the registry. */
    ghost predicate Valid()
      reads this
    {
      forall i, j :: 0 <= i < j < |events| ==> events[i].name != events[j].name
    }

    constructor ()
      ensures Valid() && events == [] && client == null
    {
      events := [];
      client := null;
    }

    method SetClient(c: Client)
      modifies this
      ensures client == c && events == old(events)
    {
      client := c;
    }

    function EventExists(name: string): (b: bool)
      reads this
      ensures b <==> exists i :: 0 <= i < |events| && events[i].name == name
    {
      FindIndex(events, (e: Event) => e.name == name).Some?
    }

    /** Registers `event` and subscribes it on the client. A duplicate name
     *  is refused before anything changes; without a client the subscription
     *  itself throws, and the registry is left as it was. */
    method Register(event: Event) returns (r: Result<EventHandler, Thrown>)
      requires Valid()
      modifies this, client
      ensures Valid() && client == old(client)
      ensures old(EventExists(event.name)) ==>
        r == Failure(Error("Cannot register event with duplicate name: '" + event.name + "'.")) &&
        events == old(events)
      ensures !old(EventExists(event.name)) && client == null ==>
        r == Failure(TypeError(if event.once then "once" else "on")) && events == old(events)
      ensures !old(EventExists(event.name)) && client != null ==>
        r == Success(this) &&
        events == old(events) + [event.(client := client)] &&
        client.listeners == old(client.listeners) + [Listener(event.name, ModeOf(event))]
      ensures client != null && r.Failure? ==> client.listeners == old(client.listeners)
      ensures client != null ==> client.application == old(client.application)
    {
      if EventExists(event.name) {
        return Failure(Error("Cannot register event with duplicate name: '" + event.name + "'."));
      }
      if client == null {
        return Failure(TypeError(if event.once then "once" else "on"));
      }
      client.listeners := client.listeners + [Listener(event.name, ModeOf(event))];
      events := events + [event.(client := client)];
      return Success(this);
    }
  }

  /** Registering two events in turn subscribes both, in order, each with
   *  its own mode; a name registered twice subscribes once. */
  method RegisterTwice(c: Client, first: Event, second: Event)
    modifies c
    ensures first.name != second.name ==>
      c.listeners == old(c.listeners) + [Listener(first.name, ModeOf(first)), Listener(second.name, ModeOf(second))]
    ensures first.name == second.name ==>
      c.listeners == old(c.listeners) + [Listener(first.name, ModeOf(first))]
  {
    var h := new EventHandler();
    h.SetClient(c);
    var r1 := h.Register(first);
    assert h.events == [first.(client := c)];
    var r2 := h.Register(second);
  }
}
