/**
 The EventManager object: it owns a map from event id to event and changes it
 in place. Each state-changing method is proved to leave exactly the status and
 map that the matching function of module EventStore computes from the old map;
 the two queries change nothing and are tied to EventStore.GetEvent and to the
 listing predicate EventStore.ListsStore.
 */
module Manager {
  import opened Events
  import opened Participants
  import opened EventStore

  class EventManager {
    var events: map<string, Event>

    /** The object invariant: every stored event sits under its own id. */
    ghost predicate Valid()
      reads this
    {
      IdsMatchKeys(events)
    }

    /** A new manager holds no events. */
    constructor ()
      ensures Valid() && events == map[]
    {
      events := map[];
    }

    method AddEvent(newEvent: Event) returns (status: StatusCode)
      requires Valid()
      modifies this
      ensures Valid()
      ensures Outcome(status, events) == EventStore.AddEvent(old(events), newEvent)
    {
      if newEvent.eventId in events {
        return Fail;
      }
      events := events[newEvent.eventId := newEvent];
      return Ok;
    }

    method UpdateEvent(updatedEvent: Event) returns (status: StatusCode)
      requires Valid()
      modifies this
      ensures Valid()
      ensures Outcome(status, events) == EventStore.UpdateEvent(old(events), updatedEvent)
    {
      if updatedEvent.eventId !in events {
        return NotFound;
      }
      events := events[updatedEvent.eventId := updatedEvent];
      return Ok;
    }

    method DeleteEvent(eventId: string) returns (status: StatusCode)
      requires Valid()
      modifies this
      ensures Valid()
      ensures Outcome(status, events) == EventStore.DeleteEvent(old(events), eventId)
    {
      if eventId !in events {
        return NotFound;
      }
      events := events - {eventId};
      return Ok;
    }

    method GetEvent(eventId: string) returns (result: Lookup)
      ensures result.status == Ok <==> eventId in events
      ensures result == EventStore.GetEvent(events, eventId)
    {
      if eventId in events {
        return Lookup(Ok, Some(events[eventId]));
      }
      return Lookup(NotFound, None);
    }

    /** Copies the stored events into a fresh list, one per key, in no particular order. */
    method GetEvents() returns (list: seq<Event>)
      requires Valid()
      ensures ListsStore(events, list)
    {
      var stored := events;
      list := [];
      var rest := stored.Keys;
      ghost var done: set<string> := {};
      while rest != {}
        invariant rest !! done && rest + done == stored.Keys
        invariant ListsKeys(stored, done, list)
        decreases rest
      {
        var id :| id in rest;
        ListsKeysStep(stored, done, list, id);
        list := list + [stored[id]];
        rest := rest - {id};
        done := done + {id};
      }
    }

    method AddParticipant(participant: Participant, eventId: string) returns (status: StatusCode)
      requires Valid()
      modifies this
      ensures Valid()
      ensures Outcome(status, events) == EventStore.AddParticipant(old(events), participant, eventId)
    {
      if eventId !in events {
        return NotFound;
      }
      var event := events[eventId];
      var taken := SomeHasEmail(event.participants, participant.email);
      if taken {
        return Fail;
      }
      events := events[eventId := event.(participants := event.participants + [participant])];
      return Ok;
    }

    method RemoveParticipant(participant: Participant, eventId: string) returns (status: StatusCode)
      requires Valid()
      modifies this
      ensures Valid()
      ensures Outcome(status, events) == EventStore.RemoveParticipant(old(events), participant, eventId)
    {
      if eventId !in events {
        return NotFound;
      }
      var event := events[eventId];
      var index := FindEmailIndex(event.participants, participant.email);
      if index == -1 {
        return NotFound;
      }
      events := events[eventId := event.(participants := RemoveAt(event.participants, index))];
      return Ok;
    }
  }

  /**
   A client run: one event with no participants, a participant added twice
   under the same email, removed, and the event deleted. Every status and
   participant count follows from the method contracts alone.
   */
  method Walkthrough(start: int, end: int)
  {
    var manager := new EventManager();
    var standup := Event("1", "Standup", "Daily sync", "Room 4", start, end, []);
    var alice := Participant("a@x.com", map[]);

    var s := manager.AddEvent(standup);
    assert s == Ok;
    s := manager.AddParticipant(alice, "1");
    assert s == Ok && |manager.events["1"].participants| == 1;
    s := manager.AddParticipant(alice, "1");
    assert manager.events["1"].participants[0].email == alice.email;
    assert s == Fail && |manager.events["1"].participants| == 1;
    s := manager.RemoveParticipant(alice, "1");
    assert s == Ok && |manager.events["1"].participants| == 0;
    s := manager.DeleteEvent("1");
    assert s == Ok;
    var found := manager.GetEvent("1");
    assert found == Lookup(NotFound, None);
  }
}
