/**
 The event manager's state as a value: a map from event id to event, and each
 manager operation as a function from the old map to its status code and the
 new map. The EventManager class in module Manager is proved against these.
 */
module EventStore {
  import opened Events
  import opened Participants

  type Store = map<string, Event>

  /** What a state-changing operation reports, and the store it leaves. */
  datatype Outcome = Outcome(status: StatusCode, store: Store)

  /** What `getEvent` reports: a status and, on `Ok` only, the event. */
  datatype Lookup = Lookup(status: StatusCode, event: Option<Event>)

  /** Every stored event sits under its own id. */
  ghost predicate IdsMatchKeys(s: Store) {
    forall id :: id in s ==> s[id].eventId == id
  }

  /** Within every stored event, no email is registered twice. */
  ghost predicate EmailsDistinct(s: Store) {
    forall id :: id in s ==> DistinctEmails(s[id].participants)
  }

  /** `s` and `t` hold the same entries under every key other than `id`. */
  ghost predicate SameExcept(s: Store, t: Store, id: string) {
    forall k :: k != id ==> (k in s <==> k in t) && (k in s ==> s[k] == t[k])
  }

  /**
   `list` holds exactly the events stored under the keys in `done`, one per key:
   a listing of the store that has visited the keys in `done` so far.
   */
  ghost predicate ListsKeys(s: Store, done: set<string>, list: seq<Event>) {
    && done <= s.Keys
    && |list| == |done|
    && (forall id :: id in done ==> s[id] in list)
    && (forall i :: 0 <= i < |list| ==> list[i].eventId in done && s[list[i].eventId] == list[i])
    && (forall i, j :: 0 <= i < j < |list| ==> list[i].eventId != list[j].eventId)
  }

  /** Appending the event under one more key extends a partial listing. */
  lemma ListsKeysStep(s: Store, done: set<string>, list: seq<Event>, id: string)
    requires IdsMatchKeys(s) && ListsKeys(s, done, list)
    requires id in s && id !in done
    ensures ListsKeys(s, done + {id}, list + [s[id]])
  {
  }

  /** `list` holds exactly the stored events, one per key. */
  ghost predicate ListsStore(s: Store, list: seq<Event>) {
    ListsKeys(s, s.Keys, list)
  }

  /** `addEvent`: insert under the event's own id, never overwriting. */
  ghost function AddEvent(s: Store, e: Event): (r: Outcome)
    ensures e.eventId in s ==> r == Outcome(Fail, s)
    ensures e.eventId !in s ==> r.status == Ok && r.store.Keys == s.Keys + {e.eventId}
    ensures e.eventId in r.store && (r.status == Ok ==> r.store[e.eventId] == e)
    ensures SameExcept(s, r.store, e.eventId)
    ensures IdsMatchKeys(s) ==> IdsMatchKeys(r.store)
  {
    if e.eventId in s then Outcome(Fail, s) else Outcome(Ok, s[e.eventId := e])
  }

  /**
   `updateEvent`: replace the stored event that has the same id. The spread
   `{ ...event, ...updatedEvent }` takes every field from the update, since an
   update carries every field of an event.
   */
  ghost function UpdateEvent(s: Store, e: Event): (r: Outcome)
    ensures r.store.Keys == s.Keys
    ensures e.eventId !in s ==> r == Outcome(NotFound, s)
    ensures e.eventId in s ==> r.status == Ok && r.store[e.eventId] == e
    ensures SameExcept(s, r.store, e.eventId)
    ensures IdsMatchKeys(s) ==> IdsMatchKeys(r.store)
  {
    if e.eventId !in s then Outcome(NotFound, s) else Outcome(Ok, s[e.eventId := e])
  }

  /** `deleteEvent`: drop the event with that id. */
  ghost function DeleteEvent(s: Store, id: string): (r: Outcome)
    ensures id !in s ==> r == Outcome(NotFound, s)
    ensures id in s ==> r.status == Ok
    ensures r.store.Keys == s.Keys - {id}
    ensures SameExcept(s, r.store, id)
    ensures IdsMatchKeys(s) ==> IdsMatchKeys(r.store)
  {
    if id !in s then Outcome(NotFound, s) else Outcome(Ok, s - {id})
  }

  /** `getEvent`: the stored event on `Ok`, nothing on `NotFound`. */
  ghost function GetEvent(s: Store, id: string): (r: Lookup)
    ensures r.status == Ok <==> id in s
    ensures r.status == Ok ==> r.event == Some(s[id])
    ensures r.status != Ok ==> r == Lookup(NotFound, None)
  {
    if id in s then Lookup(Ok, Some(s[id])) else Lookup(NotFound, None)
  }

  /**
   `addParticipant`: append to the event's list unless someone there already
   has the same email. Only that event's participant list changes.
   */
  ghost function AddParticipant(s: Store, p: Participant, id: string): (r: Outcome)
    ensures r.store.Keys == s.Keys
    ensures id !in s ==> r == Outcome(NotFound, s)
    ensures id in s && HasEmail(s[id].participants, p.email) ==> r == Outcome(Fail, s)
    ensures id in s && !HasEmail(s[id].participants, p.email) ==>
              && r.status == Ok
              && r.store[id] == s[id].(participants := s[id].participants + [p])
              && |r.store[id].participants| == |s[id].participants| + 1
    ensures SameExcept(s, r.store, id)
    ensures IdsMatchKeys(s) ==> IdsMatchKeys(r.store)
  {
    if id !in s then Outcome(NotFound, s)
    else
      var event := s[id];
      if HasEmail(event.participants, p.email) then Outcome(Fail, s)
      else Outcome(Ok, s[id := event.(participants := event.participants + [p])])
  }

  /**
   `removeParticipant`: splice out the first participant whose email matches;
   `NotFound` when the event is missing or nobody matches.
   */
  ghost function RemoveParticipant(s: Store, p: Participant, id: string): (r: Outcome)
    ensures r.store.Keys == s.Keys
    ensures id !in s || !HasEmail(s[id].participants, p.email) ==> r == Outcome(NotFound, s)
    ensures id in s && HasEmail(s[id].participants, p.email) ==>
              var ps := s[id].participants;
              && r.status == Ok
              && r.store[id] == s[id].(participants := RemoveAt(ps, FirstEmailIndex(ps, p.email)))
              && |r.store[id].participants| == |ps| - 1
    ensures SameExcept(s, r.store, id)
    ensures IdsMatchKeys(s) ==> IdsMatchKeys(r.store)
  {
    if id !in s then Outcome(NotFound, s)
    else
      var event := s[id];
      if !HasEmail(event.participants, p.email) then Outcome(NotFound, s)
      else
        var index := FirstEmailIndex(event.participants, p.email);
        Outcome(Ok, s[id := event.(participants := RemoveAt(event.participants, index))])
  }

  /**
   Adding, updating and deleting events keep emails distinct, as long as an
   incoming event's own list has no repeated email (neither operation checks it).
   */
  lemma EventOperationsKeepEmailsDistinct(s: Store, e: Event, id: string)
    requires EmailsDistinct(s)
    ensures EmailsDistinct(DeleteEvent(s, id).store)
    ensures DistinctEmails(e.participants) ==> EmailsDistinct(AddEvent(s, e).store)
    ensures DistinctEmails(e.participants) ==> EmailsDistinct(UpdateEvent(s, e).store)
  {
  }

  /** The duplicate check in `addParticipant` keeps emails distinct. */
  lemma AddParticipantKeepsEmailsDistinct(s: Store, p: Participant, id: string)
    requires EmailsDistinct(s)
    ensures EmailsDistinct(AddParticipant(s, p, id).store)
  {
  }

  /** Removing a participant cannot introduce a repeated email. */
  lemma RemoveParticipantKeepsEmailsDistinct(s: Store, p: Participant, id: string)
    requires EmailsDistinct(s)
    ensures EmailsDistinct(RemoveParticipant(s, p, id).store)
  {
  }

  /** An added event reads back unchanged, field for field. */
  lemma AddThenGet(s: Store, e: Event)
    requires e.eventId !in s
    ensures AddEvent(s, e).status == Ok
    ensures GetEvent(AddEvent(s, e).store, e.eventId) == Lookup(Ok, Some(e))
  {
  }

  /**
   Adding two events with the same id: the first succeeds, the second fails
   and the store keeps the first one's data.
   */
  lemma AddTwiceKeepsFirst(s: Store, e1: Event, e2: Event)
    requires e1.eventId !in s && e2.eventId == e1.eventId
    ensures AddEvent(s, e1).status == Ok
    ensures AddEvent(AddEvent(s, e1).store, e2) == Outcome(Fail, AddEvent(s, e1).store)
    ensures AddEvent(AddEvent(s, e1).store, e2).store[e1.eventId] == e1
  {
  }

  /** Deleting a freshly added event gives back the store it was added to. */
  lemma AddThenDelete(s: Store, e: Event)
    requires e.eventId !in s
    ensures DeleteEvent(AddEvent(s, e).store, e.eventId) == Outcome(Ok, s)
  {
  }

  /** After a delete, the id is not found. */
  lemma DeleteThenGet(s: Store, id: string)
    ensures GetEvent(DeleteEvent(s, id).store, id) == Lookup(NotFound, None)
  {
  }

  /** An update reads back as the update itself. */
  lemma UpdateThenGet(s: Store, e: Event)
    requires e.eventId in s
    ensures GetEvent(UpdateEvent(s, e).store, e.eventId) == Lookup(Ok, Some(e))
  {
  }

  /**
   Adding a participant and then removing the same participant gives back the
   store as it was before the add.
   */
  lemma AddParticipantThenRemove(s: Store, p: Participant, id: string)
    requires AddParticipant(s, p, id).status == Ok
    ensures RemoveParticipant(AddParticipant(s, p, id).store, p, id) == Outcome(Ok, s)
  {
    var ps := s[id].participants;
    AppendThenRemoveFirstMatch(ps, p);
    var t := AddParticipant(s, p, id).store;
    assert t[id].participants == ps + [p];
    assert s[id].(participants := ps) == s[id];
    assert t[id := s[id]] == s;
  }

  /**
   Once a participant has been added, adding anyone else with the same email
   to that event fails and changes nothing.
   */
  lemma AddParticipantTwiceFails(s: Store, p: Participant, q: Participant, id: string)
    requires AddParticipant(s, p, id).status == Ok && q.email == p.email
    ensures AddParticipant(AddParticipant(s, p, id).store, q, id)
            == Outcome(Fail, AddParticipant(s, p, id).store)
  {
    var t := AddParticipant(s, p, id).store;
    assert t[id].participants[|s[id].participants|].email == q.email;
  }

  /**
   With distinct emails, a successful removal takes the email out of the event
   entirely, so removing it a second time reports `NotFound`.
   */
  lemma RemoveParticipantTwiceNotFound(s: Store, p: Participant, id: string)
    requires EmailsDistinct(s) && RemoveParticipant(s, p, id).status == Ok
    ensures RemoveParticipant(RemoveParticipant(s, p, id).store, p, id)
            == Outcome(NotFound, RemoveParticipant(s, p, id).store)
  {
  }

  /** In a list of events with distinct ids, each event occurs at most once. */
  lemma {:induction false} DistinctIdsOccurOnce(list: seq<Event>, x: Event)
    requires forall i, j :: 0 <= i < j < |list| ==> list[i].eventId != list[j].eventId
    ensures multiset(list)[x] == if x in list then 1 else 0
  {
    if list != [] {
      assert list == [list[0]] + list[1..];
      DistinctIdsOccurOnce(list[1..], x);
      if x == list[0] {
        assert x !in list[1..] by {
          forall k | 0 <= k < |list| - 1 ensures list[1..][k] != x {
            assert list[1..][k] == list[k + 1];
          }
        }
      }
    }
  }

  /** Any two listings of the same store hold the same events: they differ only in order. */
  lemma ListingsArePermutations(s: Store, a: seq<Event>, b: seq<Event>)
    requires ListsStore(s, a) && ListsStore(s, b)
    ensures multiset(a) == multiset(b)
  {
    forall x: Event
      ensures multiset(a)[x] == multiset(b)[x]
    {
      DistinctIdsOccurOnce(a, x);
      DistinctIdsOccurOnce(b, x);
      if x in a {
        var i :| 0 <= i < |a| && a[i] == x;
        assert s[x.eventId] == x;
      }
      if x in b {
        var i :| 0 <= i < |b| && b[i] == x;
        assert s[x.eventId] == x;
      }
    }
  }
}
