/**
 The two record shapes the event manager stores, and the tri-state status
 code every manager operation returns in place of throwing.
 */
module Events {

  /** The outcome of a manager operation. */
  datatype StatusCode = Ok | NotFound | Fail {
    /** The string value each code carries in the program. */
    function Text(): string {
      match this
      case Ok => "OK"
      case NotFound => "NOT FOUND"
      case Fail => "FAIL"
    }
  }

  /** Callers tell the codes apart by their strings: no two codes share one. */
  lemma TextsDistinct(a: StatusCode, b: StatusCode)
    ensures a.Text() == b.Text() ==> a == b
  {
  }

  datatype Option<T> = None | Some(value: T)

  /**
   A person attending an event. The manager only ever reads `email`; every
   other profile field is carried along untouched in `profile`.
   */
  datatype Participant = Participant(email: string, profile: map<string, string>)

  /**
   A scheduled event. The start and end times are opaque timestamps: the
   manager never reads or compares them.
   */
  datatype Event = Event(
    eventId: string,
    name: string,
    description: string,
    location: string,
    startTime: int,
    endTime: int,
    participants: seq<Participant>)
}
