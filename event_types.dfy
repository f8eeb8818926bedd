/** The event record and the time units shared by every part of the reminder
    application. Instants are integers of milliseconds; the `date` and `time`
    strings of an event are represented by the one instant they denote. */
module EventTypes {

  datatype Option<+T> = None | Some(value: T) {
    function GetOr(default: T): T {
      match this
      case Some(v) => v
      case None => default
    }
  }

  const SECOND_MS: int := 1000
  const MINUTE_MS: int := 60 * SECOND_MS
  const HOUR_MS: int := 60 * MINUTE_MS
  const DAY_MS: int := 24 * HOUR_MS

  /** A stored event. `target` is the instant named by its `date` and `time`;
      `completed` absent in the source is `false` here. */
  datatype Event = Event(
    id: string,
    name: string,
    target: int,
    description: string,
    createdAt: int,
    completed: bool,
    completedAt: Option<int>)

  /** The creation payload: no id, no completion state. */
  datatype NewEvent = NewEvent(name: string, target: int, description: string)

  /** No two events of the list share an id (the backend assigns document ids). */
  predicate UniqueIds(events: seq<Event>) {
    forall i, j :: 0 <= i < j < |events| ==> events[i].id != events[j].id
  }

  /** The ids that occur in a list of events. */
  function Ids(events: seq<Event>): (ids: set<string>)
    ensures forall e :: e in events ==> e.id in ids
    ensures forall id :: id in ids ==> exists e :: e in events && e.id == id
  {
    set e | e in events :: e.id
  }
}
