/** The upcoming-events list: an empty placeholder, or a registry of rows
    numbered from 01, each marked urgent when its event is in the
    within-24-hours list and showing the time left in whole units. */
module EventListView {
  import opened EventTypes
  import opened EventStore
  import opened Text

  /** One unit of the time-left text (`5d`, `3h`, ...). */
  datatype Part = Part(value: nat, unit: char)

  function UnitMs(u: char): int {
    if u == 'd' then DAY_MS else if u == 'h' then HOUR_MS else if u == 'm' then MINUTE_MS else SECOND_MS
  }

  /** The milliseconds a sequence of parts stands for. */
  function PartsValue(ps: seq<Part>): int {
    if ps == [] then 0 else ps[0].value * UnitMs(ps[0].unit) + PartsValue(ps[1..])
  }

  /** The units shown: leading zero units are dropped, down to seconds. */
  function Units(t: TimeUntil): (ps: seq<Part>)
    requires t.days >= 0 && t.hours >= 0 && t.minutes >= 0 && t.seconds >= 0
  {
    var s := [Part(t.seconds, 's')];
    if t.days > 0 then [Part(t.days, 'd'), Part(t.hours, 'h'), Part(t.minutes, 'm')] + s
    else if t.hours > 0 then [Part(t.hours, 'h'), Part(t.minutes, 'm')] + s
    else if t.minutes > 0 then [Part(t.minutes, 'm')] + s
    else s
  }

  /** The units shown add up to the whole seconds left, they are a tail of
      days, hours, minutes, seconds, and the first of several is non-zero. */
  lemma UnitsSpec(diff: int, t: TimeUntil)
    requires Decomposes(diff, t)
    ensures var ps := Units(t);
      && PartsValue(ps) == diff - diff % SECOND_MS
      && 1 <= |ps| <= 4 && ps[|ps| - 1] == Part(t.seconds, 's')
      && (|ps| > 1 ==> ps[0].value > 0)
      && ps == [Part(t.days, 'd'), Part(t.hours, 'h'), Part(t.minutes, 'm'), Part(t.seconds, 's')][4 - |ps|..]
      && (|ps| < 4 ==> t.days == 0) && (|ps| < 3 ==> t.hours == 0) && (|ps| < 2 ==> t.minutes == 0)
  {
    var ps := Units(t);
    assert PartsValue([Part(t.seconds, 's')]) == t.seconds * SECOND_MS;
    assert PartsValue([Part(t.minutes, 'm'), Part(t.seconds, 's')]) == t.minutes * MINUTE_MS + t.seconds * SECOND_MS by {
      assert [Part(t.minutes, 'm'), Part(t.seconds, 's')][1..] == [Part(t.seconds, 's')];
    }
    assert PartsValue([Part(t.hours, 'h'), Part(t.minutes, 'm'), Part(t.seconds, 's')])
        == t.hours * HOUR_MS + t.minutes * MINUTE_MS + t.seconds * SECOND_MS by {
      assert [Part(t.hours, 'h'), Part(t.minutes, 'm'), Part(t.seconds, 's')][1..] == [Part(t.minutes, 'm'), Part(t.seconds, 's')];
    }
    if t.days > 0 {
      assert ps[1..] == [Part(t.hours, 'h'), Part(t.minutes, 'm'), Part(t.seconds, 's')];
    }
  }

  function PartText(p: Part): string {
    NatToString(p.value) + [p.unit]
  }

  /** The parts joined by single spaces. */
  function JoinParts(ps: seq<Part>): (r: string)
    requires |ps| >= 1
    ensures |r| >= 2 && IsDigit(r[0]) && r[|r| - 1] == ps[|ps| - 1].unit
  {
    if |ps| == 1 then PartText(ps[0]) else PartText(ps[0]) + " " + JoinParts(ps[1..])
  }

  const PASSED_TEXT: string := "Event has passed"

  /** `formatTimeRemaining` */
  function FormatTimeRemaining(e: Event, now: int): string {
    match TimeUntilEvent(e, now)
    case None => PASSED_TEXT
    case Some(t) => JoinParts(Units(t))
  }

  /** The passed text appears exactly once the instant is reached; any other
      text starts with a digit and ends with the seconds unit, so the two
      can never be confused. */
  lemma FormatTimeRemainingSpec(e: Event, now: int)
    ensures FormatTimeRemaining(e, now) == PASSED_TEXT <==> e.target <= now
    ensures e.target > now ==>
      var r := FormatTimeRemaining(e, now);
      |r| >= 2 && IsDigit(r[0]) && r[|r| - 1] == 's'
  {
    if e.target > now {
      var t := TimeUntilEvent(e, now).value;
      UnitsSpec(e.target - now, t);
      assert !IsDigit(PASSED_TEXT[0]);
    }
  }

  /** `isEventWithin24Hours`: some event of the list has the id. */
  function HasId(within: seq<Event>, id: string): (b: bool)
    ensures b <==> exists w :: w in within && w.id == id
  {
    if within == [] then false
    else
      assert within[0] in within;
      assert forall w :: w in within[1..] ==> w in within;
      assert forall w :: w in within ==> w == within[0] || w in within[1..];
      within[0].id == id || HasId(within[1..], id)
  }

  datatype Row = Row(
    eventId: string,
    number: string,
    eventName: string,
    urgent: bool,
    showDescription: bool,
    remaining: string)

  datatype ListView =
    | NoEvents
    | Registry(countLabel: string, urgentLabel: Option<string>, rows: seq<Row>)

  function Rows(events: seq<Event>, within: seq<Event>, now: int): (rows: seq<Row>)
    ensures |rows| == |events|
  {
    seq(|events|, i requires 0 <= i < |events| =>
      Row(events[i].id, Padded(i + 1), events[i].name, HasId(within, events[i].id),
          events[i].description != "", FormatTimeRemaining(events[i], now)))
  }

  /** `EventList` for the list it is given and the within-24-hours list. */
  function Render(events: seq<Event>, within: seq<Event>, now: int): ListView {
    if |events| == 0 then NoEvents
    else Registry(Padded(|events|),
                  if |within| > 0 then Some(Padded(|within|)) else None,
                  Rows(events, within, now))
  }

  /** The placeholder exactly for an empty list; otherwise the count, and
      the urgent banner exactly when the within-24-hours list is non-empty,
      with its count. */
  lemma RenderSpec(events: seq<Event>, within: seq<Event>, now: int)
    ensures Render(events, within, now).NoEvents? <==> events == []
    ensures Render(events, within, now).Registry? ==>
      var v := Render(events, within, now);
      && ParseDigits(v.countLabel) == |events|
      && (v.urgentLabel.Some? <==> within != [])
      && (v.urgentLabel.Some? ==> ParseDigits(v.urgentLabel.value) == |within|)
      && v.rows == Rows(events, within, now)
  {
    PaddedParse(|events|);
    PaddedParse(|within|);
  }

  /** One row per event in the given order, numbered from 1, urgent exactly
      when the within-24-hours list holds an event with its id. */
  lemma RowsSpec(events: seq<Event>, within: seq<Event>, now: int)
    ensures var rows := Rows(events, within, now);
      forall i :: 0 <= i < |events| ==>
        && rows[i].eventId == events[i].id
        && ParseDigits(rows[i].number) == i + 1
        && (rows[i].urgent <==> exists w :: w in within && w.id == events[i].id)
        && rows[i].remaining == FormatTimeRemaining(events[i], now)
  {
    var rows := Rows(events, within, now);
    forall i | 0 <= i < |events| ensures ParseDigits(rows[i].number) == i + 1 {
      PaddedParse(i + 1);
    }
  }

  /** The delete button: the id goes to the store only when the user
      confirms the prompt. */
  function DeleteClicked(row: Row, confirmed: bool): (r: Option<string>)
    ensures r.Some? <==> confirmed
    ensures r.Some? ==> r.value == row.eventId
  {
    if confirmed then Some(row.eventId) else None
  }
}
