/** The completed-events list: a placeholder when empty, otherwise rows
    numbered from 01 with how long ago each event was completed, and Restore
    and Delete buttons behind a confirmation. */
module CompletedListView {
  import opened EventTypes
  import opened Text

  /** The "completed ... ago" label. */
  datatype Ago = AutoCompleted | DaysAgo(days: int) | HoursAgo(hours: int) | MinutesAgo(minutes: int) | JustNow

  /** `formatCompletedTime`: the largest whole unit elapsed since completion,
      each total rounded down (`Math.floor`, which `/` matches for a positive
      divisor). */
  function CompletedAgo(completedAt: Option<int>, now: int): Ago {
    match completedAt
    case None => AutoCompleted
    case Some(c) =>
      var diff := now - c;
      var minutes := diff / MINUTE_MS;
      var hours := diff / HOUR_MS;
      var days := diff / DAY_MS;
      if days > 0 then DaysAgo(days)
      else if hours > 0 then HoursAgo(hours)
      else if minutes > 0 then MinutesAgo(minutes)
      else JustNow
  }

  /** Each label by elapsed time: days from one day on, hours from one hour,
      minutes from one minute, and "just now" below a minute, which includes
      a completion instant later than `now`. The count is the whole number of
      units elapsed. */
  lemma CompletedAgoSpec(c: int, now: int)
    ensures var a := CompletedAgo(Some(c), now); var d := now - c;
      && (a.DaysAgo? <==> d >= DAY_MS)
      && (a.HoursAgo? <==> HOUR_MS <= d < DAY_MS)
      && (a.MinutesAgo? <==> MINUTE_MS <= d < HOUR_MS)
      && (a == JustNow <==> d < MINUTE_MS)
      && (a.DaysAgo? ==> a.days * DAY_MS <= d < (a.days + 1) * DAY_MS)
      && (a.HoursAgo? ==> 1 <= a.hours < 24 && a.hours * HOUR_MS <= d < (a.hours + 1) * HOUR_MS)
      && (a.MinutesAgo? ==> 1 <= a.minutes < 60 && a.minutes * MINUTE_MS <= d < (a.minutes + 1) * MINUTE_MS)
  {
    assert MINUTE_MS == 60000 && HOUR_MS == 3600000 && DAY_MS == 86400000;
  }

  function AgoText(a: Ago): string {
    match a
    case AutoCompleted => "Auto-completed"
    case DaysAgo(n) => NatToString(if n >= 0 then n else 0) + "d ago"
    case HoursAgo(n) => NatToString(if n >= 0 then n else 0) + "h ago"
    case MinutesAgo(n) => NatToString(if n >= 0 then n else 0) + "m ago"
    case JustNow => "Just now"
  }

  /** Different labels read differently: the text gives back the label. */
  lemma AgoTextInjective(a: Ago, b: Ago)
    requires !a.AutoCompleted? && !b.AutoCompleted?
    requires a.DaysAgo? ==> a.days >= 0
    requires a.HoursAgo? ==> a.hours >= 0
    requires a.MinutesAgo? ==> a.minutes >= 0
    requires b.DaysAgo? ==> b.days >= 0
    requires b.HoursAgo? ==> b.hours >= 0
    requires b.MinutesAgo? ==> b.minutes >= 0
    requires AgoText(a) == AgoText(b)
    ensures a == b
  {
    AgoLead(a);
    AgoLead(b);
    if a != JustNow && b != JustNow {
      var sa := NatToString(Count(a));
      var sb := NatToString(Count(b));
      var ta := AgoText(a)[|sa|..];
      var tb := AgoText(b)[|sb|..];
      assert AgoText(a) == sa + ta && AgoText(b) == sb + tb;
      SplitAtFirstLetter(sa, ta, sb, tb);
      NatToStringInjective(Count(a), Count(b));
    }
  }

  /** A run of digits followed by a suffix that starts with a non-digit is
      recovered from the concatenation. */
  lemma SplitAtFirstLetter(sa: string, ta: string, sb: string, tb: string)
    requires forall i :: 0 <= i < |sa| ==> IsDigit(sa[i])
    requires forall i :: 0 <= i < |sb| ==> IsDigit(sb[i])
    requires |ta| > 0 && !IsDigit(ta[0]) && |tb| > 0 && !IsDigit(tb[0])
    requires sa + ta == sb + tb
    ensures sa == sb
  {
    LeadingDigitsOf(sa, ta);
    LeadingDigitsOf(sb, tb);
    var t := sa + ta;
    assert sa == t[..|sa|] == sb;
  }

  /** The number of digits a string starts with. */
  function LeadingDigits(t: string): nat {
    if t != [] && IsDigit(t[0]) then 1 + LeadingDigits(t[1..]) else 0
  }

  lemma {:induction false} LeadingDigitsOf(s: string, rest: string)
    requires forall i :: 0 <= i < |s| ==> IsDigit(s[i])
    requires |rest| > 0 && !IsDigit(rest[0])
    ensures LeadingDigits(s + rest) == |s|
  {
    if s == [] {
      assert s + rest == rest;
    } else {
      assert (s + rest)[1..] == s[1..] + rest;
      LeadingDigitsOf(s[1..], rest);
    }
  }

  /** A counted label starts with a digit; "Just now" with a letter. */
  lemma AgoLead(a: Ago)
    requires !a.AutoCompleted?
    ensures |AgoText(a)| > 0
    ensures a == JustNow <==> !IsDigit(AgoText(a)[0])
  {
  }

  function Count(a: Ago): nat
    requires a.DaysAgo? || a.HoursAgo? || a.MinutesAgo?
  {
    var n := if a.DaysAgo? then a.days else if a.HoursAgo? then a.hours else a.minutes;
    if n >= 0 then n else 0
  }

  datatype CompletedRow = CompletedRow(eventId: string, number: string, eventName: string, showDescription: bool, ago: string)

  datatype CompletedView = NoCompletedEvents | Archive(countLabel: string, rows: seq<CompletedRow>)

  /** The row of one event, numbered `number`. */
  function RowFor(e: Event, number: nat, now: int): CompletedRow {
    CompletedRow(e.id, Padded(number), e.name, e.description != "", AgoText(CompletedAgo(e.completedAt, now)))
  }

  function Rows(events: seq<Event>, now: int): (rows: seq<CompletedRow>)
    ensures |rows| == |events|
    ensures forall i :: 0 <= i < |events| ==> rows[i].eventId == events[i].id
  {
    seq(|events|, i requires 0 <= i < |events| => RowFor(events[i], i + 1, now))
  }

  /** `CompletedEventList` at instant `now`. */
  function Render(events: seq<Event>, now: int): CompletedView {
    if |events| == 0 then NoCompletedEvents
    else Archive(Padded(|events|), Rows(events, now))
  }

  /** The placeholder exactly when the list is empty; otherwise the count
      and the rows. */
  lemma RenderSpec(events: seq<Event>, now: int)
    ensures Render(events, now).NoCompletedEvents? <==> events == []
    ensures Render(events, now).Archive? ==>
      && ParseDigits(Render(events, now).countLabel) == |events|
      && Render(events, now).rows == Rows(events, now)
  {
    PaddedParse(|events|);
  }

  /** A row per event in order, numbered from 1, and "Auto-completed"
      exactly for an event without a completion instant. */
  lemma RowsSpec(events: seq<Event>, now: int)
    ensures var rows := Rows(events, now);
      forall i :: 0 <= i < |events| ==>
        && rows[i].eventId == events[i].id
        && ParseDigits(rows[i].number) == i + 1
        && (rows[i].ago == "Auto-completed" <==> events[i].completedAt.None?)
  {
    var rows := Rows(events, now);
    forall i | 0 <= i < |events|
      ensures ParseDigits(rows[i].number) == i + 1
      ensures rows[i].ago == "Auto-completed" <==> events[i].completedAt.None?
    {
      assert rows[i] == RowFor(events[i], i + 1, now);
      RowForSpec(events[i], i + 1, now);
    }
  }

  /** A row reads back as its number, and shows "Auto-completed" exactly
      for an event without a completion instant. */
  lemma RowForSpec(e: Event, number: nat, now: int)
    ensures ParseDigits(RowFor(e, number, now).number) == number
    ensures RowFor(e, number, now).ago == "Auto-completed" <==> e.completedAt.None?
  {
    PaddedParse(number);
    AutoCompletedText(e.completedAt, now);
  }

  /** "Auto-completed" is shown exactly for a missing completion instant. */
  lemma AutoCompletedText(completedAt: Option<int>, now: int)
    ensures AgoText(CompletedAgo(completedAt, now)) == "Auto-completed" <==> completedAt.None?
  {
    var a := CompletedAgo(completedAt, now);
    if a.DaysAgo? || a.HoursAgo? || a.MinutesAgo? {
      assert IsDigit(AgoText(a)[0]);
    } else if a == JustNow {
      assert AgoText(a)[0] == 'J';
    }
  }

  /** What a click on a row's buttons asks of the store. */
  datatype RowAction = RestoreRequested(id: string) | DeleteRequested(id: string)

  /** The restore button: the id goes to the store only when the user
      confirms. */
  function RestoreClicked(row: CompletedRow, confirmed: bool): (r: Option<RowAction>)
    ensures r.Some? <==> confirmed
    ensures r.Some? ==> r.value == RestoreRequested(row.eventId)
  {
    if confirmed then Some(RestoreRequested(row.eventId)) else None
  }

  /** The delete button, behind its own confirmation. */
  function DeleteClicked(row: CompletedRow, confirmed: bool): (r: Option<RowAction>)
    ensures r.Some? <==> confirmed
    ensures r.Some? ==> r.value == DeleteRequested(row.eventId)
  {
    if confirmed then Some(DeleteRequested(row.eventId)) else None
  }
}
