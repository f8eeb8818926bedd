/** The countdown panel for the next event: an idle panel without one, a
    "started or passed" panel once its instant is reached, and otherwise the
    remaining days, hours, minutes and seconds, coloured by how many whole
    hours are left. */
module Countdown {
  import opened EventTypes
  import opened EventStore
  import opened Text

  datatype Status = Nominal | Alert | Warning | Critical

  /** The status chain over the whole hours left, first match wins. */
  function StatusFor(totalHours: int): Status {
    if totalHours <= 1 then Critical
    else if totalHours <= 24 then Warning
    else if totalHours <= 72 then Alert
    else Nominal
  }

  datatype Banner = CriticalAlert | WarningStatus

  /** The banner below the fields, shown only within a day. */
  function BannerFor(totalHours: int): Option<Banner> {
    if totalHours <= 24 then Some(if totalHours <= 1 then CriticalAlert else WarningStatus) else None
  }

  datatype Panel = Panel(
    eventName: string,
    status: Status,
    pulse: bool,
    showDescription: bool,
    days: string,
    hours: string,
    minutes: string,
    seconds: string,
    banner: Option<Banner>)

  datatype CountdownView = Idle | StartedOrPassed(eventName: string) | Active(panel: Panel)


  /** `CountdownTimer` for the given next event at instant `now`. */
  function Render(next: Option<Event>, now: int): CountdownView {
    match next
    case None => Idle
    case Some(e) =>
      match TimeUntilEvent(e, now)
      case None => StartedOrPassed(e.name)
      case Some(t) => Active(ActivePanel(e, t))
  }

  function ActivePanel(e: Event, t: TimeUntil): Panel
    requires t.days >= 0 && t.hours >= 0 && t.minutes >= 0 && t.seconds >= 0
  {
    var totalHours := TotalHours(t);
    Panel(e.name, StatusFor(totalHours), totalHours <= 1, e.description != "",
          Padded(t.days), Padded(t.hours), Padded(t.minutes), Padded(t.seconds),
          BannerFor(totalHours))
  }

  /** Which panel is shown: idle without a next event, "started or passed"
      once its instant is reached, otherwise the active countdown. */
  lemma RenderKinds(next: Option<Event>, now: int)
    ensures Render(next, now).Idle? <==> next.None?
    ensures Render(next, now).StartedOrPassed? <==> next.Some? && next.value.target <= now
    ensures Render(next, now).Active? <==> next.Some? && next.value.target > now
    ensures Render(next, now).StartedOrPassed? ==> Render(next, now).eventName == next.value.name
  {
  }

  /** The status bands in milliseconds left: critical under 2 hours, warning
      under 25, alert under 73, nominal from 73 hours on. The pulse goes with
      critical and the banner with the first 25 hours. */
  lemma ActiveBands(e: Event, now: int)
    requires e.target > now
    ensures Render(Some(e), now).Active?
    ensures var p := Render(Some(e), now).panel; var d := e.target - now;
      && (p.status == Critical <==> d < 2 * HOUR_MS)
      && (p.status == Warning <==> 2 * HOUR_MS <= d < 25 * HOUR_MS)
      && (p.status == Alert <==> 25 * HOUR_MS <= d < 73 * HOUR_MS)
      && (p.status == Nominal <==> 73 * HOUR_MS <= d)
      && (p.pulse <==> p.status == Critical)
      && (p.banner.Some? <==> d < 25 * HOUR_MS)
      && (p.banner == Some(CriticalAlert) <==> p.status == Critical)
  {
    var t := TimeUntilEvent(e, now).value;
    assert Render(Some(e), now).panel == ActivePanel(e, t);
    PanelBands(e, t, e.target - now);
  }

  lemma PanelBands(e: Event, t: TimeUntil, d: int)
    requires d > 0 && Decomposes(d, t)
    ensures var p := ActivePanel(e, t);
      && (p.status == Critical <==> d < 2 * HOUR_MS)
      && (p.status == Warning <==> 2 * HOUR_MS <= d < 25 * HOUR_MS)
      && (p.status == Alert <==> 25 * HOUR_MS <= d < 73 * HOUR_MS)
      && (p.status == Nominal <==> 73 * HOUR_MS <= d)
      && (p.pulse <==> p.status == Critical)
      && (p.banner.Some? <==> d < 25 * HOUR_MS)
      && (p.banner == Some(CriticalAlert) <==> p.status == Critical)
  {
    TotalHoursIsFloor(d, t);
    HourBands(d);
  }

  lemma HourBands(d: int)
    requires d > 0
    ensures d / HOUR_MS <= 1 <==> d < 2 * HOUR_MS
    ensures d / HOUR_MS <= 24 <==> d < 25 * HOUR_MS
    ensures d / HOUR_MS <= 72 <==> d < 73 * HOUR_MS
  {
    assert HOUR_MS == 3600000;
  }

  /** The four fields are at least two characters and read back as the
      breakdown of the time left, seconds below 60, minutes below 60, hours
      below 24. */
  lemma ActiveFields(e: Event, now: int)
    requires e.target > now
    ensures Render(Some(e), now).Active?
    ensures var p := Render(Some(e), now).panel; var t := TimeUntilEvent(e, now).value;
      && |p.days| >= 2 && |p.hours| >= 2 && |p.minutes| >= 2 && |p.seconds| >= 2
      && ParseDigits(p.days) == t.days && ParseDigits(p.hours) == t.hours
      && ParseDigits(p.minutes) == t.minutes && ParseDigits(p.seconds) == t.seconds
      && Decomposes(e.target - now, t)
  {
    var t := TimeUntilEvent(e, now).value;
    assert Render(Some(e), now).panel == ActivePanel(e, t);
    PanelFields(e, t);
  }

  lemma PanelFields(e: Event, t: TimeUntil)
    requires t.days >= 0 && t.hours >= 0 && t.minutes >= 0 && t.seconds >= 0
    ensures var p := ActivePanel(e, t);
      && ParseDigits(p.days) == t.days && ParseDigits(p.hours) == t.hours
      && ParseDigits(p.minutes) == t.minutes && ParseDigits(p.seconds) == t.seconds
  {
    PaddedParse(t.days);
    PaddedParse(t.hours);
    PaddedParse(t.minutes);
    PaddedParse(t.seconds);
  }

  /** Rendered for the page's next event at the same instant, the countdown
      is idle exactly when nothing is upcoming and never shows the "started
      or passed" panel. */
  lemma NextEventCountdown(events: seq<Event>, now: int)
    ensures !Render(NextEvent(events, now), now).StartedOrPassed?
    ensures Render(NextEvent(events, now), now).Idle? <==> forall e :: e in events ==> !IsUpcoming(e, now)
  {
    NextEventSpec(events, now);
  }
}
