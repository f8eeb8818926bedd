/** The events page: it derives the upcoming, completed and within-24-hours
    lists from the store, narrows the upcoming view by the chosen filter,
    feeds the threshold notifier the within-24-hours list and the alarm
    manager every event, and hands the dialog's payload to the store. */
module EventsPage {
  import opened EventTypes
  import opened EventStore
  import EventListView
  import CompletedListView
  import opened EventForm
  import opened AddEventModalView

  datatype FilterMode = All | CriticalOnly | LaterOnly
  datatype ViewMode = UpcomingView | CompletedView

  /** More than a day ahead of `now`. */
  function BeyondDayAt(now: int): Event -> bool {
    (e: Event) => e.target > now + DAY_MS
  }

  /** `getFilteredEvents` */
  function FilteredEvents(filter: FilterMode, upcoming: seq<Event>, within: seq<Event>, now: int): seq<Event> {
    match filter
    case CriticalOnly => within
    case LaterOnly => Filter(upcoming, BeyondDayAt(now))
    case All => upcoming
  }

  /** What each filter shows, as a condition on the stored events: all
      upcoming; those due within a day, whether completed or not; or the
      incomplete ones more than a day ahead, still earliest first. */
  lemma FilteredEventsSpec(filter: FilterMode, events: seq<Event>, now: int)
    ensures var f := FilteredEvents(filter, UpcomingEvents(events, now), EventsWithin24Hours(events, now), now);
      && (filter == All ==> f == UpcomingEvents(events, now))
      && (filter == CriticalOnly ==> forall e :: e in f <==> e in events && now < e.target <= now + DAY_MS)
      && (filter == LaterOnly ==>
            && (forall e :: e in f <==> e in events && !e.completed && e.target > now + DAY_MS)
            && forall i, j :: 0 <= i < j < |f| ==> f[i].target <= f[j].target)
  {
    if filter == CriticalOnly {
      Within24HoursSpec(events, now);
    } else if filter == LaterOnly {
      LaterSpec(events, now);
    }
  }

  lemma LaterSpec(events: seq<Event>, now: int)
    ensures var f := Filter(UpcomingEvents(events, now), BeyondDayAt(now));
      && (forall e :: e in f <==> e in events && !e.completed && e.target > now + DAY_MS)
      && forall i, j :: 0 <= i < j < |f| ==> f[i].target <= f[j].target
  {
    var up := UpcomingEvents(events, now);
    UpcomingEventsSpec(events, now);
    assert SortedBy(up, TargetKey);
    FilterKeepsOrder(up, BeyondDayAt(now));
  }

  /** A filtered list keeps the ascending order of its source. */
  lemma {:induction false} FilterKeepsOrder(s: seq<Event>, p: Event -> bool)
    requires SortedBy(s, TargetKey)
    ensures SortedBy(Filter(s, p), TargetKey)
  {
    if s != [] {
      FilterKeepsOrder(s[1..], p);
      var f := Filter(s, p);
      var rest := Filter(s[1..], p);
      if p(s[0]) {
        assert f == [s[0]] + rest;
        if rest != [] {
          assert rest[0] in rest;
          var k :| 0 <= k < |s[1..]| && s[1..][k] == rest[0];
          assert s[k + 1] == rest[0];
        }
        PrependSorted(s[0], rest, TargetKey);
      } else {
        assert f == rest;
      }
    }
  }

  /** The critical and the later filters never share an event. */
  lemma CriticalAndLaterDisjoint(events: seq<Event>, now: int, e: Event)
    ensures !(e in FilteredEvents(CriticalOnly, UpcomingEvents(events, now), EventsWithin24Hours(events, now), now)
              && e in FilteredEvents(LaterOnly, UpcomingEvents(events, now), EventsWithin24Hours(events, now), now))
  {
    FilteredEventsSpec(CriticalOnly, events, now);
    FilteredEventsSpec(LaterOnly, events, now);
  }

  datatype Content =
    | ListContent(list: EventListView.ListView)
    | NothingMatches(showAllButton: bool)
    | ArchiveContent(archive: CompletedListView.CompletedView)

  datatype PageView = PageView(upcomingCount: nat, completedCount: nat, content: Content)

  /** The page body for the chosen view and filter at instant `now`. */
  function Render(view: ViewMode, filter: FilterMode, events: seq<Event>, now: int): PageView {
    var upcoming := UpcomingEvents(events, now);
    var completed := CompletedEvents(events);
    var within := EventsWithin24Hours(events, now);
    var filtered := FilteredEvents(filter, upcoming, within, now);
    PageView(|upcoming|, |completed|,
      match view
      case CompletedView => ArchiveContent(CompletedListView.Render(completed, now))
      case UpcomingView =>
        if |filtered| > 0 then ListContent(EventListView.Render(filtered, within, now))
        else NothingMatches(filter != All))
  }

  /** The counts on the view buttons are the sizes of the two lists; the
      upcoming view shows the registry exactly when the filter leaves
      something, and otherwise offers "show all" exactly under a filter. */
  lemma RenderSpec(view: ViewMode, filter: FilterMode, events: seq<Event>, now: int)
    ensures var p := Render(view, filter, events, now);
      && p.upcomingCount == |UpcomingEvents(events, now)|
      && p.completedCount == |CompletedEvents(events)|
      && (p.content.ArchiveContent? <==> view == CompletedView)
      && (p.content.ListContent? <==>
            (view == UpcomingView &&
             FilteredEvents(filter, UpcomingEvents(events, now), EventsWithin24Hours(events, now), now) != []))
      && (p.content.ListContent? ==> p.content.list.Registry?)
      && (p.content.NothingMatches? ==> (p.content.showAllButton <==> filter != All))
  {
  }

  /** With unique ids, a row of the upcoming view is marked urgent exactly
      when its event is due within a day: under the critical filter every
      row, under the later filter none. */
  lemma UrgentRows(filter: FilterMode, events: seq<Event>, now: int)
    requires UniqueIds(events)
    ensures var within := EventsWithin24Hours(events, now);
      var f := FilteredEvents(filter, UpcomingEvents(events, now), within, now);
      forall i :: 0 <= i < |f| ==>
        (EventListView.Rows(f, within, now)[i].urgent <==> f[i].target <= now + DAY_MS)
  {
    var within := EventsWithin24Hours(events, now);
    var f := FilteredEvents(filter, UpcomingEvents(events, now), within, now);
    FilteredEventsSpec(filter, events, now);
    UpcomingEventsSpec(events, now);
    Within24HoursSpec(events, now);
    EventListView.RowsSpec(f, within, now);
    forall i | 0 <= i < |f|
      ensures EventListView.Rows(f, within, now)[i].urgent <==> f[i].target <= now + DAY_MS
    {
      assert f[i] in f;
      assert f[i] in events;
      if w :| w in within && w.id == f[i].id {
        SameIdSameEvent(events, w, f[i]);
      }
    }
  }

  lemma SameIdSameEvent(events: seq<Event>, a: Event, b: Event)
    requires UniqueIds(events) && a in events && b in events && a.id == b.id
    ensures a == b
  {
    var i :| 0 <= i < |events| && events[i] == a;
    var j :| 0 <= j < |events| && events[j] == b;
    assert !(i < j) && !(j < i);
  }

  /** The upcoming list's delete button is bound to `deleteEvent`: with
      unique ids, a confirmed click on row `i` followed by a successful
      delete removes exactly that row's event, and an unconfirmed click asks
      for nothing. */
  lemma ListDeleteRemovesRow(filter: FilterMode, events: seq<Event>, now: int, i: int)
    requires UniqueIds(events)
    requires 0 <= i < |FilteredEvents(filter, UpcomingEvents(events, now), EventsWithin24Hours(events, now), now)|
    ensures var within := EventsWithin24Hours(events, now);
      var f := FilteredEvents(filter, UpcomingEvents(events, now), within, now);
      var row := EventListView.Rows(f, within, now)[i];
      && EventListView.DeleteClicked(row, false).None?
      && forall e :: e in RemoveId(events, EventListView.DeleteClicked(row, true).value) <==> e in events && e != f[i]
  {
    var within := EventsWithin24Hours(events, now);
    var f := FilteredEvents(filter, UpcomingEvents(events, now), within, now);
    FilteredEventsSpec(filter, events, now);
    UpcomingEventsSpec(events, now);
    var row := EventListView.Rows(f, within, now)[i];
    assert EventListView.DeleteClicked(row, true).value == f[i].id;
    assert f[i] in f;
    assert f[i] in events;
    RemovesOnly(events, f[i]);
  }

  /** With unique ids, removing an event's id removes that event and no other. */
  lemma RemovesOnly(events: seq<Event>, x: Event)
    requires UniqueIds(events) && x in events
    ensures forall e :: e in RemoveId(events, x.id) <==> e in events && e != x
  {
    RemoveIdSpec(events, x.id);
    forall e | e in events && e.id == x.id ensures e == x {
      SameIdSameEvent(events, e, x);
    }
  }

  /** The completed list's buttons are bound to `markEventAsIncomplete` and
      `deleteEvent`: with unique ids, a confirmed restore of row `i` changes
      only that row's event, to incomplete, and returns it to the upcoming
      view when its instant is still ahead; a confirmed delete removes
      exactly that event; without confirmation neither asks anything. */
  lemma CompletedRowActions(events: seq<Event>, now: int, i: int)
    requires UniqueIds(events)
    requires 0 <= i < |CompletedEvents(events)|
    ensures var c := CompletedEvents(events);
      var row := CompletedListView.Rows(c, now)[i];
      var restored := MarkIncomplete(events, CompletedListView.RestoreClicked(row, true).value.id);
      && CompletedListView.RestoreClicked(row, false).None?
      && CompletedListView.DeleteClicked(row, false).None?
      && Restore(c[i]) in restored
      && (forall k :: 0 <= k < |events| && events[k] != c[i] ==> restored[k] == events[k])
      && (c[i].target > now ==> Restore(c[i]) in UpcomingEvents(restored, now))
      && forall e :: e in RemoveId(events, CompletedListView.DeleteClicked(row, true).value.id) <==>
           e in events && e != c[i]
  {
    var c := CompletedEvents(events);
    var row := CompletedListView.Rows(c, now)[i];
    assert CompletedListView.RestoreClicked(row, true).value.id == c[i].id;
    assert CompletedListView.DeleteClicked(row, true).value.id == c[i].id;
    CompletedRowListed(events, i);
    RestoresOnly(events, c[i], now);
    RemovesOnly(events, c[i]);
  }

  lemma CompletedRowListed(events: seq<Event>, i: int)
    requires 0 <= i < |CompletedEvents(events)|
    ensures CompletedEvents(events)[i] in events
  {
    CompletedEventsSpec(events);
    assert CompletedEvents(events)[i] in CompletedEvents(events);
  }

  /** With unique ids, restoring an event's id restores that event, in its
      place, and no other; a future one is upcoming again. */
  lemma RestoresOnly(events: seq<Event>, x: Event, now: int)
    requires UniqueIds(events) && x in events
    ensures Restore(x) in MarkIncomplete(events, x.id)
    ensures forall k :: 0 <= k < |events| && events[k] != x ==> MarkIncomplete(events, x.id)[k] == events[k]
    ensures x.target > now ==> Restore(x) in UpcomingEvents(MarkIncomplete(events, x.id), now)
  {
    MarkIncompleteSpec(events, x.id, now);
    var k :| 0 <= k < |events| && events[k] == x;
    assert MarkIncomplete(events, x.id)[k] == Restore(x);
    forall j | 0 <= j < |events| && events[j] != x ensures MarkIncomplete(events, x.id)[j] == events[j] {
      if events[j].id == x.id { SameIdSameEvent(events, events[j], x); }
    }
  }

  /** The threshold notifier is fed the within-24-hours list, so every event
      it sees has time left, at most 1440 whole minutes of it. */
  lemma NotifierFeed(events: seq<Event>, now: int)
    ensures forall e :: e in EventsWithin24Hours(events, now) ==>
      TimeUntilEvent(e, now).Some? && 0 <= TotalMinutes(TimeUntilEvent(e, now).value) <= 24 * 60
  {
    Within24HoursSpec(events, now);
    forall e | e in EventsWithin24Hours(events, now)
      ensures TimeUntilEvent(e, now).Some? && 0 <= TotalMinutes(TimeUntilEvent(e, now).value) <= 24 * 60
    {
      TotalMinutesIsFloor(e.target - now, TimeUntilEvent(e, now).value);
      assert MINUTE_MS == 60000 && DAY_MS == 86400000;
    }
  }

  /** The dialog's submit with `onAddEvent` bound to the store's `addEvent`:
      the dialog resets and closes on a valid payload whatever the store
      then reports, and the store gains the event only when it succeeds. */
  method SubmitFromDialog(dialog: AddEventModal, store: Store, loggedIn: bool, now: int, offset: int,
                          response: CreateResponse)
    returns (outcome: SubmitOutcome, stored: Option<StoreOutcome>)
    requires dialog.Rendered()
    modifies dialog, store
    ensures outcome == Validate(old(dialog.formData), old(dialog.selected), now, offset)
    ensures stored.Some? <==> outcome.Submitted?
    ensures outcome.Submitted? ==> !dialog.isOpen && dialog.formData == EMPTY_FORM && dialog.selected == None
    ensures stored == Some(Succeeded) ==>
      response.CreateOk? && store.events == [CreatedEvent(outcome.event, response.doc)] + old(store.events)
    ensures stored != Some(Succeeded) ==> store.events == old(store.events)
  {
    outcome := dialog.HandleSubmit(now, offset);
    stored := None;
    if outcome.Submitted? {
      var r := store.AddEvent(loggedIn, outcome.event, response);
      stored := Some(r);
    }
  }
}
