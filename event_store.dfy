/** The in-memory event store of the `useEvents` hook: the list of the user's
    events, the operations that replace it, the derived views recomputed on
    every clock tick, and the countdown arithmetic. */
module EventStore {
  import opened EventTypes

  // ---------------------------------------------------------------------------
  // Time until an event

  /** Whole days, hours, minutes and seconds left before an event. */
  datatype TimeUntil = TimeUntil(days: int, hours: int, minutes: int, seconds: int)

  /** The whole number of minutes left, as the threshold notifier adds it up. */
  function TotalMinutes(t: TimeUntil): int {
    t.days * 24 * 60 + t.hours * 60 + t.minutes
  }

  /** The whole number of hours left, as the countdown adds it up. */
  function TotalHours(t: TimeUntil): int {
    t.days * 24 + t.hours
  }

  /** `getTimeUntilEvent`: null once the event's instant is reached, otherwise
      the remaining milliseconds split into days, hours, minutes and seconds. */
  function TimeUntilEvent(e: Event, now: int): (r: Option<TimeUntil>)
    ensures r.None? <==> e.target - now <= 0
    ensures r.Some? ==> Decomposes(e.target - now, r.value)
  {
    var diff := e.target - now;
    if diff <= 0 then None
    else
      var t := TimeUntil(diff / DAY_MS, (diff % DAY_MS) / HOUR_MS,
                         (diff % HOUR_MS) / MINUTE_MS, (diff % MINUTE_MS) / SECOND_MS);
      DecomposeCorrect(diff);
      Some(t)
  }

  /** `t` is the days/hours/minutes/seconds breakdown of `diff` milliseconds,
      rounded down to a whole second. */
  predicate Decomposes(diff: int, t: TimeUntil) {
    && 0 <= t.days && 0 <= t.hours < 24 && 0 <= t.minutes < 60 && 0 <= t.seconds < 60
    && t.days * DAY_MS + t.hours * HOUR_MS + t.minutes * MINUTE_MS + t.seconds * SECOND_MS
       == diff - diff % SECOND_MS
  }

  lemma ModOfMultiple(x: int, big: int, small: int)
    requires small > 0 && big > 0 && big % small == 0
    ensures (x % big) % small == x % small
  {
    var q, r := x / big, x % big;
    var k := big / small;
    assert big == k * small;
    assert x == (q * k) * small + r;
    DivModUnique(x, q * k + r / small, r % small, small);
  }

  /** Division with remainder has one answer. */
  lemma DivModUnique(x: int, q: int, r: int, m: int)
    requires m > 0 && 0 <= r < m && x == q * m + r
    ensures x / m == q && x % m == r
  {
    var q', r' := x / m, x % m;
    assert (q' - q) * m == r - r' by {
      assert q' * m + r' == q * m + r;
    }
    if q' > q {
      MulAtLeast(q' - q, m);
    } else if q' < q {
      MulAtLeast(q - q', m);
    }
  }

  lemma MulAtLeast(a: int, m: int)
    requires a >= 1 && m > 0
    ensures a * m >= m
  {
  }

  lemma DecomposeCorrect(diff: int)
    requires diff > 0
    ensures Decomposes(diff, TimeUntil(diff / DAY_MS, (diff % DAY_MS) / HOUR_MS,
                                       (diff % HOUR_MS) / MINUTE_MS, (diff % MINUTE_MS) / SECOND_MS))
  {
    var days, r1 := diff / DAY_MS, diff % DAY_MS;
    var hours := r1 / HOUR_MS;
    ModOfMultiple(diff, DAY_MS, HOUR_MS);
    var r2 := diff % HOUR_MS;
    assert r1 == hours * HOUR_MS + r2;
    var minutes := r2 / MINUTE_MS;
    ModOfMultiple(diff, HOUR_MS, MINUTE_MS);
    var r3 := diff % MINUTE_MS;
    assert r2 == minutes * MINUTE_MS + r3;
    var seconds := r3 / SECOND_MS;
    ModOfMultiple(diff, MINUTE_MS, SECOND_MS);
    assert r3 == seconds * SECOND_MS + diff % SECOND_MS;
    assert hours < 24 by { assert r1 < 24 * HOUR_MS; }
    assert minutes < 60 by { assert r2 < 60 * MINUTE_MS; }
    assert seconds < 60 by { assert r3 < 60 * SECOND_MS; }
  }

  /** The breakdown is unique: any two that split the same delta agree. */
  lemma {:induction false} DecomposesUnique(diff: int, t: TimeUntil, u: TimeUntil)
    requires Decomposes(diff, t) && Decomposes(diff, u)
    ensures t == u
  {
    var w := diff - diff % SECOND_MS;
    var rt := t.hours * HOUR_MS + t.minutes * MINUTE_MS + t.seconds * SECOND_MS;
    var ru := u.hours * HOUR_MS + u.minutes * MINUTE_MS + u.seconds * SECOND_MS;
    DivModUnique(w, t.days, rt, DAY_MS);
    DivModUnique(w, u.days, ru, DAY_MS);
    var st := t.minutes * MINUTE_MS + t.seconds * SECOND_MS;
    var su := u.minutes * MINUTE_MS + u.seconds * SECOND_MS;
    DivModUnique(rt, t.hours, st, HOUR_MS);
    DivModUnique(ru, u.hours, su, HOUR_MS);
    DivModUnique(st, t.minutes, t.seconds * SECOND_MS, MINUTE_MS);
    DivModUnique(su, u.minutes, u.seconds * SECOND_MS, MINUTE_MS);
  }

  /** The minute total the notifier computes is the delta in whole minutes. */
  lemma TotalMinutesIsFloor(diff: int, t: TimeUntil)
    requires Decomposes(diff, t)
    ensures TotalMinutes(t) == diff / MINUTE_MS
  {
    var m := TotalMinutes(t);
    assert t.days * DAY_MS + t.hours * HOUR_MS + t.minutes * MINUTE_MS == m * MINUTE_MS;
    assert 0 <= diff % SECOND_MS < SECOND_MS;
    DivModUnique(diff, m, t.seconds * SECOND_MS + diff % SECOND_MS, MINUTE_MS);
  }

  /** The hour total the countdown computes is the delta in whole hours. */
  lemma TotalHoursIsFloor(diff: int, t: TimeUntil)
    requires Decomposes(diff, t)
    ensures TotalHours(t) == diff / HOUR_MS
  {
    var h := TotalHours(t);
    assert t.days * DAY_MS + t.hours * HOUR_MS == h * HOUR_MS;
    assert 0 <= diff % SECOND_MS < SECOND_MS;
    DivModUnique(diff, h, t.minutes * MINUTE_MS + t.seconds * SECOND_MS + diff % SECOND_MS, HOUR_MS);
  }

  // ---------------------------------------------------------------------------
  // Filtering and sorting

  function Filter(s: seq<Event>, p: Event -> bool): (r: seq<Event>)
    ensures forall e :: e in r <==> e in s && p(e)
    ensures multiset(r) <= multiset(s)
    ensures |r| <= |s|
  {
    if s == [] then []
    else
      assert s == [s[0]] + s[1..];
      (if p(s[0]) then [s[0]] else []) + Filter(s[1..], p)
  }

  /** Filtering distributes over concatenation, so it keeps relative order. */
  lemma {:induction false} FilterAppend(a: seq<Event>, b: seq<Event>, p: Event -> bool)
    ensures Filter(a + b, p) == Filter(a, p) + Filter(b, p)
  {
    if a == [] {
      assert a + b == b;
    } else {
      assert (a + b)[0] == a[0];
      assert (a + b)[1..] == a[1..] + b;
      FilterAppend(a[1..], b, p);
      var h := if p(a[0]) then [a[0]] else [];
      calc {
        Filter(a + b, p);
        h + Filter(a[1..] + b, p);
        h + (Filter(a[1..], p) + Filter(b, p));
        (h + Filter(a[1..], p)) + Filter(b, p);
      }
    }
  }

  predicate SortedBy(s: seq<Event>, key: Event -> int) {
    forall i, j :: 0 <= i < j < |s| ==> key(s[i]) <= key(s[j])
  }

  /** Inserts `x` after every element whose key is not larger (keeps ties in
      arrival order, as the stable `Array.prototype.sort` does). */
  function InsertBy(x: Event, s: seq<Event>, key: Event -> int): (r: seq<Event>)
    requires SortedBy(s, key)
    ensures SortedBy(r, key)
    ensures multiset(r) == multiset(s) + multiset{x}
  {
    if s == [] then [x]
    else if key(x) < key(s[0]) then
      PrependSorted(x, s, key);
      [x] + s
    else
      var t := InsertBy(x, s[1..], key);
      assert s == [s[0]] + s[1..];
      HeadBelowInsert(x, s, t, key);
      PrependSorted(s[0], t, key);
      [s[0]] + t
  }

  lemma PrependSorted(h: Event, t: seq<Event>, key: Event -> int)
    requires SortedBy(t, key)
    requires t != [] ==> key(h) <= key(t[0])
    ensures SortedBy([h] + t, key)
  {
    var r := [h] + t;
    forall i, j | 0 <= i < j < |r| ensures key(r[i]) <= key(r[j]) {
      if i == 0 {
        assert r[j] == t[j - 1];
      } else {
        assert r[i] == t[i - 1] && r[j] == t[j - 1];
      }
    }
  }

  lemma HeadBelowInsert(x: Event, s: seq<Event>, t: seq<Event>, key: Event -> int)
    requires SortedBy(s, key) && s != [] && key(s[0]) <= key(x)
    requires multiset(t) == multiset(s[1..]) + multiset{x}
    ensures forall e :: e in t ==> key(s[0]) <= key(e)
  {
    forall e | e in t ensures key(s[0]) <= key(e) {
      assert e in multiset(t);
      if e != x {
        assert e in multiset(s[1..]);
        var k :| 0 <= k < |s[1..]| && s[1..][k] == e;
        assert s[k + 1] == e;
      }
    }
  }

  /** `sort` with a comparator `key(a) - key(b)`. */
  function SortBy(s: seq<Event>, key: Event -> int): (r: seq<Event>)
    ensures SortedBy(r, key)
    ensures multiset(r) == multiset(s)
  {
    if s == [] then []
    else
      assert s == s[..|s| - 1] + [s[|s| - 1]];
      InsertBy(s[|s| - 1], SortBy(s[..|s| - 1], key), key)
  }

  // ---------------------------------------------------------------------------
  // Derived views

  predicate IsUpcoming(e: Event, now: int) {
    !e.completed && e.target > now
  }

  function UpcomingAt(now: int): Event -> bool {
    (e: Event) => IsUpcoming(e, now)
  }

  function IsCompleted(e: Event): bool { e.completed }

  function TargetKey(e: Event): int { e.target }

  /** The instant a completed event is ordered by: its completion, else its target. */
  function CompletedKey(e: Event): int { e.completedAt.GetOr(e.target) }

  function NegCompletedKey(e: Event): int { -CompletedKey(e) }

  /** `getUpcomingEvents` */
  function UpcomingEvents(events: seq<Event>, now: int): seq<Event> {
    SortBy(Filter(events, UpcomingAt(now)), TargetKey)
  }

  /** `getCompletedEvents` */
  function CompletedEvents(events: seq<Event>): seq<Event> {
    SortBy(Filter(events, IsCompleted), NegCompletedKey)
  }

  predicate IsWithin24Hours(e: Event, now: int) {
    now < e.target <= now + DAY_MS
  }

  /** `getEventsWithin24Hours` (it does not look at `completed`). */
  function EventsWithin24Hours(events: seq<Event>, now: int): seq<Event> {
    Filter(events, (e: Event) => IsWithin24Hours(e, now))
  }

  /** `getNextEvent` */
  function NextEvent(events: seq<Event>, now: int): Option<Event> {
    var up := UpcomingEvents(events, now);
    if |up| > 0 then Some(up[0]) else None
  }

  lemma UpcomingEventsSpec(events: seq<Event>, now: int)
    ensures forall e :: e in UpcomingEvents(events, now) <==> e in events && IsUpcoming(e, now)
    ensures multiset(UpcomingEvents(events, now)) == multiset(Filter(events, UpcomingAt(now)))
    ensures forall i, j :: 0 <= i < j < |UpcomingEvents(events, now)| ==>
      UpcomingEvents(events, now)[i].target <= UpcomingEvents(events, now)[j].target
  {
    var f := Filter(events, UpcomingAt(now));
    var up := UpcomingEvents(events, now);
    assert forall e :: e in up <==> e in f by {
      assert forall e :: e in up <==> e in multiset(up);
      assert forall e :: e in f <==> e in multiset(f);
    }
  }

  lemma CompletedEventsSpec(events: seq<Event>)
    ensures forall e :: e in CompletedEvents(events) <==> e in events && e.completed
    ensures multiset(CompletedEvents(events)) == multiset(Filter(events, IsCompleted))
    ensures forall i, j :: 0 <= i < j < |CompletedEvents(events)| ==>
      CompletedKey(CompletedEvents(events)[i]) >= CompletedKey(CompletedEvents(events)[j])
  {
    var f := Filter(events, IsCompleted);
    var c := CompletedEvents(events);
    assert forall e :: e in c <==> e in f by {
      assert forall e :: e in c <==> e in multiset(c);
      assert forall e :: e in f <==> e in multiset(f);
    }
    assert forall i, j :: 0 <= i < j < |c| ==> NegCompletedKey(c[i]) <= NegCompletedKey(c[j]);
  }

  lemma Within24HoursSpec(events: seq<Event>, now: int)
    ensures forall e :: e in EventsWithin24Hours(events, now) <==>
      e in events && now < e.target <= now + DAY_MS
  {
  }

  /** The next event is none exactly when nothing is upcoming, and otherwise an
      upcoming event no later than any other upcoming event. */
  lemma NextEventSpec(events: seq<Event>, now: int)
    ensures NextEvent(events, now).None? <==> (forall e :: e in events ==> !IsUpcoming(e, now))
    ensures NextEvent(events, now).Some? ==>
      var n := NextEvent(events, now).value;
      n == UpcomingEvents(events, now)[0] && n in events && IsUpcoming(n, now) &&
      forall e :: e in events && IsUpcoming(e, now) ==> n.target <= e.target
  {
    UpcomingEventsSpec(events, now);
    var up := UpcomingEvents(events, now);
    if |up| == 0 {
      assert forall e :: e in events && IsUpcoming(e, now) ==> e in up;
    } else {
      assert up[0] in up;
      forall e | e in events && IsUpcoming(e, now) ensures up[0].target <= e.target {
        assert e in up;
        var k :| 0 <= k < |up| && up[k] == e;
      }
    }
  }

  /** Once completed, an event is never in the upcoming view. */
  lemma CompletedNeverUpcoming(events: seq<Event>, e: Event, now: int)
    requires e in events && e.completed
    ensures e !in UpcomingEvents(events, now)
    ensures e in CompletedEvents(events)
  {
    UpcomingEventsSpec(events, now);
    CompletedEventsSpec(events);
  }

  // ---------------------------------------------------------------------------
  // The auto-complete sweep

  predicate IsDue(e: Event, now: int) {
    !e.completed && e.target <= now
  }

  function Stamp(e: Event, now: int): Event {
    e.(completed := true, completedAt := Some(now))
  }

  /** What the sweep means: every due event stamped in place, the rest kept. */
  function Swept(events: seq<Event>, now: int): (r: seq<Event>)
    ensures |r| == |events|
  {
    seq(|events|, i requires 0 <= i < |events| =>
      if IsDue(events[i], now) then Stamp(events[i], now) else events[i])
  }

  /** The source's first phase: the stamped copies of the due events, in order. */
  function DueStamped(events: seq<Event>, now: int): seq<Event> {
    if events == [] then []
    else
      var last := events[|events| - 1];
      DueStamped(events[..|events| - 1], now) + (if IsDue(last, now) then [Stamp(last, now)] else [])
  }

  /** `Array.prototype.find` by id. */
  function FindById(cs: seq<Event>, id: string): (r: Option<Event>)
    ensures r.Some? ==> r.value in cs && r.value.id == id
    ensures r.None? ==> forall c :: c in cs ==> c.id != id
  {
    if cs == [] then None
    else if cs[0].id == id then Some(cs[0])
    else FindById(cs[1..], id)
  }

  lemma FindAbsent(cs: seq<Event>, id: string)
    requires id !in Ids(cs)
    ensures FindById(cs, id).None?
  {
  }

  /** The source's second phase: each event replaced by the first stamped copy with its id. */
  function MergeById(events: seq<Event>, cs: seq<Event>): (r: seq<Event>)
    ensures |r| == |events|
  {
    seq(|events|, i requires 0 <= i < |events| => FindById(cs, events[i].id).GetOr(events[i]))
  }

  lemma {:induction false} FindByIdAppend(a: seq<Event>, b: seq<Event>, id: string)
    ensures FindById(a + b, id) == if FindById(a, id).Some? then FindById(a, id) else FindById(b, id)
  {
    if a != [] {
      assert (a + b)[0] == a[0];
      assert (a + b)[1..] == a[1..] + b;
      if a[0].id != id {
        FindByIdAppend(a[1..], b, id);
      }
    } else {
      assert a + b == b;
    }
  }

  lemma {:induction false} DueStampedIds(events: seq<Event>, now: int)
    ensures Ids(DueStamped(events, now)) <= Ids(events)
  {
    if events != [] {
      var init := events[..|events| - 1];
      DueStampedIds(init, now);
      assert Ids(init) <= Ids(events) by {
        forall id | id in Ids(init) ensures id in Ids(events) {
          var e :| e in init && e.id == id;
          assert e in events;
        }
      }
      assert events[|events| - 1] in events;
    }
  }

  /** With unique ids, the stamped copy found for an event is its own. */
  lemma {:induction false} FindDueStamped(events: seq<Event>, now: int, i: int)
    requires UniqueIds(events) && 0 <= i < |events|
    ensures FindById(DueStamped(events, now), events[i].id) ==
      if IsDue(events[i], now) then Some(Stamp(events[i], now)) else None
  {
    var n := |events|;
    var init, last := events[..n - 1], events[n - 1];
    var tail := if IsDue(last, now) then [Stamp(last, now)] else [];
    assert DueStamped(events, now) == DueStamped(init, now) + tail;
    FindByIdAppend(DueStamped(init, now), tail, events[i].id);
    if i < n - 1 {
      assert init[i] == events[i];
      assert UniqueIds(init) by {
        forall a, b | 0 <= a < b < |init| ensures init[a].id != init[b].id {
          assert init[a] == events[a] && init[b] == events[b];
        }
      }
      FindDueStamped(init, now, i);
      assert last.id != events[i].id;
    } else {
      DueStampedIds(init, now);
      assert events[i].id !in Ids(init);
      FindAbsent(DueStamped(init, now), events[i].id);
    }
  }

  /** With unique ids the two-phase find/merge of the source is the sweep. */
  lemma MergeIsSwept(events: seq<Event>, now: int)
    requires UniqueIds(events)
    ensures MergeById(events, DueStamped(events, now)) == Swept(events, now)
  {
    forall i | 0 <= i < |events|
      ensures MergeById(events, DueStamped(events, now))[i] == Swept(events, now)[i]
    {
      FindDueStamped(events, now, i);
    }
  }

  /** After the sweep no event is due; the sweep keeps length, order and ids;
      it stamps exactly the due events and leaves every other event as it was. */
  lemma SweptSpec(events: seq<Event>, now: int)
    ensures forall e :: e in Swept(events, now) ==> !IsDue(e, now)
    ensures forall i :: 0 <= i < |events| ==> Swept(events, now)[i].id == events[i].id
    ensures forall i :: 0 <= i < |events| && IsDue(events[i], now) ==>
      Swept(events, now)[i].completed && Swept(events, now)[i].completedAt == Some(now)
    ensures forall i :: 0 <= i < |events| && !IsDue(events[i], now) ==>
      Swept(events, now)[i] == events[i]
  {
  }

  /** Sweeping twice at the same instant is sweeping once. */
  lemma SweptIdempotent(events: seq<Event>, now: int)
    ensures Swept(Swept(events, now), now) == Swept(events, now)
  {
  }

  // ---------------------------------------------------------------------------
  // Manual completion and restore

  /** `markEventAsCompleted` applied to a list. */
  function MarkCompleted(events: seq<Event>, id: string, now: int): (r: seq<Event>)
    ensures |r| == |events|
  {
    seq(|events|, i requires 0 <= i < |events| =>
      if events[i].id == id then Stamp(events[i], now) else events[i])
  }

  function Restore(e: Event): Event {
    e.(completed := false, completedAt := None)
  }

  /** `markEventAsIncomplete` applied to a list. */
  function MarkIncomplete(events: seq<Event>, id: string): (r: seq<Event>)
    ensures |r| == |events|
  {
    seq(|events|, i requires 0 <= i < |events| =>
      if events[i].id == id then Restore(events[i]) else events[i])
  }

  lemma MarkCompletedSpec(events: seq<Event>, id: string, now: int)
    ensures forall i :: 0 <= i < |events| && events[i].id != id ==>
      MarkCompleted(events, id, now)[i] == events[i]
    ensures forall i :: 0 <= i < |events| && events[i].id == id ==>
      var e := MarkCompleted(events, id, now)[i];
      e.completed && e.completedAt == Some(now) && e.target == events[i].target && e.id == id
    ensures forall e :: e in events && e.id == id ==> Stamp(e, now) !in UpcomingEvents(MarkCompleted(events, id, now), now)
  {
    forall e | e in events && e.id == id
      ensures Stamp(e, now) !in UpcomingEvents(MarkCompleted(events, id, now), now)
    {
      UpcomingEventsSpec(MarkCompleted(events, id, now), now);
    }
  }

  /** Restoring changes only the named event; a future-dated event returns to upcoming. */
  lemma MarkIncompleteSpec(events: seq<Event>, id: string, now: int)
    ensures forall i :: 0 <= i < |events| && events[i].id != id ==>
      MarkIncomplete(events, id)[i] == events[i]
    ensures forall i :: 0 <= i < |events| && events[i].id == id ==>
      var e := MarkIncomplete(events, id)[i];
      !e.completed && e.completedAt.None? && e.target == events[i].target && e.id == id
    ensures forall e :: e in events && e.id == id && e.target > now ==>
      Restore(e) in UpcomingEvents(MarkIncomplete(events, id), now)
  {
    forall e | e in events && e.id == id && e.target > now
      ensures Restore(e) in UpcomingEvents(MarkIncomplete(events, id), now)
    {
      var k :| 0 <= k < |events| && events[k] == e;
      assert MarkIncomplete(events, id)[k] == Restore(e);
      UpcomingEventsSpec(MarkIncomplete(events, id), now);
    }
  }

  // ---------------------------------------------------------------------------
  // Add and delete

  /** What the backend returns for a created document. */
  datatype Created = Created(id: string, createdAt: int)

  datatype CreateResponse = CreateOk(doc: Created) | CreateFailed

  /** The toast each store mutation ends with. */
  datatype StoreOutcome = Succeeded | LoginRequired | BackendFailed

  /** The event built from the backend's answer: no `completed`, no `completedAt`. */
  function CreatedEvent(ne: NewEvent, doc: Created): (e: Event)
    ensures e.id == doc.id && e.name == ne.name && e.target == ne.target
    ensures e.description == ne.description && !e.completed && e.completedAt.None?
  {
    Event(doc.id, ne.name, ne.target, ne.description, doc.createdAt, false, None)
  }

  /** What prepending a created event means for the views: it is upcoming
      exactly when its instant is ahead, never in the completed view, and the
      next sweep completes it when its instant is already reached; its id
      joins the list's ids, and a fresh id keeps the ids unique. */
  lemma AddedEventListed(ne: NewEvent, doc: Created, events: seq<Event>, now: int)
    ensures var e := CreatedEvent(ne, doc); var es := [e] + events;
      && (e in UpcomingEvents(es, now) <==> ne.target > now)
      && e !in CompletedEvents(es)
      && (ne.target <= now ==> Swept(es, now)[0] == Stamp(e, now))
      && Ids(es) == Ids(events) + {doc.id}
      && (UniqueIds(events) && doc.id !in Ids(events) ==> UniqueIds(es))
  {
    var e := CreatedEvent(ne, doc);
    AddedUpcoming(e, events, now);
    AddedNotCompleted(e, events);
    AddedIds(e, events);
  }

  lemma AddedUpcoming(e: Event, events: seq<Event>, now: int)
    requires !e.completed
    ensures e in UpcomingEvents([e] + events, now) <==> e.target > now
  {
    UpcomingEventsSpec([e] + events, now);
    assert e in [e] + events;
  }

  lemma AddedNotCompleted(e: Event, events: seq<Event>)
    requires !e.completed
    ensures e !in CompletedEvents([e] + events)
  {
    CompletedEventsSpec([e] + events);
  }

  lemma AddedIds(e: Event, events: seq<Event>)
    ensures Ids([e] + events) == Ids(events) + {e.id}
    ensures UniqueIds(events) && e.id !in Ids(events) ==> UniqueIds([e] + events)
  {
    var es := [e] + events;
    assert e in es;
    assert forall x :: x in es <==> x == e || x in events;
    if UniqueIds(events) && e.id !in Ids(events) {
      forall i, j | 0 <= i < j < |es| ensures es[i].id != es[j].id {
        assert es[j] == events[j - 1];
        if i > 0 { assert es[i] == events[i - 1]; } else { assert es[j] in events; }
      }
    }
  }

  /** The list after a successful delete: `filter(event => event.id !== id)`. */
  function RemoveId(events: seq<Event>, id: string): seq<Event> {
    Filter(events, OtherId(id))
  }

  function OtherId(id: string): Event -> bool {
    (e: Event) => e.id != id
  }

  /** Delete removes exactly the events with that id, keeps the others in order,
      and leaves a list without that id as it was. */
  lemma {:induction false} RemoveIdSpec(events: seq<Event>, id: string)
    ensures forall e :: e in RemoveId(events, id) <==> e in events && e.id != id
    ensures id !in Ids(events) ==> RemoveId(events, id) == events
    ensures forall a, b :: RemoveId(a + b, id) == RemoveId(a, id) + RemoveId(b, id)
  {
    forall a, b ensures RemoveId(a + b, id) == RemoveId(a, id) + RemoveId(b, id) {
      FilterAppend(a, b, OtherId(id));
    }
    if id !in Ids(events) { RemoveAbsent(events, id); }
  }

  /** After a delete the list's ids are the old ones without the deleted
      one, which is what the notifier's prune is judged against. */
  lemma IdsAfterRemove(events: seq<Event>, id: string)
    ensures Ids(RemoveId(events, id)) == Ids(events) - {id}
  {
    RemoveIdSpec(events, id);
    forall x | x in Ids(events) - {id} ensures x in Ids(RemoveId(events, id)) {
      var e :| e in events && e.id == x;
      assert e in RemoveId(events, id);
    }
  }

  lemma {:induction false} RemoveAbsent(events: seq<Event>, id: string)
    requires id !in Ids(events)
    ensures RemoveId(events, id) == events
  {
    if events != [] {
      assert events[0] in events;
      assert Ids(events[1..]) <= Ids(events) by {
        forall x | x in Ids(events[1..]) ensures x in Ids(events) {
          var e :| e in events[1..] && e.id == x;
          assert e in events;
        }
      }
      RemoveAbsent(events[1..], id);
    }
  }

  // ---------------------------------------------------------------------------
  // The store object

  /** The sweep's first loop: a stamped copy of each due event, in order. */
  method CollectDue(es: seq<Event>, now: int) returns (toComplete: seq<Event>)
    ensures toComplete == DueStamped(es, now)
  {
    toComplete := [];
    var i := 0;
    while i < |es|
      invariant 0 <= i <= |es|
      invariant toComplete == DueStamped(es[..i], now)
    {
      assert es[..i + 1][..i] == es[..i];
      toComplete := toComplete + (if IsDue(es[i], now) then [Stamp(es[i], now)] else []);
      i := i + 1;
    }
    assert es[..i] == es;
  }

  /** The sweep's second loop: each event replaced by the first copy with its id. */
  method MergeCompleted(es: seq<Event>, toComplete: seq<Event>) returns (merged: seq<Event>)
    ensures merged == MergeById(es, toComplete)
  {
    merged := [];
    var j := 0;
    while j < |es|
      invariant 0 <= j <= |es|
      invariant |merged| == j
      invariant forall k :: 0 <= k < j ==> merged[k] == FindById(toComplete, es[k].id).GetOr(es[k])
    {
      merged := merged + [FindById(toComplete, es[j].id).GetOr(es[j])];
      j := j + 1;
    }
  }

  class Store {
    /** `events`, replaced by each operation. */
    var events: seq<Event>

    constructor ()
      ensures events == []
    {
      events := [];
    }

    /** `addEvent`: with a user and a successful backend create, the new
        event is prepended; otherwise the list is unchanged. */
    method AddEvent(loggedIn: bool, ne: NewEvent, response: CreateResponse) returns (outcome: StoreOutcome)
      modifies this
      ensures !loggedIn ==> outcome == LoginRequired && events == old(events)
      ensures loggedIn && response.CreateFailed? ==> outcome == BackendFailed && events == old(events)
      ensures loggedIn && response.CreateOk? ==>
        outcome == Succeeded && events == [CreatedEvent(ne, response.doc)] + old(events)
    {
      if !loggedIn {
        return LoginRequired;
      }
      match response
      case CreateFailed =>
        outcome := BackendFailed;
      case CreateOk(doc) =>
        events := [CreatedEvent(ne, doc)] + events;
        outcome := Succeeded;
    }

    /** `deleteEvent`: with a user and a successful backend delete, every
        event with that id is removed; otherwise the list is unchanged. */
    method DeleteEvent(loggedIn: bool, id: string, backendOk: bool) returns (outcome: StoreOutcome)
      modifies this
      ensures !loggedIn ==> outcome == LoginRequired && events == old(events)
      ensures loggedIn && !backendOk ==> outcome == BackendFailed && events == old(events)
      ensures loggedIn && backendOk ==> outcome == Succeeded && events == RemoveId(old(events), id)
    {
      if !loggedIn {
        return LoginRequired;
      }
      if !backendOk {
        return BackendFailed;
      }
      events := RemoveId(events, id);
      outcome := Succeeded;
    }

    /** The auto-complete effect: collect stamped copies of the due events,
        then, if there are any, replace each event by the copy with its id. */
    method AutoComplete(now: int)
      modifies this
      ensures events == MergeById(old(events), DueStamped(old(events), now))
      ensures UniqueIds(old(events)) ==> events == Swept(old(events), now)
    {
      var es := events;
      var toComplete := CollectDue(es, now);
      if |toComplete| > 0 {
        events := MergeCompleted(es, toComplete);
      } else {
        assert es == MergeById(es, toComplete);
      }
      if UniqueIds(es) { MergeIsSwept(es, now); }
    }

    /** `markEventAsCompleted` */
    method MarkEventAsCompleted(id: string, now: int)
      modifies this
      ensures events == MarkCompleted(old(events), id, now)
    {
      events := MarkCompleted(events, id, now);
    }

    /** `markEventAsIncomplete` */
    method MarkEventAsIncomplete(id: string)
      modifies this
      ensures events == MarkIncomplete(old(events), id)
    {
      events := MarkIncomplete(events, id);
    }
  }
}
