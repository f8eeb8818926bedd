/** The threshold notifier of the `useNotifications` hook: on every check it
    classifies each event of the within-24-hours list by the minutes left,
    deduplicates by an hour-bucket key and a one-shot 24-hour marker, and
    dispatches a toast, an OS notification and tones; a cleanup pass drops the
    keys of events that have left the list. */
module ThresholdNotifier {
  import opened EventTypes
  import opened EventStore
  import opened Text

  datatype Urgency = Low | Medium | High

  /** A dedup key: `${id}-${bucket}` or `${id}-24h`. */
  datatype Key = HourBucket(eventId: string, bucket: nat) | Mark24h(eventId: string)

  /** The key's text as the source builds it. */
  function KeyText(k: Key): string {
    match k
    case HourBucket(id, b) => id + "-" + NatToString(b)
    case Mark24h(id) => id + "-24h"
  }

  /** `s.split('-')[0]`: the text before the first '-'. */
  function IdPrefix(s: string): (r: string)
    ensures '-' !in r
    ensures |r| <= |s| && r == s[..|r|]
  {
    if s == [] then []
    else if s[0] == '-' then []
    else [s[0]] + IdPrefix(s[1..])
  }

  lemma {:induction false} IdPrefixOf(id: string, rest: string)
    requires '-' !in id
    ensures IdPrefix(id + "-" + rest) == id
  {
    if id != [] {
      assert (id + "-" + rest)[0] == id[0];
      assert (id + "-" + rest)[1..] == id[1..] + "-" + rest;
      IdPrefixOf(id[1..], rest);
    } else {
      assert id + "-" + rest == "-" + rest;
    }
  }

  /** The cleanup's split recovers the event id from either kind of key,
      provided the id itself holds no '-' (backend ids are alphanumeric). */
  lemma KeyPrefixIsId(k: Key)
    requires '-' !in k.eventId
    ensures IdPrefix(KeyText(k)) == k.eventId
  {
    match k
    case HourBucket(id, b) => IdPrefixOf(id, NatToString(b));
    case Mark24h(id) =>
      assert id + "-24h" == id + "-" + "24h";
      IdPrefixOf(id, "24h");
  }

  /** The last character of a key tells its kind: a digit for a bucket key. */
  lemma LastCharTellsKind(k: Key)
    ensures |KeyText(k)| > 0
    ensures IsDigit(KeyText(k)[|KeyText(k)| - 1]) <==> k.HourBucket?
  {
    match k
    case HourBucket(id, b) =>
      var d := NatToString(b);
      assert KeyText(k)[|KeyText(k)| - 1] == d[|d| - 1];
    case Mark24h(id) =>
      assert KeyText(k)[|KeyText(k)| - 1] == 'h';
  }

  /** The key text is a faithful encoding: different keys give different text. */
  lemma KeyTextInjective(k: Key, l: Key)
    requires '-' !in k.eventId && '-' !in l.eventId
    requires KeyText(k) == KeyText(l)
    ensures k == l
  {
    KeyPrefixIsId(k);
    KeyPrefixIsId(l);
    LastCharTellsKind(k);
    LastCharTellsKind(l);
    if k.HourBucket? {
      var n := |k.eventId| + 1;
      assert KeyText(k)[n..] == NatToString(k.bucket);
      assert KeyText(l)[n..] == NatToString(l.bucket);
      NatToStringInjective(k.bucket, l.bucket);
    }
  }

  // ---------------------------------------------------------------------------
  // Classification

  /** The threshold chain, first match wins; `markerSeen` is whether the
      event's 24-hour marker is already recorded. */
  function Classify(totalMinutes: int, markerSeen: bool): Option<Urgency> {
    if totalMinutes <= 5 then Some(High)
    else if totalMinutes <= 30 then Some(Medium)
    else if totalMinutes <= 60 then Some(Medium)
    else if totalMinutes <= 60 * 24 then (if markerSeen then None else Some(Low))
    else None
  }

  /** The bands in milliseconds left: high under 6 minutes, medium under 61,
      low under 1441 and only without the marker, nothing beyond. */
  lemma ClassifyByTimeLeft(diff: int, t: TimeUntil, markerSeen: bool)
    requires diff > 0 && Decomposes(diff, t)
    ensures Classify(TotalMinutes(t), markerSeen) == Some(High) <==> diff < 6 * MINUTE_MS
    ensures Classify(TotalMinutes(t), markerSeen) == Some(Medium) <==> 6 * MINUTE_MS <= diff < 61 * MINUTE_MS
    ensures Classify(TotalMinutes(t), markerSeen) == Some(Low) <==>
      61 * MINUTE_MS <= diff < 1441 * MINUTE_MS && !markerSeen
    ensures Classify(TotalMinutes(t), markerSeen).None? <==>
      diff >= 1441 * MINUTE_MS || (61 * MINUTE_MS <= diff && markerSeen)
  {
    TotalMinutesIsFloor(diff, t);
    DivBounds(diff);
  }

  lemma DivBounds(diff: int)
    ensures (diff / MINUTE_MS) * MINUTE_MS <= diff < (diff / MINUTE_MS) * MINUTE_MS + MINUTE_MS
  {
  }

  // ---------------------------------------------------------------------------
  // Dispatch parameters

  /** `urgencyConfig[urgency].duration` */
  function ToastDuration(u: Urgency): int {
    match u
    case High => 8000
    case Medium => 5000
    case Low => 4000
  }

  /** The oscillator settings of `playNotificationSound`, duration in ms. */
  datatype Tone = Tone(frequencyHz: int, durationMs: int)

  function ToneFor(u: Urgency): Tone {
    match u
    case High => Tone(1000, 500)
    case Medium => Tone(850, 400)
    case Low => Tone(700, 200)
  }

  /** The delays at which tones are scheduled after a dispatch. */
  function ToneOffsets(u: Urgency): seq<int> {
    if u == High then [100, 600, 1200] else [100]
  }

  /** The OS notification: tagged with the event id; only a high alert
      requires interaction, the others close after five seconds. */
  datatype OsNotice = OsNotice(tag: string, requireInteraction: bool, autoCloseMs: Option<int>)

  function OsNoticeFor(e: Event, u: Urgency, permissionGranted: bool): Option<OsNotice> {
    if !permissionGranted then None
    else Some(OsNotice(e.id, u == High, if u != High then Some(5000) else None))
  }

  /** Everything one alert sends out. */
  datatype Dispatch = Dispatch(
    eventId: string,
    urgency: Urgency,
    toastMs: int,
    os: Option<OsNotice>,
    tone: Tone,
    toneOffsets: seq<int>)

  function DispatchFor(e: Event, u: Urgency, permissionGranted: bool): Dispatch {
    Dispatch(e.id, u, ToastDuration(u), OsNoticeFor(e, u, permissionGranted), ToneFor(u), ToneOffsets(u))
  }

  /** The dispatch tables: toast length falls with urgency, only high alerts
      persist and repeat their tone, and nothing reaches the OS without
      permission. */
  lemma DispatchSpec(e: Event, u: Urgency, permissionGranted: bool)
    ensures var d := DispatchFor(e, u, permissionGranted);
      && d.eventId == e.id
      && (d.urgency == High ==> d.toastMs == 8000) && (d.urgency == Medium ==> d.toastMs == 5000)
      && (d.urgency == Low ==> d.toastMs == 4000)
      && (d.os.Some? <==> permissionGranted)
      && (d.os.Some? ==> d.os.value.tag == e.id
                         && (d.os.value.requireInteraction <==> u == High)
                         && (d.os.value.autoCloseMs.None? <==> u == High)
                         && (u != High ==> d.os.value.autoCloseMs == Some(5000)))
      && (u == High ==> d.tone == Tone(1000, 500)) && (u == Medium ==> d.tone == Tone(850, 400))
      && (u == Low ==> d.tone == Tone(700, 200))
      && |d.toneOffsets| == (if u == High then 3 else 1)
      && d.toneOffsets[0] == 100
      && (u == High ==> d.toneOffsets[1] == 600 && d.toneOffsets[2] == 1200)
  {
  }

  // ---------------------------------------------------------------------------
  // One event of a check

  /** The hour-bucket key for a time-until value. */
  function BucketKey(e: Event, t: TimeUntil): Key
    requires TotalMinutes(t) >= 0
  {
    HourBucket(e.id, TotalMinutes(t) / 60)
  }

  datatype StepResult = StepResult(notified: set<Key>, alert: Option<Urgency>)

  /** One iteration of the check's `forEach`. */
  function Step(notified: set<Key>, e: Event, now: int): StepResult {
    match TimeUntilEvent(e, now)
    case None => StepResult(notified, None)
    case Some(t) =>
      var key := BucketKey(e, t);
      if key in notified then StepResult(notified, None)
      else
        match Classify(TotalMinutes(t), Mark24h(e.id) in notified)
        case None => StepResult(notified, None)
        case Some(u) =>
          var marked := if u == Low then notified + {Mark24h(e.id)} else notified;
          StepResult(marked + {key}, Some(u))
  }

  /** What one step does: an event already due is skipped; a recorded bucket
      key suppresses the alert; otherwise the alert is the classification; a
      dispatch records its bucket key (and, when low, the 24-hour marker),
      and when nothing is dispatched nothing is recorded. */
  lemma StepSpec(notified: set<Key>, e: Event, now: int)
    ensures e.target <= now ==> Step(notified, e, now) == StepResult(notified, None)
    ensures e.target > now ==>
      var t := TimeUntilEvent(e, now).value;
      var key := HourBucket(e.id, (e.target - now) / HOUR_MS);
      && BucketKey(e, t) == key
      && (key in notified ==> Step(notified, e, now) == StepResult(notified, None))
      && (key !in notified ==>
            var r := Step(notified, e, now);
            && r.alert == Classify((e.target - now) / MINUTE_MS, Mark24h(e.id) in notified)
            && (r.alert.None? ==> r.notified == notified)
            && (r.alert.Some? ==> r.notified == notified + {key} +
                                  (if r.alert == Some(Low) then {Mark24h(e.id)} else {})))
  {
    if e.target > now {
      var t := TimeUntilEvent(e, now).value;
      TotalMinutesIsFloor(e.target - now, t);
      TotalHoursIsFloor(e.target - now, t);
      BucketIsHours(e.target - now, t);
    }
  }

  lemma BucketIsHours(diff: int, t: TimeUntil)
    requires Decomposes(diff, t)
    ensures TotalMinutes(t) / 60 == TotalHours(t)
  {
    assert TotalMinutes(t) == TotalHours(t) * 60 + t.minutes;
    DivModUnique(TotalMinutes(t), TotalHours(t), t.minutes, 60);
  }

  lemma StepGrows(notified: set<Key>, e: Event, now: int)
    ensures notified <= Step(notified, e, now).notified
  {
  }

  /** An (event, hour bucket) pair alerts at most once while its key is
      retained: after an alert, any later check that lands in the same hour
      bucket dispatches nothing. */
  lemma BucketAlertsOnce(notified: set<Key>, later: set<Key>, e: Event, now1: int, now2: int)
    requires Step(notified, e, now1).alert.Some?
    requires Step(notified, e, now1).notified <= later
    requires e.target > now2 && (e.target - now1) / HOUR_MS == (e.target - now2) / HOUR_MS
    ensures Step(later, e, now2) == StepResult(later, None)
  {
    StepSpec(notified, e, now1);
    StepSpec(later, e, now2);
  }

  /** Minutes 0 to 59 share bucket 0, so an event alerts at most once in its
      final hour: the five-minute high alert is suppressed by an earlier
      medium alert in the same hour. */
  lemma FinalHourAlertsOnce(notified: set<Key>, later: set<Key>, e: Event, now1: int, now2: int)
    requires Step(notified, e, now1).alert.Some?
    requires Step(notified, e, now1).notified <= later
    requires 0 < e.target - now1 < HOUR_MS && 0 < e.target - now2 < HOUR_MS
    ensures Step(later, e, now2).alert.None?
  {
    assert (e.target - now1) / HOUR_MS == 0 && (e.target - now2) / HOUR_MS == 0;
    BucketAlertsOnce(notified, later, e, now1, now2);
  }

  /** A low alert records the 24-hour marker, so no second low alert fires
      for that event while the marker is retained. */
  lemma LowAlertsOnce(notified: set<Key>, later: set<Key>, e: Event, e': Event, now1: int, now2: int)
    requires Step(notified, e, now1).alert == Some(Low)
    requires Step(notified, e, now1).notified <= later
    requires e'.id == e.id
    ensures Step(later, e', now2).alert != Some(Low)
  {
    StepSpec(notified, e, now1);
    StepSpec(later, e', now2);
  }

  /** When the marker suppresses a low alert, no bucket key is recorded
      either, so the next check in that hour classifies again. */
  lemma MarkerSuppressionRecordsNothing(notified: set<Key>, e: Event, now: int)
    requires Mark24h(e.id) in notified
    requires 61 * MINUTE_MS <= e.target - now < 1441 * MINUTE_MS
    ensures Step(notified, e, now) == StepResult(notified, None)
  {
    StepSpec(notified, e, now);
    var diff := e.target - now;
    ClassifyByTimeLeft(diff, TimeUntilEvent(e, now).value, true);
    TotalMinutesIsFloor(diff, TimeUntilEvent(e, now).value);
  }

  // ---------------------------------------------------------------------------
  // A whole check

  datatype PassResult = PassResult(notified: set<Key>, dispatched: seq<Dispatch>)

  /** The check's `forEach` over the list, in order. */
  function Pass(notified: set<Key>, events: seq<Event>, now: int, permissionGranted: bool): PassResult {
    if events == [] then PassResult(notified, [])
    else
      var before := Pass(notified, events[..|events| - 1], now, permissionGranted);
      var e := events[|events| - 1];
      var r := Step(before.notified, e, now);
      PassResult(r.notified,
                 before.dispatched + (if r.alert.Some? then [DispatchFor(e, r.alert.value, permissionGranted)] else []))
  }

  /** A check only adds keys, and each dispatch is for an event of the list
      that had not yet reached its instant; with unique ids no event is
      dispatched for twice in one check. */
  lemma {:induction false} PassSpec(notified: set<Key>, events: seq<Event>, now: int, permissionGranted: bool)
    ensures notified <= Pass(notified, events, now, permissionGranted).notified
    ensures |Pass(notified, events, now, permissionGranted).dispatched| <= |events|
    ensures forall d :: d in Pass(notified, events, now, permissionGranted).dispatched ==>
      exists e :: e in events && e.id == d.eventId && e.target > now
    ensures UniqueIds(events) ==>
      var ds := Pass(notified, events, now, permissionGranted).dispatched;
      forall i, j :: 0 <= i < j < |ds| ==> ds[i].eventId != ds[j].eventId
  {
    if events != [] {
      var init := events[..|events| - 1];
      PassSpec(notified, init, now, permissionGranted);
      var before := Pass(notified, init, now, permissionGranted);
      var e := events[|events| - 1];
      StepGrows(before.notified, e, now);
      StepSpec(before.notified, e, now);
      forall d | d in Pass(notified, events, now, permissionGranted).dispatched
        ensures exists e :: e in events && e.id == d.eventId && e.target > now
      {
        if d in before.dispatched {
          var x :| x in init && x.id == d.eventId && x.target > now;
          assert x in events;
        } else {
          assert e in events;
        }
      }
      if UniqueIds(events) {
        LastIdFresh(events);
        var extra := Pass(notified, events, now, permissionGranted).dispatched[|before.dispatched|..];
        assert Pass(notified, events, now, permissionGranted).dispatched == before.dispatched + extra;
        DistinctAppend(before.dispatched, extra, init, e.id, now);
      }
    }
  }

  /** With unique ids, the last event's id is not the id of an earlier one. */
  lemma LastIdFresh(events: seq<Event>)
    requires UniqueIds(events) && events != []
    ensures UniqueIds(events[..|events| - 1])
    ensures forall x :: x in events[..|events| - 1] ==> x.id != events[|events| - 1].id
  {
    forall x | x in events[..|events| - 1] ensures x.id != events[|events| - 1].id {
      var k :| 0 <= k < |events| - 1 && events[k] == x;
    }
  }

  /** Appending at most one dispatch for a fresh id keeps the ids distinct. */
  lemma DistinctAppend(ds: seq<Dispatch>, extra: seq<Dispatch>, init: seq<Event>, id: string, now: int)
    requires forall i, j :: 0 <= i < j < |ds| ==> ds[i].eventId != ds[j].eventId
    requires forall d :: d in ds ==> exists x :: x in init && x.id == d.eventId && x.target > now
    requires forall x :: x in init ==> x.id != id
    requires |extra| <= 1 && forall d :: d in extra ==> d.eventId == id
    ensures var all := ds + extra; forall i, j :: 0 <= i < j < |all| ==> all[i].eventId != all[j].eventId
  {
    var all := ds + extra;
    forall i, j | 0 <= i < j < |all| ensures all[i].eventId != all[j].eventId {
      if j >= |ds| {
        assert all[i] in ds && all[j] in extra;
      }
    }
  }

  /** The cleanup's rule: keep a key only if the text before its first '-'
      is the id of an event still in the list. */
  function Pruned(notified: set<Key>, ids: set<string>): set<Key> {
    set k | k in notified && IdPrefix(KeyText(k)) in ids
  }

  /** With dash-free ids, cleanup keeps exactly the keys of listed events. */
  lemma PrunedSpec(notified: set<Key>, ids: set<string>)
    requires forall k :: k in notified ==> '-' !in k.eventId
    ensures Pruned(notified, ids) == set k | k in notified && k.eventId in ids
  {
    forall k | k in notified ensures IdPrefix(KeyText(k)) == k.eventId {
      KeyPrefixIsId(k);
    }
  }

  /** A delete followed by the next cleanup drops every key of the deleted
      event and keeps the keys of every other listed event. */
  lemma PruneAfterDelete(notified: set<Key>, within: seq<Event>, id: string)
    requires forall k :: k in notified ==> '-' !in k.eventId
    ensures forall k :: k in Pruned(notified, Ids(RemoveId(within, id))) ==> k in notified && k.eventId != id
    ensures forall k :: k in notified && k.eventId != id && k.eventId in Ids(within) ==>
      k in Pruned(notified, Ids(RemoveId(within, id)))
  {
    IdsAfterRemove(within, id);
    PrunedSpec(notified, Ids(RemoveId(within, id)));
  }

  // ---------------------------------------------------------------------------
  // The notifier object

  class Notifier {
    /** `notifiedEvents`, mutated in place. */
    var notified: set<Key>

    constructor ()
      ensures notified == {}
    {
      notified := {};
    }

    /** The notification-check effect over `eventsWithin24Hours`. */
    method Check(events: seq<Event>, now: int, permissionGranted: bool) returns (dispatched: seq<Dispatch>)
      modifies this
      ensures PassResult(notified, dispatched) == Pass(old(notified), events, now, permissionGranted)
    {
      dispatched := [];
      var i := 0;
      while i < |events|
        invariant 0 <= i <= |events|
        invariant PassResult(notified, dispatched) == Pass(old(notified), events[..i], now, permissionGranted)
      {
        assert events[..i + 1][..i] == events[..i];
        var e := events[i];
        var timeRemaining := TimeUntilEvent(e, now);
        if timeRemaining.Some? {
          var t := timeRemaining.value;
          var key := BucketKey(e, t);
          if key !in notified {
            var shouldNotify := false;
            var urgency := Low;
            var totalMinutes := TotalMinutes(t);
            if totalMinutes <= 5 {
              shouldNotify, urgency := true, High;
            } else if totalMinutes <= 30 {
              shouldNotify, urgency := true, Medium;
            } else if totalMinutes <= 60 {
              shouldNotify, urgency := true, Medium;
            } else if totalMinutes <= 60 * 24 {
              if Mark24h(e.id) !in notified {
                shouldNotify, urgency := true, Low;
                notified := notified + {Mark24h(e.id)};
              }
            }
            if shouldNotify {
              notified := notified + {key};
              dispatched := dispatched + [DispatchFor(e, urgency, permissionGranted)];
            }
          }
        }
        i := i + 1;
      }
      assert events[..i] == events;
    }

    /** The cleanup effect: collect the keys whose id prefix is not listed,
        then delete them. */
    method Cleanup(within: seq<Event>)
      modifies this
      ensures notified == Pruned(old(notified), Ids(within))
    {
      var currentIds := Ids(within);
      var keysToDelete: set<Key> := {};
      var remaining := notified;
      while remaining != {}
        invariant remaining <= notified
        invariant keysToDelete == set k | k in notified - remaining && IdPrefix(KeyText(k)) !in currentIds
        decreases |remaining|
      {
        var k :| k in remaining;
        if IdPrefix(KeyText(k)) !in currentIds {
          keysToDelete := keysToDelete + {k};
        }
        remaining := remaining - {k};
      }
      notified := notified - keysToDelete;
    }
  }
}
