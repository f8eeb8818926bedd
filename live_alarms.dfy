/** The live-alarm manager of the `usePersistentNotifications` hook: when an
    event's instant has just passed it arms an alarm (tone now, a tone every
    10 s, a persistent banner, an OS notification) that ends when the user
    stops it or 120 s after arming. Timers are handles in a set of live
    timers; their callbacks are the methods `RepeatFires` and `TimeoutFires`. */
module LiveAlarms {
  import opened EventTypes
  import opened EventStore

  const ARM_WINDOW_MS: int := 60000
  const REPEAT_MS: int := 10000
  const ALARM_MS: int := 120000

  type Handle = int

  /** `PersistentNotificationState`; both timer handles are set before the
      entry is stored, so every stored entry has them. */
  datatype AlarmState = AlarmState(
    eventId: string,
    startTime: int,
    isActive: bool,
    repeatTimer: Handle,
    expiryTimer: Handle)

  /** The "event is now" test: the instant passed less than a minute ago. */
  predicate IsEventNow(e: Event, now: int) {
    var timeDiff := e.target - now;
    timeDiff <= 0 && timeDiff > -ARM_WINDOW_MS
  }

  /** The arming guard, against the map as it was when the check began. */
  predicate ShouldArm(e: Event, now: int, active: map<string, AlarmState>) {
    !e.completed && IsEventNow(e, now) && e.id !in active
  }

  /** The ids one check arms, in list order. */
  function ArmedIds(events: seq<Event>, now: int, active: map<string, AlarmState>): (r: seq<string>)
    ensures forall id :: id in r <==> exists e :: e in events && e.id == id && ShouldArm(e, now, active)
  {
    if events == [] then []
    else
      var init := events[..|events| - 1];
      var e := events[|events| - 1];
      assert events == init + [e];
      ArmedIds(init, now, active) + (if ShouldArm(e, now, active) then [e.id] else [])
  }

  /** The effect depends on the map, so arming makes it run again; that run,
      at the same instant and against the map the first one left, arms
      nothing, so a check settles after one round. */
  lemma RecheckArmsNothing(events: seq<Event>, now: int, snapshot: map<string, AlarmState>,
                           m: map<string, AlarmState>)
    requires forall id :: id in m <==> id in snapshot || id in ArmedIds(events, now, snapshot)
    ensures ArmedIds(events, now, m) == []
  {
    forall e | e in events ensures !ShouldArm(e, now, m) {
      if ShouldArm(e, now, snapshot) {
        assert e.id in ArmedIds(events, now, snapshot);
      }
    }
    NoneArmed(events, now, m);
  }

  /** Sweep first, then check, at one instant: nothing arms, because the
      sweep completes every event whose instant is reached. */
  lemma NoArmAfterSweep(events: seq<Event>, now: int, active: map<string, AlarmState>)
    ensures ArmedIds(Swept(events, now), now, active) == []
  {
    SweptSpec(events, now);
    NoneArmed(Swept(events, now), now, active);
  }

  lemma {:induction false} NoneArmed(events: seq<Event>, now: int, active: map<string, AlarmState>)
    requires forall e :: e in events ==> !ShouldArm(e, now, active)
    ensures ArmedIds(events, now, active) == []
  {
    if events != [] {
      assert events[|events| - 1] in events;
      assert forall e :: e in events[..|events| - 1] ==> e in events;
      NoneArmed(events[..|events| - 1], now, active);
    }
  }

  /** An alarm armed at `armedAt` has expired 120 s later, and by then its
      event is past the one-minute window, so it cannot arm again. */
  lemma NoRearmAfterExpiry(e: Event, armedAt: int, now: int, active: map<string, AlarmState>)
    requires ShouldArm(e, armedAt, active)
    requires now >= armedAt + ALARM_MS
    ensures !IsEventNow(e, now)
  {
  }

  /** A stop inside the one-minute window removes the entry while the event
      may still be incomplete; a check then arms it again. */
  lemma RearmAfterEarlyStop(e: Event, armedAt: int, now: int, active: map<string, AlarmState>)
    requires ShouldArm(e, armedAt, active)
    requires armedAt <= now < e.target + ARM_WINDOW_MS
    ensures ShouldArm(e, now, active - {e.id})
  {
  }

  /** What the interval callback does at `elapsed` ms after arming. */
  datatype RepeatAction = PlayTone | StopAlarm

  function RepeatActionAt(elapsed: int): RepeatAction {
    if elapsed >= ALARM_MS then StopAlarm else PlayTone
  }

  /** Firing every 10 s, the interval plays at 10 s, 20 s, ..., 110 s and
      stops the alarm at its twelfth firing, 120 s after arming. */
  lemma RepeatSchedule(k: nat)
    requires k >= 1
    ensures RepeatActionAt(k * REPEAT_MS) == PlayTone <==> k <= 11
  {
  }

  /** The state after every expiry timeout due by `now` has fired. */
  function Expire(active: map<string, AlarmState>, now: int): (r: map<string, AlarmState>)
    ensures forall id :: id in r ==> now - r[id].startTime < ALARM_MS
    ensures forall id :: id in active && now - active[id].startTime < ALARM_MS ==> id in r && r[id] == active[id]
    ensures r.Keys <= active.Keys
  {
    map id | id in active && now - active[id].startTime < ALARM_MS :: active[id]
  }

  /** The map after the expiry callbacks of `ids` have fired in that order,
      each removing its entry. */
  function RemoveAll(m: map<string, AlarmState>, ids: seq<string>): map<string, AlarmState>
    decreases |ids|
  {
    if ids == [] then m else RemoveAll(m - {ids[0]}, ids[1..])
  }

  /** Firing the expiry timers that are due by `now`, each once and in any
      order, leaves exactly `Expire`: every entry still there is younger
      than 120 s, and those entries are untouched. */
  lemma {:induction false} TimeoutsExpire(m: map<string, AlarmState>, now: int, due: seq<string>)
    requires forall k, l :: 0 <= k < l < |due| ==> due[k] != due[l]
    requires forall id :: id in due <==> id in m && now - m[id].startTime >= ALARM_MS
    ensures RemoveAll(m, due) == Expire(m, now)
    decreases |due|
  {
    if due == [] {
      assert Expire(m, now) == m;
    } else {
      var m' := m - {due[0]};
      forall id ensures id in due[1..] <==> id in m' && now - m'[id].startTime >= ALARM_MS {
        if id in due[1..] {
          var k :| 0 <= k < |due[1..]| && due[1..][k] == id;
          assert due[k + 1] == id && due[0] != due[k + 1];
        }
      }
      TimeoutsExpire(m', now, due[1..]);
      assert Expire(m', now) == Expire(m, now);
    }
  }

  /** The OS notification of an armed alarm. */
  datatype OsAlarm = OsAlarm(tag: string, requireInteraction: bool)

  /** What arming sends out besides the new entry. */
  datatype ArmEffects = ArmEffects(os: Option<OsAlarm>, tonesNow: nat)

  function ArmEffectsFor(id: string, permissionGranted: bool): (fx: ArmEffects)
    ensures fx.tonesNow == 1
    ensures fx.os.Some? <==> permissionGranted
    ensures fx.os.Some? ==> fx.os.value.tag == "event-now-" + id && fx.os.value.requireInteraction
  {
    ArmEffects(if permissionGranted then Some(OsAlarm("event-now-" + id, true)) else None, 1)
  }

  /** The effects of arming `ids`, in order. */
  function EffectsOf(ids: seq<string>, permissionGranted: bool): (fx: seq<ArmEffects>)
    ensures |fx| == |ids|
    ensures forall k :: 0 <= k < |ids| ==> fx[k] == ArmEffectsFor(ids[k], permissionGranted)
  {
    if ids == [] then []
    else EffectsOf(ids[..|ids| - 1], permissionGranted) + [ArmEffectsFor(ids[|ids| - 1], permissionGranted)]
  }

  /** The OS replaces a notification that has the tag of an earlier one; the
      tag names the event, so one alarm's notice never replaces another's. */
  lemma ArmTagInjective(a: string, b: string)
    requires ArmEffectsFor(a, true).os.value.tag == ArmEffectsFor(b, true).os.value.tag
    ensures a == b
  {
    var p := "event-now-";
    assert (p + a)[|p|..] == a;
    assert (p + b)[|p|..] == b;
  }

  class AlarmManager {
    /** `activeNotifications` */
    var active: map<string, AlarmState>
    /** Timers scheduled and not cleared. */
    var liveTimers: set<Handle>
    var nextHandle: Handle
    /** `notificationPermissionGranted` */
    var permissionGranted: bool
    /** Events whose persistent banner is on screen. */
    var banners: set<string>

    ghost predicate Valid()
      reads this
    {
      WellFormed(active, liveTimers, nextHandle)
    }

    /** Every live timer belongs to an entry: none is left dangling. */
    ghost predicate NoStrayTimers()
      reads this
    {
      liveTimers == Owned(active)
    }

    constructor (permissionGranted: bool)
      ensures Valid() && NoStrayTimers()
      ensures active == map[] && liveTimers == {} && banners == {}
      ensures this.permissionGranted == permissionGranted
    {
      active := map[];
      liveTimers := {};
      nextHandle := 0;
      this.permissionGranted := permissionGranted;
      banners := {};
    }

    /** `startEventNotification`: banner and OS notification, one tone now,
        a repeating timer and an expiry timer, then the entry. Arming an id
        that already has an entry replaces it and leaves its timers running. */
    method Start(e: Event, now: int) returns (fx: ArmEffects)
      requires Valid()
      modifies this
      ensures Valid()
      ensures active == old(active)[e.id := AlarmState(e.id, now, true, old(nextHandle), old(nextHandle) + 1)]
      ensures liveTimers == old(liveTimers) + {old(nextHandle), old(nextHandle) + 1}
      ensures banners == old(banners) + {e.id}
      ensures fx == ArmEffectsFor(e.id, permissionGranted)
      ensures permissionGranted == old(permissionGranted)
    {
      var audioInterval := nextHandle;
      var stopTimeout := nextHandle + 1;
      var entry := AlarmState(e.id, now, true, audioInterval, stopTimeout);
      var active' := active[e.id := entry];
      var live' := liveTimers + {audioInterval, stopTimeout};
      InsertKeepsWellFormed(active, liveTimers, nextHandle, e.id, now);
      fx := ArmEffectsFor(e.id, permissionGranted);
      banners := banners + {e.id};
      active, liveTimers, nextHandle := active', live', nextHandle + 2;
    }

    /** `stopEventNotification`: clears both timers of the entry and deletes
        it; an id without an entry leaves everything as it was. */
    method Stop(id: string)
      requires Valid()
      modifies this
      ensures Valid()
      ensures active == old(active) - {id}
      ensures id in old(active) ==>
        liveTimers == old(liveTimers) - {old(active)[id].repeatTimer, old(active)[id].expiryTimer}
      ensures id !in old(active) ==> liveTimers == old(liveTimers)
      ensures banners == old(banners)
      ensures nextHandle == old(nextHandle) && permissionGranted == old(permissionGranted)
      ensures old(NoStrayTimers()) ==> NoStrayTimers()
    {
      if id in active {
        var n := active[id];
        liveTimers := liveTimers - {n.repeatTimer, n.expiryTimer};
        active := active - {id};
        RemoveKeepsWellFormed(old(active), old(liveTimers), nextHandle, id);
        OwnedAfterRemove(old(active), id);
      }
    }

    /** The "event is now" effect: each event that passes the guard, judged
        against the map as it was when the effect began, is armed. */
    method CheckDue(events: seq<Event>, now: int) returns (armed: seq<string>, fx: seq<ArmEffects>)
      requires Valid()
      modifies this
      ensures Valid()
      ensures armed == ArmedIds(events, now, old(active))
      ensures |fx| == |armed| && forall k :: 0 <= k < |armed| ==> fx[k] == ArmEffectsFor(armed[k], permissionGranted)
      ensures permissionGranted == old(permissionGranted)
      ensures forall id :: id in active <==> id in old(active) || id in armed
      ensures forall id :: id in old(active) ==> active[id] == old(active)[id]
      ensures forall id :: id in armed ==> active[id].startTime == now && active[id].isActive
      ensures forall id :: id in banners <==> id in old(banners) || id in armed
      ensures UniqueIds(events) && old(NoStrayTimers()) ==> NoStrayTimers()
    {
      var m, live, n, shown;
      m, live, n, shown, armed, fx := ArmDue(events, now, active, liveTimers, nextHandle, banners, permissionGranted);
      active, liveTimers, nextHandle, banners := m, live, n, shown;
    }

    /** The interval callback: a tone while under 120 s since arming,
        otherwise the alarm is stopped. It fires only while its timer is
        live, so while the entry exists. */
    method RepeatFires(id: string, now: int) returns (tone: bool)
      requires Valid() && id in active
      modifies this
      ensures Valid()
      ensures tone <==> RepeatActionAt(now - old(active)[id].startTime) == PlayTone
      ensures tone ==> active == old(active) && liveTimers == old(liveTimers)
      ensures !tone ==> active == old(active) - {id}
      ensures banners == old(banners)
      ensures old(NoStrayTimers()) ==> NoStrayTimers()
    {
      var elapsed := now - active[id].startTime;
      if elapsed >= ALARM_MS {
        Stop(id);
        return false;
      }
      tone := true;
    }

    /** The expiry callback: the timeout is live while its entry exists and
        fires once 120 s have passed since arming; it stops the alarm. The
        banner is not dismissed by it. */
    method TimeoutFires(id: string, now: int)
      requires Valid() && id in active && now - active[id].startTime >= ALARM_MS
      modifies this
      ensures Valid()
      ensures active == old(active) - {id}
      ensures liveTimers == old(liveTimers) - {old(active)[id].repeatTimer, old(active)[id].expiryTimer}
      ensures nextHandle == old(nextHandle) && permissionGranted == old(permissionGranted)
      ensures old(NoStrayTimers()) ==> NoStrayTimers()
      ensures banners == old(banners)
    {
      Stop(id);
    }

    /** The event loop runs every expiry callback due by `now`, each once, in
        the order `due` lists them: afterwards no alarm is 120 s old, and
        every younger one is kept as it was. */
    method FireDueTimeouts(now: int, due: seq<string>)
      requires Valid()
      requires forall k, l :: 0 <= k < l < |due| ==> due[k] != due[l]
      requires forall id :: id in due <==> id in active && now - active[id].startTime >= ALARM_MS
      modifies this
      ensures Valid()
      ensures active == Expire(old(active), now)
      ensures banners == old(banners) && permissionGranted == old(permissionGranted)
      ensures old(NoStrayTimers()) ==> NoStrayTimers()
    {
      ghost var m0 := active;
      ghost var stray := NoStrayTimers();
      TimeoutsExpire(m0, now, due);
      var i := 0;
      while i < |due|
        invariant 0 <= i <= |due|
        invariant Valid()
        invariant RemoveAll(active, due[i..]) == Expire(m0, now)
        invariant forall k :: i <= k < |due| ==> due[k] in active && active[due[k]] == m0[due[k]]
        invariant banners == old(banners) && permissionGranted == old(permissionGranted)
        invariant stray ==> NoStrayTimers()
      {
        TimeoutFires(due[i], now);
        assert due[i..][1..] == due[i + 1..];
        i := i + 1;
      }
    }

    /** Clicking the OS notification stops the alarm. */
    method OsNotificationClicked(id: string)
      requires Valid()
      modifies this
      ensures Valid()
      ensures active == old(active) - {id}
      ensures id in old(active) ==>
        liveTimers == old(liveTimers) - {old(active)[id].repeatTimer, old(active)[id].expiryTimer}
      ensures id !in old(active) ==> liveTimers == old(liveTimers)
      ensures nextHandle == old(nextHandle) && permissionGranted == old(permissionGranted)
      ensures old(NoStrayTimers()) ==> NoStrayTimers()
      ensures banners == old(banners)
    {
      Stop(id);
    }

    /** The banner's STOP button stops the alarm and dismisses the banner. */
    method StopButtonClicked(id: string)
      requires Valid()
      modifies this
      ensures Valid()
      ensures active == old(active) - {id}
      ensures id in old(active) ==>
        liveTimers == old(liveTimers) - {old(active)[id].repeatTimer, old(active)[id].expiryTimer}
      ensures id !in old(active) ==> liveTimers == old(liveTimers)
      ensures nextHandle == old(nextHandle) && permissionGranted == old(permissionGranted)
      ensures old(NoStrayTimers()) ==> NoStrayTimers()
      ensures banners == old(banners) - {id}
    {
      Stop(id);
      banners := banners - {id};
    }

    /** The banner's MINIMIZE button only dismisses the banner; the alarm
        keeps running. */
    method MinimizeClicked(id: string)
      requires Valid()
      modifies this
      ensures Valid()
      ensures active == old(active) && liveTimers == old(liveTimers)
      ensures nextHandle == old(nextHandle) && permissionGranted == old(permissionGranted)
      ensures banners == old(banners) - {id}
      ensures old(NoStrayTimers()) ==> NoStrayTimers()
    {
      banners := banners - {id};
    }
  }

  /** The arming loop's progress: entries are the snapshot's plus the armed
      ids, the snapshot's entries untouched, each armed entry started now,
      and a banner for each armed id. */
  ghost predicate ArmProgress(active: map<string, AlarmState>, banners: set<string>,
                        snapshot: map<string, AlarmState>, shown: set<string>,
                        armed: seq<string>, now: int)
  {
    && (forall id :: id in active <==> id in snapshot || id in armed)
    && (forall id :: id in snapshot ==> id in active && active[id] == snapshot[id])
    && (forall id :: id in armed ==> id in active && active[id].startTime == now && active[id].isActive)
    && (forall id :: id in banners <==> id in shown || id in armed)
  }

  lemma ArmStep(active: map<string, AlarmState>, banners: set<string>,
                snapshot: map<string, AlarmState>, shown: set<string>,
                armed: seq<string>, now: int, id: string, st: AlarmState)
    requires ArmProgress(active, banners, snapshot, shown, armed, now)
    requires id !in snapshot && st.startTime == now && st.isActive
    ensures ArmProgress(active[id := st], banners + {id}, snapshot, shown, armed + [id], now)
  {
  }

  /** The arming loop of the "event is now" effect, on the values of the
      manager's fields: each event that passes the guard against `snapshot`
      gets an entry with two fresh timers and a banner, and sends out its
      tone and, with permission, its OS notice (`fx`, in arming order). React
      applies the queued map updates after the effect, so the result is
      committed at once. */
  method ArmDue(events: seq<Event>, now: int, snapshot: map<string, AlarmState>,
                live0: set<Handle>, n0: Handle, shown0: set<string>, permissionGranted: bool)
    returns (m: map<string, AlarmState>, live: set<Handle>, n: Handle, shown: set<string>, armed: seq<string>,
             fx: seq<ArmEffects>)
    requires WellFormed(snapshot, live0, n0)
    ensures WellFormed(m, live, n)
    ensures armed == ArmedIds(events, now, snapshot)
    ensures |fx| == |armed| && forall k :: 0 <= k < |armed| ==> fx[k] == ArmEffectsFor(armed[k], permissionGranted)
    ensures forall id :: id in m <==> id in snapshot || id in armed
    ensures forall id :: id in snapshot ==> m[id] == snapshot[id]
    ensures forall id :: id in armed ==> m[id].startTime == now && m[id].isActive
    ensures forall id :: id in shown <==> id in shown0 || id in armed
    ensures UniqueIds(events) && live0 == Owned(snapshot) ==> live == Owned(m)
  {
    ghost var tracked := UniqueIds(events) && live0 == Owned(snapshot);
    m, live, n, shown := snapshot, live0, n0, shown0;
    armed := [];
    var i := 0;
    while i < |events|
      invariant CheckProgress(events, i, now, snapshot, shown0, tracked, m, live, n, shown, armed)
      decreases |events| - i
    {
      var e := events[i];
      if ShouldArm(e, now, snapshot) {
        ArmedStep(events, i, now, snapshot, shown0, tracked, m, live, n, shown, armed);
        m, live, n, shown := m[e.id := AlarmState(e.id, now, true, n, n + 1)], live + {n, n + 1}, n + 2, shown + {e.id};
        armed := armed + [e.id];
      } else {
        SkippedStep(events, i, now, snapshot, shown0, tracked, m, live, n, shown, armed);
      }
      i := i + 1;
    }
    CheckDone(events, now, snapshot, shown0, tracked, m, live, n, shown, armed);
    fx := EffectsOf(armed, permissionGranted);
  }

  /** What holds once the arming loop has looked at the first `i` events. */
  ghost predicate CheckProgress(events: seq<Event>, i: int, now: int,
                                snapshot: map<string, AlarmState>, shown: set<string>, tracked: bool,
                                active: map<string, AlarmState>, live: set<Handle>, n: Handle,
                                banners: set<string>, armed: seq<string>)
  {
    && 0 <= i <= |events|
    && WellFormed(active, live, n)
    && armed == ArmedIds(events[..i], now, snapshot)
    && ArmProgress(active, banners, snapshot, shown, armed, now)
    && (UniqueIds(events) ==> forall k :: i <= k < |events| ==> events[k].id !in armed)
    && (tracked ==> UniqueIds(events) && live == Owned(active))
  }

  /** An iteration that arms its event keeps the loop's progress predicate. */
  lemma ArmedStep(events: seq<Event>, i: int, now: int,
                  snapshot: map<string, AlarmState>, shown: set<string>, tracked: bool,
                  active: map<string, AlarmState>, live: set<Handle>, n: Handle,
                  banners: set<string>, armed: seq<string>)
    requires CheckProgress(events, i, now, snapshot, shown, tracked, active, live, n, banners, armed)
    requires i < |events| && ShouldArm(events[i], now, snapshot)
    ensures CheckProgress(events, i + 1, now, snapshot, shown, tracked,
                          active[events[i].id := AlarmState(events[i].id, now, true, n, n + 1)],
                          live + {n, n + 1}, n + 2, banners + {events[i].id}, armed + [events[i].id])
  {
    var e := events[i];
    assert events[..i + 1] == events[..i] + [e];
    var entry := AlarmState(e.id, now, true, n, n + 1);
    InsertKeepsWellFormed(active, live, n, e.id, now);
    ArmStep(active, banners, snapshot, shown, armed, now, e.id, entry);
    if tracked {
      OwnedAfterInsert(active, e.id, entry);
    }
  }

  /** An iteration that skips its event keeps it too. */
  lemma SkippedStep(events: seq<Event>, i: int, now: int,
                    snapshot: map<string, AlarmState>, shown: set<string>, tracked: bool,
                    active: map<string, AlarmState>, live: set<Handle>, n: Handle,
                    banners: set<string>, armed: seq<string>)
    requires CheckProgress(events, i, now, snapshot, shown, tracked, active, live, n, banners, armed)
    requires i < |events| && !ShouldArm(events[i], now, snapshot)
    ensures CheckProgress(events, i + 1, now, snapshot, shown, tracked, active, live, n, banners, armed)
  {
    assert events[..i + 1] == events[..i] + [events[i]];
  }

  /** Once every event is looked at, the progress predicate gives the
      loop's result. */
  lemma CheckDone(events: seq<Event>, now: int,
                  snapshot: map<string, AlarmState>, shown0: set<string>, tracked: bool,
                  m: map<string, AlarmState>, live: set<Handle>, n: Handle,
                  shown: set<string>, armed: seq<string>)
    requires CheckProgress(events, |events|, now, snapshot, shown0, tracked, m, live, n, shown, armed)
    ensures WellFormed(m, live, n)
    ensures armed == ArmedIds(events, now, snapshot)
    ensures forall id :: id in m <==> id in snapshot || id in armed
    ensures forall id :: id in snapshot ==> m[id] == snapshot[id]
    ensures forall id :: id in armed ==> m[id].startTime == now && m[id].isActive
    ensures forall id :: id in shown <==> id in shown0 || id in armed
    ensures tracked ==> live == Owned(m)
  {
    assert events[..|events|] == events;
  }

  predicate Disjoint(m: map<string, AlarmState>) {
    forall a, b :: a in m && b in m && a != b ==>
      && m[a].repeatTimer != m[b].repeatTimer && m[a].repeatTimer != m[b].expiryTimer
      && m[a].expiryTimer != m[b].repeatTimer && m[a].expiryTimer != m[b].expiryTimer
  }

  /** The manager's invariant on values: entries are keyed by their event,
      own two distinct live timers, no timer is shared, and every handle
      was issued before `nextHandle`. */
  predicate WellFormed(m: map<string, AlarmState>, live: set<Handle>, nextHandle: Handle) {
    && (forall id :: id in m ==>
          && m[id].eventId == id && m[id].isActive
          && m[id].repeatTimer != m[id].expiryTimer
          && m[id].repeatTimer in live && m[id].expiryTimer in live)
    && Disjoint(m)
    && (forall h :: h in live ==> h < nextHandle)
  }

  lemma InsertKeepsWellFormed(m: map<string, AlarmState>, live: set<Handle>, n: Handle, id: string, now: int)
    requires WellFormed(m, live, n)
    ensures WellFormed(m[id := AlarmState(id, now, true, n, n + 1)], live + {n, n + 1}, n + 2)
  {
    var s := AlarmState(id, now, true, n, n + 1);
    var m' := m[id := s];
    forall a, b | a in m' && b in m' && a != b
      ensures m'[a].repeatTimer != m'[b].repeatTimer && m'[a].repeatTimer != m'[b].expiryTimer
      ensures m'[a].expiryTimer != m'[b].repeatTimer && m'[a].expiryTimer != m'[b].expiryTimer
    {
      if a != id && b != id {
        assert m'[a] == m[a] && m'[b] == m[b];
      } else if a == id {
        assert m'[b] == m[b] && m[b].repeatTimer in live && m[b].expiryTimer in live;
      } else {
        assert m'[a] == m[a] && m[a].repeatTimer in live && m[a].expiryTimer in live;
      }
    }
  }

  lemma RemoveKeepsWellFormed(m: map<string, AlarmState>, live: set<Handle>, n: Handle, id: string)
    requires WellFormed(m, live, n) && id in m
    ensures WellFormed(m - {id}, live - {m[id].repeatTimer, m[id].expiryTimer}, n)
  {
    var m' := m - {id};
    forall k | k in m'
      ensures m'[k].repeatTimer !in {m[id].repeatTimer, m[id].expiryTimer}
      ensures m'[k].expiryTimer !in {m[id].repeatTimer, m[id].expiryTimer}
    {
      assert k != id && m'[k] == m[k];
    }
  }

  function RepeatTimers(m: map<string, AlarmState>): set<Handle> {
    set id | id in m :: m[id].repeatTimer
  }

  function ExpiryTimers(m: map<string, AlarmState>): set<Handle> {
    set id | id in m :: m[id].expiryTimer
  }

  /** The timers that entries of the map own. */
  function Owned(m: map<string, AlarmState>): set<Handle> {
    RepeatTimers(m) + ExpiryTimers(m)
  }

  lemma OwnedAfterInsert(m: map<string, AlarmState>, id: string, s: AlarmState)
    requires id !in m
    ensures Owned(m[id := s]) == Owned(m) + {s.repeatTimer, s.expiryTimer}
  {
    var m' := m[id := s];
    forall h | h in RepeatTimers(m') ensures h in RepeatTimers(m) + {s.repeatTimer} {
      var k :| k in m' && m'[k].repeatTimer == h;
      if k != id { assert k in m && m[k].repeatTimer == h; }
    }
    forall h | h in RepeatTimers(m) ensures h in RepeatTimers(m') {
      var k :| k in m && m[k].repeatTimer == h;
      assert k in m' && m'[k].repeatTimer == h;
    }
    assert id in m' && m'[id] == s;
    assert RepeatTimers(m') == RepeatTimers(m) + {s.repeatTimer};
    forall h | h in ExpiryTimers(m') ensures h in ExpiryTimers(m) + {s.expiryTimer} {
      var k :| k in m' && m'[k].expiryTimer == h;
      if k != id { assert k in m && m[k].expiryTimer == h; }
    }
    forall h | h in ExpiryTimers(m) ensures h in ExpiryTimers(m') {
      var k :| k in m && m[k].expiryTimer == h;
      assert k in m' && m'[k].expiryTimer == h;
    }
    assert ExpiryTimers(m') == ExpiryTimers(m) + {s.expiryTimer};
  }

  lemma OwnedAfterRemove(m: map<string, AlarmState>, id: string)
    requires id in m && Disjoint(m)
    requires m[id].repeatTimer != m[id].expiryTimer
    ensures Owned(m - {id}) == Owned(m) - {m[id].repeatTimer, m[id].expiryTimer}
  {
    var m' := m - {id};
    var gone := {m[id].repeatTimer, m[id].expiryTimer};
    forall h | h in Owned(m') ensures h in Owned(m) - gone {
      var k :| k in m' && (m'[k].repeatTimer == h || m'[k].expiryTimer == h);
      assert k in m && m[k] == m'[k] && k != id;
    }
    forall h | h in Owned(m) - gone ensures h in Owned(m') {
      var k :| k in m && (m[k].repeatTimer == h || m[k].expiryTimer == h);
      assert k != id && k in m' && m'[k] == m[k];
    }
  }
}
