/** The watering step of the controller: which schedule entries fire on one call,
    what the pump, the cameras and the state file see, and what `last_watered`
    holds afterwards. `Water` is the specification that the class in
    `Controller` is proved against; `LastPassed` and `Fired` describe the same
    outcome without threading the state through the entries. */
module Watering {
  import opened Options
  import opened Clock

  /** One entry of `watering_schedule`: its raw `start_time` string (used in the
      equality test against `last_watered`), the time `strptime` parsed from it
      (used in the ordering test) and its `duration` in seconds. */
  datatype Entry = Entry(startTime: string, start: TimeOfDay, duration: real)

  const BEFORE := "before_watering"
  const HALFWAY := "halfway_watering"
  const AFTER := "after_watering"

  /** What the watering step does to the outside world, in order. */
  datatype Event =
    | Capture(imageLabel: string)             // capture_image(image_directory, label)
    | PumpOn                               // pump.on()
    | PumpOff                              // pump.off()
    | Sleep(seconds: real)                 // time.sleep(seconds)
    | Save(lastWatered: Option<string>)    // save_state(state), with the state it writes

  /** The exceptions that end a call early: `pump.on()` on a pump that was never
      initialised (AttributeError), and `time.sleep` of a negative length (ValueError). */
  datatype Failure = PumpMissing | NegativeSleep

  /** The state after some prefix of the schedule has been looked at. */
  datatype Run = Run(lastWatered: Option<string>, pumpOn: bool, events: seq<Event>, failure: Option<Failure>)

  /** The due test of the loop: the time of day has reached the parsed start,
      and the single stored `last_watered` is not this entry's raw string. */
  predicate Due(e: Entry, lastWatered: Option<string>, now: TimeOfDay)
  {
    AtOrAfter(now, e.start) && lastWatered != Some(e.startTime)
  }

  /** The events of one completed watering of `e`: it starts with the "before"
      image, the two sleeps add up to the configured duration, and the save of
      the entry's string comes last. */
  function Cycle(e: Entry): (c: seq<Event>)
    ensures |c| == 8 && c[0] == Capture(BEFORE) && c[|c| - 1] == Save(Some(e.startTime))
    ensures c[2].Sleep? && c[4].Sleep? && c[2].seconds + c[4].seconds == e.duration
  {
    [Capture(BEFORE), PumpOn, Sleep(e.duration / 2.0), Capture(HALFWAY),
     Sleep(e.duration / 2.0), PumpOff, Capture(AFTER), Save(Some(e.startTime))]
  }

  /** Waters `e` from run `r`, stopping where `water_plants` raises. The events
      so far are kept and at least the "before" image is added; the watering
      completes exactly when the pump exists and the duration is not negative,
      and only then is `last_watered` the entry's string with the pump off. */
  function Fire(r: Run, e: Entry, pumpReady: bool): (r': Run)
    ensures |r'.events| > |r.events| && r'.events[..|r.events|] == r.events
    ensures r'.events[|r.events|] == Capture(BEFORE)
    ensures r.failure.None? ==> (r'.failure.None? <==> pumpReady && e.duration >= 0.0)
    ensures r'.failure.None? ==> r'.lastWatered == Some(e.startTime) && !r'.pumpOn
    ensures r.failure.None? && r'.failure.Some? ==> r'.lastWatered == r.lastWatered
  {
    if !pumpReady then
      r.(events := r.events + [Capture(BEFORE)], failure := Some(PumpMissing))
    else if e.duration < 0.0 then
      r.(pumpOn := true, events := r.events + [Capture(BEFORE), PumpOn], failure := Some(NegativeSleep))
    else
      r.(lastWatered := Some(e.startTime), pumpOn := false, events := r.events + Cycle(e))
  }

  /** One call of the watering step over `entries`, checked in configuration
      order, from stored value `lastWatered` and pump state `pumpOn`. */
  function Water(lastWatered: Option<string>, pumpOn: bool, entries: seq<Entry>, now: TimeOfDay, pumpReady: bool): Run
    decreases |entries|
  {
    if entries == [] then Run(lastWatered, pumpOn, [], None)
    else
      var r := Water(lastWatered, pumpOn, entries[..|entries| - 1], now, pumpReady);
      var e := entries[|entries| - 1];
      if r.failure.None? && Due(e, r.lastWatered, now) then Fire(r, e, pumpReady) else r
  }

  // ---------------------------------------------------------------------------
  // A reference description that does not thread the state through the loop.

  /** The raw start string of the last entry whose start time has passed, or
      `lastWatered` when no start time has passed. */
  function LastPassed(lastWatered: Option<string>, entries: seq<Entry>, now: TimeOfDay): Option<string>
    decreases |entries|
  {
    if entries == [] then lastWatered
    else if AtOrAfter(now, entries[|entries| - 1].start) then Some(entries[|entries| - 1].startTime)
    else LastPassed(lastWatered, entries[..|entries| - 1], now)
  }

  /** Entry `entries[k]` fires when its start has passed and the last passed
      entry before it (or the stored value) has a different string. */
  predicate FiresAt(lastWatered: Option<string>, entries: seq<Entry>, now: TimeOfDay, k: nat)
    requires k < |entries|
  {
    AtOrAfter(now, entries[k].start) && LastPassed(lastWatered, entries[..k], now) != Some(entries[k].startTime)
  }

  /** The entries that fire, in configuration order. */
  function Fired(lastWatered: Option<string>, entries: seq<Entry>, now: TimeOfDay): seq<Entry>
    decreases |entries|
  {
    if entries == [] then []
    else
      var k := |entries| - 1;
      Fired(lastWatered, entries[..k], now) + (if FiresAt(lastWatered, entries, now, k) then [entries[k]] else [])
  }

  /** The events of watering each of `es` in turn. */
  function Cycles(es: seq<Entry>): seq<Event>
    decreases |es|
  {
    if es == [] then [] else Cycles(es[..|es| - 1]) + Cycle(es[|es| - 1])
  }

  /** The entries whose start time has passed, in configuration order. */
  function Passed(entries: seq<Entry>, now: TimeOfDay): seq<Entry>
    decreases |entries|
  {
    if entries == [] then []
    else
      var k := |entries| - 1;
      Passed(entries[..k], now) + (if AtOrAfter(now, entries[k].start) then [entries[k]] else [])
  }

  /** The value of the last `Save` event, or `default` when nothing was saved:
      what `load_state` reads back after the call. */
  function LastSaved(events: seq<Event>, default: Option<string>): Option<string>
    decreases |events|
  {
    if events == [] then default
    else if events[|events| - 1].Save? then events[|events| - 1].lastWatered
    else LastSaved(events[..|events| - 1], default)
  }

  // ---------------------------------------------------------------------------
  // Lemmas about one call.

  /** Once a call has raised, the remaining entries are not looked at. */
  lemma {:induction false} FailureSticks(lastWatered: Option<string>, pumpOn: bool, entries: seq<Entry>, k: nat, now: TimeOfDay, pumpReady: bool)
    requires k <= |entries|
    requires Water(lastWatered, pumpOn, entries[..k], now, pumpReady).failure.Some?
    ensures Water(lastWatered, pumpOn, entries, now, pumpReady) == Water(lastWatered, pumpOn, entries[..k], now, pumpReady)
    decreases |entries|
  {
    if k < |entries| {
      var p := entries[..|entries| - 1];
      assert p[..k] == entries[..k];
      FailureSticks(lastWatered, pumpOn, p, k, now, pumpReady);
    } else {
      assert entries[..k] == entries;
    }
  }

  /** One more entry of the schedule: the call over `entries[..i + 1]` is the
      call over `entries[..i]` followed by watering `entries[i]` if it is due. */
  lemma WaterStep(lastWatered: Option<string>, pumpOn: bool, entries: seq<Entry>, i: nat, now: TimeOfDay, pumpReady: bool)
    requires i < |entries|
    ensures var r := Water(lastWatered, pumpOn, entries[..i], now, pumpReady);
      Water(lastWatered, pumpOn, entries[..i + 1], now, pumpReady)
        == if r.failure.None? && Due(entries[i], r.lastWatered, now) then Fire(r, entries[i], pumpReady) else r
  {
    assert entries[..i + 1][..i] == entries[..i];
  }

  /** The prefix of a call that did not raise did not raise either. */
  lemma PrefixSucceeds(lastWatered: Option<string>, pumpOn: bool, entries: seq<Entry>, now: TimeOfDay, pumpReady: bool)
    requires entries != []
    requires Water(lastWatered, pumpOn, entries, now, pumpReady).failure.None?
    ensures Water(lastWatered, pumpOn, entries[..|entries| - 1], now, pumpReady).failure.None?
  {
  }

  /** Without a failure, the call agrees with the reference description:
      `last_watered` ends as the string of the last entry whose start time has
      passed (or stays as it was), the events are the complete cycles of the
      fired entries in configuration order, and the pump is on only if it was
      on before and nothing fired. */
  lemma {:induction false} WaterMatchesReference(lastWatered: Option<string>, pumpOn: bool, entries: seq<Entry>, now: TimeOfDay, pumpReady: bool)
    requires Water(lastWatered, pumpOn, entries, now, pumpReady).failure.None?
    ensures Water(lastWatered, pumpOn, entries, now, pumpReady).lastWatered == LastPassed(lastWatered, entries, now)
    ensures Water(lastWatered, pumpOn, entries, now, pumpReady).events == Cycles(Fired(lastWatered, entries, now))
    ensures Water(lastWatered, pumpOn, entries, now, pumpReady).pumpOn == (pumpOn && Fired(lastWatered, entries, now) == [])
    decreases |entries|
  {
    if entries != [] {
      var k := |entries| - 1;
      var p := entries[..k];
      var e := entries[k];
      var r := Water(lastWatered, pumpOn, p, now, pumpReady);
      var w := Water(lastWatered, pumpOn, entries, now, pumpReady);
      assert w == if r.failure.None? && Due(e, r.lastWatered, now) then Fire(r, e, pumpReady) else r;
      PrefixSucceeds(lastWatered, pumpOn, entries, now, pumpReady);
      WaterMatchesReference(lastWatered, pumpOn, p, now, pumpReady);
      var fp := Fired(lastWatered, p, now);
      assert FiresAt(lastWatered, entries, now, k) == Due(e, r.lastWatered, now);
      if Due(e, r.lastWatered, now) {
        assert pumpReady && e.duration >= 0.0;
        assert w.lastWatered == Some(e.startTime) && w.events == r.events + Cycle(e);
        assert Fired(lastWatered, entries, now) == fp + [e];
        assert (fp + [e])[..|fp|] == fp;
        assert Cycles(fp + [e]) == Cycles(fp) + Cycle(e);
      } else {
        assert w == r;
        assert Fired(lastWatered, entries, now) == fp + [];
        assert fp + [] == fp;
      }
    }
  }

  /** `last_watered` after the call is the last value handed to `save_state`
      (or the stored value when nothing was saved), whether or not the call
      raised: reloading the state file gives back the state in memory. */
  lemma {:induction false} SavedMatchesState(lastWatered: Option<string>, pumpOn: bool, entries: seq<Entry>, now: TimeOfDay, pumpReady: bool)
    ensures LastSaved(Water(lastWatered, pumpOn, entries, now, pumpReady).events, lastWatered)
         == Water(lastWatered, pumpOn, entries, now, pumpReady).lastWatered
    decreases |entries|
  {
    if entries != [] {
      var k := |entries| - 1;
      var r := Water(lastWatered, pumpOn, entries[..k], now, pumpReady);
      SavedMatchesState(lastWatered, pumpOn, entries[..k], now, pumpReady);
      var e := entries[k];
      var w := Water(lastWatered, pumpOn, entries, now, pumpReady);
      if r.failure.None? && Due(e, r.lastWatered, now) {
        assert w == Fire(r, e, pumpReady);
        if !pumpReady {
          LastSavedSkips(r.events, [Capture(BEFORE)], lastWatered);
        } else if e.duration < 0.0 {
          LastSavedSkips(r.events, [Capture(BEFORE), PumpOn], lastWatered);
        } else {
          assert w.events[|w.events| - 1] == Save(Some(e.startTime));
        }
      } else {
        assert w == r;
      }
    }
  }

  /** Events without a save leave the last saved value as it was. */
  lemma {:induction false} LastSavedSkips(a: seq<Event>, b: seq<Event>, default: Option<string>)
    requires forall i :: 0 <= i < |b| ==> !b[i].Save?
    ensures LastSaved(a + b, default) == LastSaved(a, default)
    decreases |b|
  {
    if b == [] {
      assert a + b == a;
    } else {
      var ab := a + b;
      assert ab[|ab| - 1] == b[|b| - 1];
      assert ab[..|ab| - 1] == a + b[..|b| - 1];
      LastSavedSkips(a, b[..|b| - 1], default);
    }
  }

  /** A call that did nothing visible (no capture, no pump switching, no save)
      changed nothing: `last_watered` and the pump are as before and nothing
      was raised. */
  lemma {:induction false} QuietCallChangesNothing(lastWatered: Option<string>, pumpOn: bool, entries: seq<Entry>, now: TimeOfDay, pumpReady: bool)
    ensures var r := Water(lastWatered, pumpOn, entries, now, pumpReady);
      r.events == [] ==> r.lastWatered == lastWatered && r.pumpOn == pumpOn && r.failure.None?
    decreases |entries|
  {
    if entries != [] {
      QuietCallChangesNothing(lastWatered, pumpOn, entries[..|entries| - 1], now, pumpReady);
    }
  }

  /** The pump is left on by a call only if it was on already or a negative
      duration made `time.sleep` raise with the pump on; and a call that
      watered something and did not raise leaves it off. */
  lemma {:induction false} PumpOffOnReturn(lastWatered: Option<string>, pumpOn: bool, entries: seq<Entry>, now: TimeOfDay, pumpReady: bool)
    ensures var r := Water(lastWatered, pumpOn, entries, now, pumpReady);
      r.pumpOn ==> pumpOn || r.failure == Some(NegativeSleep)
    ensures var r := Water(lastWatered, pumpOn, entries, now, pumpReady);
      r.failure.None? && r.events != [] ==> !r.pumpOn
    decreases |entries|
  {
    if entries != [] {
      PumpOffOnReturn(lastWatered, pumpOn, entries[..|entries| - 1], now, pumpReady);
    }
  }

  /** When no entry is due against the stored value, the call changes nothing:
      same `last_watered`, pump untouched, no capture, no save. */
  lemma {:induction false} NothingDueNothingChanges(lastWatered: Option<string>, pumpOn: bool, entries: seq<Entry>, now: TimeOfDay, pumpReady: bool)
    requires forall k :: 0 <= k < |entries| ==> !Due(entries[k], lastWatered, now)
    ensures Water(lastWatered, pumpOn, entries, now, pumpReady) == Run(lastWatered, pumpOn, [], None)
    decreases |entries|
  {
    if entries != [] {
      var p := entries[..|entries| - 1];
      assert forall k :: 0 <= k < |p| ==> p[k] == entries[k];
      NothingDueNothingChanges(lastWatered, pumpOn, p, now, pumpReady);
    }
  }

  /** With a missing pump nothing is ever watered: the call raises exactly when
      some entry is due against the stored value, after one "before" capture,
      and `last_watered` and the pump are left alone. */
  lemma {:induction false} MissingPumpNeverWaters(lastWatered: Option<string>, pumpOn: bool, entries: seq<Entry>, now: TimeOfDay)
    ensures var r := Water(lastWatered, pumpOn, entries, now, false);
      && r.lastWatered == lastWatered && r.pumpOn == pumpOn
      && (r.failure == None || r.failure == Some(PumpMissing))
      && (r.failure == Some(PumpMissing) <==> exists k :: 0 <= k < |entries| && Due(entries[k], lastWatered, now))
      && (r.failure.None? ==> r.events == [])
      && (r.failure.Some? ==> r.events == [Capture(BEFORE)])
    decreases |entries|
  {
    if entries != [] {
      var k := |entries| - 1;
      var p := entries[..k];
      MissingPumpNeverWaters(lastWatered, pumpOn, p, now);
      assert forall j :: 0 <= j < |p| ==> p[j] == entries[j];
      if Water(lastWatered, pumpOn, p, now, false).failure.Some? {
        var j :| 0 <= j < |p| && Due(p[j], lastWatered, now);
        assert Due(entries[j], lastWatered, now);
      }
    }
  }

  /** Every save comes after the pump was switched off and the "after" image
      was taken: nothing is recorded for a watering that did not finish. */
  lemma {:induction false} SaveOnlyAfterPumpOff(lastWatered: Option<string>, pumpOn: bool, entries: seq<Entry>, now: TimeOfDay, pumpReady: bool)
    ensures SavesFollowPumpOff(Water(lastWatered, pumpOn, entries, now, pumpReady).events)
    decreases |entries|
  {
    if entries != [] {
      var k := |entries| - 1;
      var r := Water(lastWatered, pumpOn, entries[..k], now, pumpReady);
      SaveOnlyAfterPumpOff(lastWatered, pumpOn, entries[..k], now, pumpReady);
      var e := entries[k];
      if r.failure.None? && Due(e, r.lastWatered, now) {
        if !pumpReady {
          AppendKeepsSavesAfterPumpOff(r.events, [Capture(BEFORE)]);
        } else if e.duration < 0.0 {
          AppendKeepsSavesAfterPumpOff(r.events, [Capture(BEFORE), PumpOn]);
        } else {
          AppendKeepsSavesAfterPumpOff(r.events, Cycle(e));
        }
      }
    }
  }

  /** Each `Save` in `es` is preceded by `PumpOff` and the "after" capture. */
  predicate SavesFollowPumpOff(es: seq<Event>)
  {
    forall i :: 0 <= i < |es| && es[i].Save? ==> 2 <= i && es[i - 2] == PumpOff && es[i - 1] == Capture(AFTER)
  }

  lemma AppendKeepsSavesAfterPumpOff(a: seq<Event>, b: seq<Event>)
    requires SavesFollowPumpOff(a) && SavesFollowPumpOff(b)
    ensures SavesFollowPumpOff(a + b)
  {
    var es := a + b;
    forall i | 0 <= i < |es| && es[i].Save?
      ensures 2 <= i && es[i - 2] == PumpOff && es[i - 1] == Capture(AFTER)
    {
      if i < |a| {
        assert a[i].Save?;
      } else {
        assert b[i - |a|].Save?;
      }
    }
  }

  /** A call raises only if the pump is missing or some duration is negative. */
  lemma {:induction false} WellConfiguredNeverFails(lastWatered: Option<string>, pumpOn: bool, entries: seq<Entry>, now: TimeOfDay)
    requires forall k :: 0 <= k < |entries| ==> entries[k].duration >= 0.0
    ensures Water(lastWatered, pumpOn, entries, now, true).failure.None?
    decreases |entries|
  {
    if entries != [] {
      var p := entries[..|entries| - 1];
      assert forall k :: 0 <= k < |p| ==> p[k] == entries[k];
      WellConfiguredNeverFails(lastWatered, pumpOn, p, now);
    }
  }

  // ---------------------------------------------------------------------------
  // Lemmas about the reference description.

  /** Only entries whose start time has passed fire. */
  lemma {:induction false} FiredHavePassed(lastWatered: Option<string>, entries: seq<Entry>, now: TimeOfDay)
    ensures forall j :: 0 <= j < |Fired(lastWatered, entries, now)| ==> AtOrAfter(now, Fired(lastWatered, entries, now)[j].start)
    decreases |entries|
  {
    if entries != [] {
      FiredHavePassed(lastWatered, entries[..|entries| - 1], now);
    }
  }

  /** The first entry whose start has passed fires exactly when its raw string
      differs from the stored value: if that entry's string equals
      `last_watered`, it is not watered on this call, whatever the time. */
  lemma FirstPassedFiresIffDifferent(lastWatered: Option<string>, entries: seq<Entry>, now: TimeOfDay, k: nat)
    requires k < |entries| && AtOrAfter(now, entries[k].start)
    requires forall j :: 0 <= j < k ==> !AtOrAfter(now, entries[j].start)
    ensures FiresAt(lastWatered, entries, now, k) <==> lastWatered != Some(entries[k].startTime)
  {
    LastPassedNone(lastWatered, entries[..k], now);
  }

  /** With no passed start time in `entries`, the stored value is kept. */
  lemma {:induction false} LastPassedNone(lastWatered: Option<string>, entries: seq<Entry>, now: TimeOfDay)
    requires forall j :: 0 <= j < |entries| ==> !AtOrAfter(now, entries[j].start)
    ensures LastPassed(lastWatered, entries, now) == lastWatered
    decreases |entries|
  {
    if entries != [] {
      var p := entries[..|entries| - 1];
      assert forall j :: 0 <= j < |p| ==> p[j] == entries[j];
      LastPassedNone(lastWatered, p, now);
    }
  }

  /** Starting from `None`, the last passed string is `None` or some entry's string. */
  lemma {:induction false} LastPassedFromNone(entries: seq<Entry>, now: TimeOfDay)
    ensures LastPassed(None, entries, now) == None
         || exists j :: 0 <= j < |entries| && LastPassed(None, entries, now) == Some(entries[j].startTime)
    decreases |entries|
  {
    if entries != [] {
      var p := entries[..|entries| - 1];
      LastPassedFromNone(p, now);
      if LastPassed(None, entries, now) == LastPassed(None, p, now) && LastPassed(None, p, now) != None {
        var j :| 0 <= j < |p| && LastPassed(None, p, now) == Some(p[j].startTime);
        assert p[j] == entries[j];
      }
    }
  }

  /** No two entries share a raw start string. */
  predicate DistinctStarts(entries: seq<Entry>)
  {
    forall i, j :: 0 <= i < j < |entries| ==> entries[i].startTime != entries[j].startTime
  }

  /** From the default state `{"last_watered": None}` and with distinct start
      strings, every entry whose start time has passed fires within one call. */
  lemma {:induction false} FromDefaultAllPassedFire(entries: seq<Entry>, now: TimeOfDay)
    requires DistinctStarts(entries)
    ensures Fired(None, entries, now) == Passed(entries, now)
    decreases |entries|
  {
    if entries != [] {
      var k := |entries| - 1;
      var p := entries[..k];
      assert DistinctStarts(p) by {
        forall i, j | 0 <= i < j < |p| ensures p[i].startTime != p[j].startTime {
          assert p[i] == entries[i] && p[j] == entries[j];
        }
      }
      FromDefaultAllPassedFire(p, now);
      LastPassedFromNone(p, now);
      assert entries[..k] == p;
      if LastPassed(None, p, now) != None {
        var j :| 0 <= j < |p| && LastPassed(None, p, now) == Some(p[j].startTime);
        assert p[j] == entries[j];
        assert entries[j].startTime != entries[k].startTime;
      }
    }
  }

  /** The last passed string is the string of the last entry that fired, or
      the stored value when nothing fired: a passed entry that does not fire
      carries the string that is already stored. */
  lemma {:induction false} LastPassedIsLastFired(lastWatered: Option<string>, entries: seq<Entry>, now: TimeOfDay)
    ensures var f := Fired(lastWatered, entries, now);
      LastPassed(lastWatered, entries, now) == if f == [] then lastWatered else Some(f[|f| - 1].startTime)
    decreases |entries|
  {
    if entries != [] {
      var k := |entries| - 1;
      var p := entries[..k];
      var e := entries[k];
      LastPassedIsLastFired(lastWatered, p, now);
      var fp := Fired(lastWatered, p, now);
      if FiresAt(lastWatered, entries, now, k) {
        assert Fired(lastWatered, entries, now) == fp + [e];
      } else {
        assert Fired(lastWatered, entries, now) == fp + [];
        assert fp + [] == fp;
      }
    }
  }

  /** After a call that did not raise, `last_watered` is the `start_time` of
      the last entry watered, or the stored value when nothing was watered. */
  lemma LastWateredIsLastFired(lastWatered: Option<string>, pumpOn: bool, entries: seq<Entry>, now: TimeOfDay, pumpReady: bool)
    requires Water(lastWatered, pumpOn, entries, now, pumpReady).failure.None?
    ensures var f := Fired(lastWatered, entries, now);
      Water(lastWatered, pumpOn, entries, now, pumpReady).lastWatered
        == if f == [] then lastWatered else Some(f[|f| - 1].startTime)
  {
    WaterMatchesReference(lastWatered, pumpOn, entries, now, pumpReady);
    LastPassedIsLastFired(lastWatered, entries, now);
  }

  /** Whether or not the call raised, `last_watered` afterwards is the stored
      value or the `start_time` string of some entry of the schedule. */
  lemma {:induction false} LastWateredFromSchedule(lastWatered: Option<string>, pumpOn: bool, entries: seq<Entry>, now: TimeOfDay, pumpReady: bool)
    ensures var r := Water(lastWatered, pumpOn, entries, now, pumpReady);
      r.lastWatered == lastWatered || exists j :: 0 <= j < |entries| && r.lastWatered == Some(entries[j].startTime)
    decreases |entries|
  {
    if entries != [] {
      var k := |entries| - 1;
      var p := entries[..k];
      LastWateredFromSchedule(lastWatered, pumpOn, p, now, pumpReady);
      var r := Water(lastWatered, pumpOn, p, now, pumpReady);
      var w := Water(lastWatered, pumpOn, entries, now, pumpReady);
      if w.lastWatered != r.lastWatered {
        assert w.lastWatered == Some(entries[k].startTime);
      } else if r.lastWatered != lastWatered {
        var j :| 0 <= j < |p| && r.lastWatered == Some(p[j].startTime);
        assert p[j] == entries[j];
      }
    }
  }

  // ---------------------------------------------------------------------------
  // Consequences across calls.

  /** With a single entry, once it has been watered every later call with that
      state, at any time of day, does nothing. */
  lemma SingleEntryWateredOnce(e: Entry, lastWatered: Option<string>, pumpOn: bool, now: TimeOfDay, later: TimeOfDay, pumpReady: bool)
    requires Water(lastWatered, pumpOn, [e], now, pumpReady).failure.None?
    requires Water(lastWatered, pumpOn, [e], now, pumpReady).events != []
    ensures var r := Water(lastWatered, pumpOn, [e], now, pumpReady);
      && r.lastWatered == Some(e.startTime)
      && Water(r.lastWatered, r.pumpOn, [e], later, pumpReady) == Run(r.lastWatered, r.pumpOn, [], None)
  {
    assert [e][..0] == [];
  }

  /** Three daily entries, each call made at an entry's own start time, from
      the default state: the first two calls water one entry each, but the
      third waters all three, because the single stored string only
      remembers the second entry. With 07:00, 12:00 and 19:00 the 07:00 and
      12:00 entries are watered twice a day. */
  lemma ThreeEntriesRewaterOnThirdCall(a: Entry, b: Entry, c: Entry, t1: TimeOfDay, t2: TimeOfDay, t3: TimeOfDay)
    requires a.startTime != b.startTime && b.startTime != c.startTime && a.startTime != c.startTime
    requires a.duration >= 0.0 && b.duration >= 0.0 && c.duration >= 0.0
    requires AtOrAfter(t1, a.start) && !AtOrAfter(t1, b.start) && !AtOrAfter(t1, c.start)
    requires AtOrAfter(t2, a.start) && AtOrAfter(t2, b.start) && !AtOrAfter(t2, c.start)
    requires AtOrAfter(t3, a.start) && AtOrAfter(t3, b.start) && AtOrAfter(t3, c.start)
    ensures var r1 := Water(None, false, [a, b, c], t1, true);
      var r2 := Water(r1.lastWatered, r1.pumpOn, [a, b, c], t2, true);
      var r3 := Water(r2.lastWatered, r2.pumpOn, [a, b, c], t3, true);
      && r1.events == Cycle(a)
      && r2.events == Cycle(b)
      && r3.events == Cycle(a) + Cycle(b) + Cycle(c)
      && r3.lastWatered == Some(c.startTime)
  {
    var day := [a, b, c];
    assert day[..2] == [a, b] && [a, b][..1] == [a] && [a][..0] == [];
    CallAtFirst(a, b, c, t1);
    CallAtSecond(a, b, c, t2);
    CallAtThird(a, b, c, t3);
  }

  lemma CallAtFirst(a: Entry, b: Entry, c: Entry, t: TimeOfDay)
    requires a.duration >= 0.0
    requires AtOrAfter(t, a.start) && !AtOrAfter(t, b.start) && !AtOrAfter(t, c.start)
    ensures Water(None, false, [a, b, c], t, true) == Run(Some(a.startTime), false, Cycle(a), None)
  {
    var day := [a, b, c];
    var r1 := Run(Some(a.startTime), false, Cycle(a), None);
    assert day[..0] == [] && day[..3] == day;
    WaterStep(None, false, day, 0, t, true);
    assert Fire(Run(None, false, [], None), a, true) == r1;
    WaterStep(None, false, day, 1, t, true);
    WaterStep(None, false, day, 2, t, true);
  }

  lemma CallAtSecond(a: Entry, b: Entry, c: Entry, t: TimeOfDay)
    requires a.startTime != b.startTime && b.duration >= 0.0
    requires AtOrAfter(t, a.start) && AtOrAfter(t, b.start) && !AtOrAfter(t, c.start)
    ensures Water(Some(a.startTime), false, [a, b, c], t, true) == Run(Some(b.startTime), false, Cycle(b), None)
  {
    var day := [a, b, c];
    var r0 := Run(Some(a.startTime), false, [], None);
    var r2 := Run(Some(b.startTime), false, Cycle(b), None);
    assert day[..0] == [] && day[..3] == day;
    WaterStep(Some(a.startTime), false, day, 0, t, true);
    WaterStep(Some(a.startTime), false, day, 1, t, true);
    assert Fire(r0, b, true) == r2;
    WaterStep(Some(a.startTime), false, day, 2, t, true);
  }

  lemma CallAtThird(a: Entry, b: Entry, c: Entry, t: TimeOfDay)
    requires a.startTime != b.startTime && b.startTime != c.startTime && a.startTime != c.startTime
    requires a.duration >= 0.0 && b.duration >= 0.0 && c.duration >= 0.0
    requires AtOrAfter(t, a.start) && AtOrAfter(t, b.start) && AtOrAfter(t, c.start)
    ensures Water(Some(b.startTime), false, [a, b, c], t, true)
         == Run(Some(c.startTime), false, Cycle(a) + Cycle(b) + Cycle(c), None)
  {
    var day := [a, b, c];
    var r0 := Run(Some(b.startTime), false, [], None);
    var r1 := Run(Some(a.startTime), false, Cycle(a), None);
    var r2 := Run(Some(b.startTime), false, Cycle(a) + Cycle(b), None);
    var r3 := Run(Some(c.startTime), false, Cycle(a) + Cycle(b) + Cycle(c), None);
    assert day[..0] == [] && day[..3] == day;
    WaterStep(Some(b.startTime), false, day, 0, t, true);
    assert [] + Cycle(a) == Cycle(a);
    assert Fire(r0, a, true) == r1;
    WaterStep(Some(b.startTime), false, day, 1, t, true);
    assert Fire(r1, b, true) == r2;
    WaterStep(Some(b.startTime), false, day, 2, t, true);
    assert Fire(r2, c, true) == r3;
  }

  /** The scenario above with the times 07:00, 12:00 and 19:00. */
  lemma SevenNoonSevenExample()
    ensures var a := Entry("07:00", TimeOfDay(7, 0, 0), 30.0);
      var b := Entry("12:00", TimeOfDay(12, 0, 0), 30.0);
      var c := Entry("19:00", TimeOfDay(19, 0, 0), 30.0);
      var r2 := Water(Some("12:00"), false, [a, b, c], TimeOfDay(19, 0, 0), true);
      r2.events == Cycle(a) + Cycle(b) + Cycle(c)
  {
    var a := Entry("07:00", TimeOfDay(7, 0, 0), 30.0);
    var b := Entry("12:00", TimeOfDay(12, 0, 0), 30.0);
    var c := Entry("19:00", TimeOfDay(19, 0, 0), 30.0);
    assert "07:00"[0] != "12:00"[0] && "12:00"[1] != "19:00"[1] && "07:00"[0] != "19:00"[0];
    CallAtThird(a, b, c, TimeOfDay(19, 0, 0));
  }
}
