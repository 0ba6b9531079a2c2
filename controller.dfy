/** The running controller: the `state` dictionary it mutates in place, the
    module-global pump, and the step that waters the plants. */
module Controller {
  import opened Options
  import opened Clock
  import opened Watering

  /** What `load_state` finds on disk: no file, a file `json.load` rejects, or a
      stored `last_watered` value. */
  datatype StoredState = Missing | Unreadable | Stored(lastWatered: Option<string>)

  /** `load_state`: the stored value, or the default `{"last_watered": None}`
      when the file is absent or cannot be read. */
  function LoadState(stored: StoredState): (lastWatered: Option<string>)
  {
    match stored
    case Stored(v) => v
    case _ => None
  }

  /** Loading what the watering step saved last gives back the state it left
      in memory, and loading before anything was saved gives the default. */
  lemma ReloadAfterWatering(stored: StoredState, entries: seq<Entry>, now: TimeOfDay, pumpReady: bool)
    ensures var r := Water(LoadState(stored), false, entries, now, pumpReady);
      LoadState(Stored(LastSaved(r.events, LoadState(stored)))) == r.lastWatered
    ensures var r := Water(LoadState(stored), false, entries, now, pumpReady);
      stored.Missing? || stored.Unreadable? ==>
        && LoadState(stored) == None
        && (r.lastWatered == None || exists j :: 0 <= j < |entries| && r.lastWatered == Some(entries[j].startTime))
  {
    SavedMatchesState(LoadState(stored), false, entries, now, pumpReady);
    LastWateredFromSchedule(LoadState(stored), false, entries, now, pumpReady);
  }

  class WateringSystem {
    /** `state["last_watered"]`. */
    var lastWatered: Option<string>
    /** Whether `initialize_pump` managed to set the global `pump`. */
    const pumpReady: bool
    /** Whether the relay is switched on. */
    var pumpOn: bool
    /** Everything the controller has done to the cameras, the pump and the state file. */
    var trace: seq<Event>

    /** Start-up: the state as `load_state` returns it, and the pump
        (`OutputDevice`'s initial value is off). */
    constructor (stored: StoredState, pumpReady: bool)
      ensures lastWatered == LoadState(stored) && this.pumpReady == pumpReady
      ensures !pumpOn && trace == []
    {
      lastWatered := LoadState(stored);
      this.pumpReady := pumpReady;
      pumpOn := false;
      trace := [];
    }

    /** `capture_image` when it returns, with a path or with `None` after a
        failed `rpicam-jpeg` run: either way the watering goes on. The
        exceptions it lets escape are not part of this model. */
    method CaptureImage(imageLabel: string)
      modifies this
      ensures trace == old(trace) + [Capture(imageLabel)]
      ensures lastWatered == old(lastWatered) && pumpOn == old(pumpOn)
    {
      trace := trace + [Capture(imageLabel)];
    }

    /** `pump.on()`, which raises when the pump was never initialised. */
    method SwitchPumpOn() returns (failure: Option<Failure>)
      modifies this
      ensures failure == (if pumpReady then None else Some(PumpMissing))
      ensures pumpOn == (pumpReady || old(pumpOn))
      ensures trace == old(trace) + (if pumpReady then [PumpOn] else [])
      ensures lastWatered == old(lastWatered)
    {
      if !pumpReady {
        return Some(PumpMissing);
      }
      pumpOn := true;
      trace := trace + [PumpOn];
      failure := None;
    }

    /** `pump.off()`. */
    method SwitchPumpOff()
      requires pumpReady
      modifies this
      ensures !pumpOn && trace == old(trace) + [PumpOff]
      ensures lastWatered == old(lastWatered)
    {
      pumpOn := false;
      trace := trace + [PumpOff];
    }

    /** `time.sleep(seconds)`, which raises on a negative length. */
    method Wait(seconds: real) returns (failure: Option<Failure>)
      modifies this
      ensures failure == (if seconds < 0.0 then Some(NegativeSleep) else None)
      ensures trace == old(trace) + (if seconds < 0.0 then [] else [Sleep(seconds)])
      ensures lastWatered == old(lastWatered) && pumpOn == old(pumpOn)
    {
      if seconds < 0.0 {
        return Some(NegativeSleep);
      }
      trace := trace + [Sleep(seconds)];
      failure := None;
    }

    /** `save_state(state)`: the state file now holds the current value. */
    method SaveState()
      modifies this
      ensures trace == old(trace) + [Save(lastWatered)]
      ensures lastWatered == old(lastWatered) && pumpOn == old(pumpOn)
    {
      trace := trace + [Save(lastWatered)];
    }

    /** The body of the loop in `water_plants` for a due entry: "before"
        image, pump on, half the duration, "halfway" image, the other half,
        pump off, "after" image, then `last_watered` and the state file. */
    method WaterEntry(e: Entry, ghost r: Run, ghost base: seq<Event>) returns (failure: Option<Failure>)
      requires r.failure.None? && lastWatered == r.lastWatered && pumpOn == r.pumpOn && trace == base + r.events
      modifies this
      ensures var r' := Fire(r, e, pumpReady);
        && lastWatered == r'.lastWatered
        && pumpOn == r'.pumpOn
        && trace == base + r'.events
        && failure == r'.failure
    {
      ghost var t := base + r.events;
      CaptureImage(BEFORE);
      failure := SwitchPumpOn();
      if failure.Some? {
        return;
      }
      failure := Wait(e.duration / 2.0);
      if failure.Some? {
        return;
      }
      CaptureImage(HALFWAY);
      failure := Wait(e.duration / 2.0);
      SwitchPumpOff();
      CaptureImage(AFTER);
      lastWatered := Some(e.startTime);
      SaveState();
      assert trace == t + Cycle(e);
    }

    /** `water_plants`: every entry in order, watering each one that is due,
        until the end of the schedule or the first exception. */
    method WaterPlants(entries: seq<Entry>, now: TimeOfDay) returns (failure: Option<Failure>)
      modifies this
      ensures var r := Water(old(lastWatered), old(pumpOn), entries, now, pumpReady);
        && lastWatered == r.lastWatered
        && pumpOn == r.pumpOn
        && trace == old(trace) + r.events
        && failure == r.failure
    {
      ghost var last0, pump0, trace0 := lastWatered, pumpOn, trace;
      failure := None;
      var i := 0;
      while i < |entries|
        invariant 0 <= i <= |entries|
        invariant var r := Water(last0, pump0, entries[..i], now, pumpReady);
          && r.failure.None?
          && lastWatered == r.lastWatered
          && pumpOn == r.pumpOn
          && trace == trace0 + r.events
        invariant failure.None?
      {
        var e := entries[i];
        ghost var r := Water(last0, pump0, entries[..i], now, pumpReady);
        WaterStep(last0, pump0, entries, i, now, pumpReady);
        if AtOrAfter(now, e.start) && lastWatered != Some(e.startTime) {
          assert Due(e, r.lastWatered, now);
          failure := WaterEntry(e, r, trace0);
          assert Water(last0, pump0, entries[..i + 1], now, pumpReady) == Fire(r, e, pumpReady);
          if failure.Some? {
            FailureSticks(last0, pump0, entries, i + 1, now, pumpReady);
            return;
          }
        } else {
          assert Water(last0, pump0, entries[..i + 1], now, pumpReady) == r;
        }
        i := i + 1;
      }
      assert entries[..i] == entries;
    }

    /** Shutdown on `KeyboardInterrupt`: the pump, if there is one, is switched off. */
    method Shutdown()
      modifies this
      ensures pumpReady ==> !pumpOn && trace == old(trace) + [PumpOff]
      ensures !pumpReady ==> pumpOn == old(pumpOn) && trace == old(trace)
      ensures lastWatered == old(lastWatered)
    {
      if pumpReady {
        SwitchPumpOff();
      }
    }
  }
}
