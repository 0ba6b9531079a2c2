# Plant watering controller — Dafny model

This project models the decision logic of a Raspberry Pi plant-watering
controller (`water.py`). The model covers four parts:

- **The watering step** (`water_plants`). It walks the configured
  `watering_schedule` in order. An entry fires when the time of day has
  reached its parsed `start_time` and the single stored
  `state["last_watered"]` differs from the entry's raw `start_time` string.
  A firing takes a "before" picture, switches the pump on, sleeps half the
  duration, takes a "halfway" picture, sleeps the other half, switches the
  pump off, takes an "after" picture, then overwrites `last_watered` with the
  entry's string and saves the state.
- **The stored state**: the `load_state` default `{"last_watered": None}` and
  what reloading the saved state gives back.
- **The daily e-mail's image selection**: `.jpg` files, stably sorted by
  modification time, then the Python slice `[-N:]` with `N` defaulting to 6.
  The e-mail is sent only if that selection is non-empty.
- **The capture file name** `label_YYYYMMDD_HHMMSS.jpg`.

The code keeps ONE global `last_watered` string. It has no per-entry
timestamps, no interval in days, no dates, and no catch-up call at start-up.
The model follows the code, not a per-entry design. The lemmas show what that
means:

- `Watering.WaterMatchesReference` and `Watering.LastWateredIsLastFired`:
  after a call that did not raise, `last_watered` is the string of the last
  entry whose time has passed, or unchanged when none has passed. That is also
  the string of the last entry watered (or unchanged when none was), because a
  passed entry that is not watered carries the string already stored.
- `Watering.ThreeEntriesRewaterOnThirdCall`: with three daily entries (say
  07:00, 12:00, 19:00), the 19:00 call waters all three again.
- `Watering.SingleEntryWateredOnce`: a single entry is watered at most once
  per stored state.

Modules:

- `Options`: the option type.
- `Clock`: times of day and their comparison.
- `Watering`: the specification function `Water` of one call, a reference
  description (`LastPassed`, `Fired`) and the lemmas.
- `Controller`: the class `WateringSystem`, holding the state dictionary, the
  global pump and the trace of effects. Its `WaterPlants` loop is proved equal
  to `Water`.
- `Images`: the file names.
- `DailyEmail`: the image selection.

## Model

| member | source | states |
|---|---|---|
| `Clock.AtOrAfterStartByMinutes` | water.py:125-128 | `now.time() >= start_time` against a parsed `%H:%M` start is decided by hour and minute alone |
| `Watering.Due` | water.py:128 | the due test: `now.time() >= start_time` on the parsed start, and the stored `last_watered` differs from the raw `start_time` string |
| `Watering.Cycle` | water.py:130-138 | a completed watering is eight effects, opening with the "before" capture and closing with the save of the entry's string; its two sleeps add up to the configured duration |
| `Watering.Fire` | water.py:130-138 | watering one entry keeps the effects so far and adds at least the "before" capture. It completes exactly when the pump exists and the duration is not negative, and then `last_watered` is the entry's string and the pump is off. When it raises, `last_watered` is unchanged |
| `Watering.Water` | water.py:120-139 | one call: the entries in configuration order, each watered when due against the current `last_watered`, until the end or the first exception (its properties are the lemmas below) |
| `Watering.FailureSticks` | water.py:124-139 | once `pump.on()` or `time.sleep` has raised, the remaining entries are not looked at |
| `Watering.WaterMatchesReference` | water.py:120-139 | a call that does not raise fires exactly the entries whose start has passed and whose string differs from the last passed string before them. The events are their complete cycles in configuration order. `last_watered` ends as the string of the last entry whose start has passed, or unchanged. The pump is off if anything fired |
| `Watering.SavedMatchesState` | water.py:137-138 | the last state handed to `save_state` equals `last_watered` in memory after the call, even after an exception; with no save, the stored value is unchanged |
| `Watering.QuietCallChangesNothing` | water.py:124-139 | a call that captured, switched and saved nothing left `last_watered` and the pump as they were and raised nothing |
| `Watering.PumpOffOnReturn` | water.py:130-136 | of the two exceptions modelled, only a negative duration leaves the pump on: the pump ends a call on only if it was on already or `time.sleep` raised with the pump on. A call that watered and did not raise leaves it off |
| `Watering.NothingDueNothingChanges` | water.py:124-139 | if no entry is due against the stored value, the call changes nothing: same `last_watered`, pump untouched, no captures, no save |
| `Watering.MissingPumpNeverWaters` | water.py:130-131 | with the global `pump` still `None`, the call raises exactly when some entry is due, after one "before" capture. It never changes `last_watered` or the pump |
| `Watering.SaveOnlyAfterPumpOff` | water.py:135-138 | every save is immediately preceded by pump off and the "after" capture, so nothing is recorded for an unfinished watering |
| `Watering.AppendKeepsSavesAfterPumpOff` | water.py:130-138 | appending one cycle or a cut-off cycle keeps each save right after pump off and the "after" capture |
| `Watering.WellConfiguredNeverFails` | water.py:131-134 | with a pump and non-negative durations neither modelled exception (missing pump, negative sleep) is raised |
| `Watering.FiredHavePassed` | water.py:125-128 | only entries whose parsed start time has been reached fire |
| `Watering.FirstPassedFiresIffDifferent` | water.py:128 | the first entry whose start has passed fires if and only if its raw string differs from the stored `last_watered` |
| `Watering.LastPassedNone` | water.py:128 | with no start time passed, the stored value decides alone |
| `Watering.LastPassedFromNone` | water.py:46 | starting from `None`, `last_watered` is `None` or some entry's string |
| `Watering.LastPassedIsLastFired` | water.py:128 | the string of the last passed entry is the string of the last entry that fires, or the stored value when none fires |
| `Watering.LastWateredIsLastFired` | water.py:124-137 | after a call that did not raise, `last_watered` is the `start_time` of the last entry watered, or unchanged when none was |
| `Watering.LastWateredFromSchedule` | water.py:137 | raised or not, `last_watered` after a call is the stored value or some entry's `start_time` string |
| `Watering.FromDefaultAllPassedFire` | water.py:46 | from the default state, with distinct start strings, every entry whose start time has passed fires within one call |
| `Watering.SingleEntryWateredOnce` | water.py:128 | with a single entry, after it has been watered every later call with that state, at any time, changes nothing |
| `Watering.ThreeEntriesRewaterOnThirdCall` | water.py:124-138 | three entries at distinct times, each call at an entry's start: the first two calls water one entry each, and the third waters all three |
| `Watering.CallAtFirst` | water.py:124-138 | from the default state, a call when only the first entry has started waters just that entry |
| `Watering.CallAtSecond` | water.py:124-138 | with the first entry stored, a call when two entries have started waters just the second |
| `Watering.CallAtThird` | water.py:124-138 | with the second entry stored, a call when all three have started waters all three in order |
| `Watering.SevenNoonSevenExample` | water.py:124-138 | with entries "07:00", "12:00", "19:00" and "12:00" stored, the 19:00 call waters the 07:00 and 12:00 entries again |
| `Controller.LoadState` | water.py:39-46 | `load_state`: the stored value, or `None` when the file is missing or unreadable (its property is `ReloadAfterWatering`) |
| `Controller.ReloadAfterWatering` | water.py:39-46 | loading the state file after a call gives back the in-memory `last_watered`. A missing or unreadable file gives `None`, and a call from there leaves `None` or some entry's string |
| `Controller.WateringSystem.constructor` | water.py:39-46 | start-up state is what `load_state` returns, pump off, nothing done yet |
| `Controller.WateringSystem.CaptureImage` | water.py:60-77 | a capture is recorded and changes neither the state nor the pump |
| `Controller.WateringSystem.SwitchPumpOn` | water.py:131 | `pump.on()` switches the pump on, or raises when `initialize_pump` (water.py:49-57) left the global `pump` unset |
| `Controller.WateringSystem.SwitchPumpOff` | water.py:135 | `pump.off()` switches the pump off |
| `Controller.WateringSystem.Wait` | water.py:132 | `time.sleep` of a negative length raises; otherwise the wait is recorded |
| `Controller.WateringSystem.SaveState` | water.py:30-36 | the current `last_watered` is written to the state file |
| `Controller.WateringSystem.WaterEntry` | water.py:129-139 | one due entry: the watering sequence in order, stopping where it raises |
| `Controller.WateringSystem.WaterPlants` | water.py:120-139 | the loop leaves `last_watered`, the pump, the trace and the raised exception exactly as `Water` describes |
| `Controller.WateringSystem.Shutdown` | water.py:183-186 | on `KeyboardInterrupt` the pump, if initialised, is switched off |
| `Images.Pad` | water.py:61 | a zero-padded field has exactly its width in decimal digits |
| `Images.PadThenRead` | water.py:61 | a padded number reads back as itself when it fits the width |
| `Images.ReadThenPad` | water.py:61 | a digit string re-padded to its own width is unchanged |
| `Images.PadFields` | water.py:61 | three zero-padded fields side by side are `width + 4` decimal digits |
| `Images.FieldsRoundTrip` | water.py:61 | three padded fields that fit their widths read back as themselves |
| `Images.ReadFieldsThenPad` | water.py:61 | a digit string read as three fields and padded again is unchanged |
| `Images.Timestamp` | water.py:61 | `%Y%m%d_%H%M%S` is 15 characters with `_` after the date |
| `Images.TimestampParts` | water.py:61 | each field of the timestamp sits at its fixed position |
| `Images.TimestampRoundTrip` | water.py:61 | a valid time's timestamp reads back as that time |
| `Images.ParsedTimestampIsTimestamp` | water.py:61 | a 15-character string that reads back is the timestamp of what it reads as |
| `Images.ImageName` | water.py:62 | the name is the label, `_`, the timestamp and `.jpg` (20 characters added) |
| `Images.ImageNameRoundTrip` | water.py:61-62 | every capture name parses back to its label and time |
| `Images.ParsedNameIsImageName` | water.py:61-62 | every name that parses is exactly the capture name of its label and time |
| `Images.ImageNamesDistinct` | water.py:61-62 | two captures with one label at different times get different names |
| `DailyEmail.JpgFiles` | water.py:107 | the comprehension's result is no longer than the listing, and every file in it ends in `.jpg` |
| `DailyEmail.JpgFilesAreTheJpgs` | water.py:107 | the comprehension keeps exactly the files ending in `.jpg`, never more copies than listed |
| `DailyEmail.JpgFilesAppend` | water.py:107 | the comprehension keeps the listed order: filtering a concatenation concatenates the filtered parts |
| `DailyEmail.InsertByMtime` | water.py:106-108 | one insertion step of the sort adds exactly one element |
| `DailyEmail.SortByMtime` | water.py:106-108 | `sorted(..., key=os.path.getmtime)` keeps the number of files (its other properties are `SortByMtimeCorrect`) |
| `DailyEmail.InsertPermutes` | water.py:106-108 | inserting a file adds exactly that file |
| `DailyEmail.InsertSorted` | water.py:106-108 | inserting into a sorted list keeps it sorted |
| `DailyEmail.InsertStable` | water.py:106-108 | an inserted file goes ahead of the files with the same time already there |
| `DailyEmail.SortByMtimeCorrect` | water.py:106-108 | the sort is ordered by mtime and is a permutation. It is stable: files with equal mtimes keep their listed order |
| `DailyEmail.SliceFrom` | water.py:109 | Python's `s[start:]` is a suffix of `s`: all of it for a start at or below `-len(s)`, nothing for a start at or beyond `len(s)` |
| `DailyEmail.ImageCount` | water.py:109 | `config.get("daily_email_image_count", 6)`: the configured count, else 6 |
| `DailyEmail.SelectImages` | water.py:106-109 | the attachment list: the `.jpg` files, sorted by mtime, sliced `[-N:]` (its properties are `SelectionIsNewest`) |
| `DailyEmail.NewestSuffix` | water.py:109 | `[-N:]` of an mtime-sorted list has the Python slice's length, is a sorted suffix, and drops nothing newer than it keeps |
| `DailyEmail.SelectedAreListedJpgs` | water.py:106-109 | every attachment is a listed file ending in `.jpg` |
| `DailyEmail.SelectionIsNewest` | water.py:106-109 | the attachments are the newest `.jpg` files, oldest first. Their number follows Python's `[-N:]`: the last `N`, all of them for `N = 0`, and for negative `N` all but the first `-N` |
| `DailyEmail.SendsEmail` | water.py:111 | `if images:`, whether the e-mail goes out (its property is `SendsEmailIff`) |
| `DailyEmail.SendsEmailIff` | water.py:109-111 | the e-mail is sent if and only if there is a `.jpg` file and the count is non-negative, or there are more files than its magnitude |
| `DailyEmail.DefaultSendsUpToSix` | water.py:109-111 | with the default count, the e-mail is sent if and only if some `.jpg` exists, with at most six images |
| `DailyEmail.CapturesAreJpg` | water.py:62 | every captured image's name passes the daily e-mail's `.jpg` filter |

## Left out

- The `schedule` library is not part of this model. That covers `setup_schedule`'s job registration, `run_pending` and `main`'s polling loop. The model takes each call's time of day as a parameter; the multi-call lemmas pick those times as the library would (each entry's start time).
- `datetime.now()` is a parameter (`now` for the watering step, the capture time for file names). Microseconds are not modelled; against a parsed `%H:%M` start they never decide the comparison, and neither do seconds (`Clock.AtOrAfterStartByMinutes`).
- `datetime.strptime(..., "%H:%M")` is not modelled. Each entry carries its raw string and an already parsed time. A malformed string (ValueError) or a missing `start_time`/`duration` key (KeyError) is not modelled.
- A state file that parses but lacks the `last_watered` key (KeyError on the first comparison) is not modelled. A stored value is either `None` or a string.
- JSON reading and writing, `save_state`'s logged write failure, `load_config` and the logging calls are not modelled. A save is recorded as an event carrying the state it writes.
- The `rpicam-jpeg` subprocess and the `os.makedirs`/`os.path.join` path handling in `capture_image` are not modelled. A capture is recorded by label only. A failed `rpicam-jpeg` run is caught and logged and does not stop the watering, which the model matches.
- Exceptions that `capture_image` lets escape are not modelled: a `FileNotFoundError` when `rpicam-jpeg` is not installed (only `CalledProcessError` is caught), and an `OSError` from `os.makedirs`. Either one ends `water_plants`. Raised at the "halfway" capture, it leaves the pump on, like the modelled negative sleep.
- Other exceptions from `time.sleep(duration / 2)` are not modelled: a `TypeError` for a non-numeric `duration` and an `OverflowError` for one too large for the platform. Both are raised with the pump on. `Watering.PumpOffOnReturn` and `Watering.WellConfiguredNeverFails` speak only of the two modelled exceptions.
- A non-integer `daily_email_image_count` (a `TypeError` in the slice) is not modelled; the count is an integer or absent.
- SMTP sending in `send_email` and the startup e-mail are not modelled. The selection yields file names, not joined paths.
- Durations and sleeps are exact reals. Float rounding of `duration / 2` is not modelled, and the real waiting is not modelled.
- Modification times are integers; `getmtime`'s float precision is not modelled. The `os.listdir` order is a parameter.
- `Images.Timestamp`: pads the year to four digits as Python documents `%Y`; some C libraries print years before 1000 without padding, which the model does not capture.
- web_app.py, fix_permissions.py, verify_flask.py and gpio_test.py are not part of this model: web pages, shell permission fixes, network probes and a hardware smoke test.
