# GesPas gesture engine in Dafny

GesPas is a password manager unlocked by hand gestures. A PyQt window shows the
camera, MediaPipe finds up to two hands in each frame, and a 50 ms timer drives
the engine inside `GestureApp`. This project models that engine and proves
properties of it:

- **Feature extraction** (`Features`). A frame's hands are flattened into one
  landmark list, and a lone hand is copied into a second slot. The list becomes
  a fingerprint: the distance of every landmark pair (i, j), i < j, in
  lexicographic order. `CalculateDistances` is the source's nested loop. It is
  proved equal to the specification function `PairDistances`. Lemmas prove that
  a fingerprint has C(n, 2) entries and that the pair order is strictly
  increasing and covers every pair.
- **Credential store** (`Credentials`). `saved_passwords` is an
  insertion-ordered dictionary from a save name to a password and a gesture
  sequence. It is modelled as the names in insertion order beside a map. Add,
  delete, set-gestures and select-by-row are functions on that value. Each one
  keeps the store valid (names unique, list and keys in step) and touches only
  its target.
- **Recorder** (`Recorder`). This is the timed capture loop of the record
  branch. A tick captures exactly when the interval has elapsed since the last
  capture. Lemmas over runs of ticks prove that the gesture number stays one
  past the count, that recording only appends, and the cadence.
- **Matcher** (`Matcher`). This is numpy's `allclose` test (rtol 0.08, atol
  0.12, per component, against the stored value) and the advance of the
  current gesture. Lemmas over runs of ticks prove two things. Replaying the
  stored gestures completes the match. A completed match was reproduced in
  order, each gesture by a close fingerprint.
- **Session** (`Session.GestureApp`). This is a class with the window's
  session fields: the store, `current_save`, `record_interval`,
  `recorded_gestures`, `match_gestures`, `current_index`, `start_time`, `mode`
  and a `polling` flag for the timer. Its methods are the window's actions and
  one poll of `update_frame`. Each method states its whole new state in terms
  of the functions above and keeps the invariant `Valid()`. So while the timer
  polls in preview or match mode, the gesture read at main.py:414 exists.

The camera frame, the detector's hands, the clock, the ESC key and the parsed
interval are parameters. `np.hypot` is an arbitrary function value
`(real, real) -> real` given to the constructor. No proof depends on its
values.

Three behaviours of main.py are easy to misread. The model follows the code as written:

- main.py:415 compares with `np.allclose`, whose test is `|live - stored| <= atol + rtol * |stored|`. So a live value exactly at the tolerance bound matches (`Matcher.ToleranceBoundary`).
- `set_interval` (main.py:315-319) keeps any number that `float()` accepts, zero and negatives included. Only text that does not parse falls back to 3.0 (`Session.GestureApp.SetInterval`).
- `preview` refuses an empty recording (main.py:330-332), but `start_match` does not check the stored list. This is recorded under Findings below.

## Model

| member | source | states |
|---|---|---|
| `Features.CalculateDistances` | main.py:431-438 | The nested loop returns exactly the pairwise distances in lexicographic pair order. There are C(n, 2) of them, and the entry at pair (i, j)'s position is the distance from point i to point j. |
| `Features.PairDistancesAt` | main.py:432-437 | The fingerprint of n points has C(n, 2) entries. The entry at `PairIndex(n, i, j)` is the distance between points i and j. |
| `Features.PairIndexIncreasing` | main.py:433-434 | The loop order visits pairs in strictly increasing lexicographic order of (i, j). |
| `Features.PairIndexOnto` | main.py:433-434 | Every position below C(n, 2) belongs to some pair i < j, so the order covers every pair once. |
| `Features.Flatten` | main.py:389 | A landmark is in the flattened list exactly when it is in one of the hands. |
| `Features.HandSlots` | main.py:385-387 | The hand slots keep the detected hands in order. A lone hand gets a second slot holding that same hand, and other counts are kept. No other hand is added. |
| `Features.FrameLandmarks` | main.py:385-389 | With one or two hands, the landmark list is the first slot's landmarks followed by the second's: `h + h` for a lone hand, `h0 + h1` for two. A landmark is in the list exactly when it is a landmark of a detected hand. |
| `Features.Extract` | main.py:385-395 | The frame's fingerprint has C(n, 2) entries for its n landmarks. The entry at pair (i, j)'s position is the distance between landmarks i and j. |
| `Features.LoneHandDuplicated` | main.py:385-389 | A one-hand frame gives the same landmark list, and so the same fingerprint, as a frame showing that hand twice. |
| `Features.FingerprintLength` | main.py:385-389 | With hands of L landmarks, one- and two-hand frames both give 2L landmarks and C(2L, 2) distances. |
| `Credentials.Strip` | main.py:283-284 | Python's `str.strip()`: the part of the text between leading and trailing white space, with non-blank ends. It is empty exactly when the text is all white space. |
| `Credentials.StripIdempotent` | main.py:283-284 | Stripping twice is stripping once. |
| `Credentials.Create` | main.py:282-294 | Refused with EmptyInput exactly when a stripped field is empty. Refused with NameExists exactly when the stripped name is already saved. It succeeds exactly when both stripped fields are non-empty and the name is new. Then it appends the name, adds exactly the entry {password, no gestures}, leaves every other entry as it was and keeps the store valid. |
| `Credentials.SecondCreateRefused` | main.py:290-292 | Adding a name that is already saved is refused, whatever the password. The first entry stays. |
| `Credentials.Delete` | main.py:303-305 | Removes only the given key and keeps the store valid. It is a no-op when the key is absent. |
| `Credentials.RemoveName` | main.py:305 | The key list without the name keeps every other name. It keeps uniqueness and is unchanged when the name is absent. |
| `Credentials.RemoveNameAt` | main.py:305 | Deleting a key cuts exactly its position out of the insertion order. |
| `Credentials.CreateThenDelete` | main.py:294-305 | Deleting a freshly added name restores the store, order included. |
| `Credentials.SetGestures` | main.py:355 | Fails with KeyMissing exactly when the name is not saved. Otherwise it replaces only that entry's gestures, keeps its password and the key order, and leaves the other entries alone. |
| `Credentials.NameAt` | main.py:311-312 | Takes the idx-th key in insertion order, a negative idx counting from the end. It fails exactly when idx is out of range, and a success is a saved name. |
| `Recorder.Start` | main.py:322-325 | Recording starts with no gestures, the gesture number 1 and the clock at now. |
| `Recorder.Countdown` | main.py:400-401 | The countdown is `max(0, interval - elapsed)`: non-negative, at least the time left, and equal to 0 or to the time left. |
| `Recorder.Tick` | main.py:406-411 | A record tick keeps the earlier gestures and adds at most one. It adds one exactly when the interval has elapsed, and that one is the live fingerprint, with the number incremented and the clock restarted. Otherwise the capture state is unchanged. |
| `Recorder.RunTicks` | main.py:399-411 | A run of record ticks keeps the earlier gestures as a prefix and adds at most one gesture per tick. |
| `Recorder.TickCaptures` | main.py:406-411 | A tick with a hand appends exactly the live fingerprint, increments the gesture number and restarts the clock iff the interval has elapsed. Otherwise it changes nothing. |
| `Recorder.RunKeepsAligned` | main.py:406-411 | `current_index == len(recorded_gestures) + 1`, which start_record sets up (main.py:323), holds after any run of record ticks. |
| `Recorder.RunOnlyAppends` | main.py:407 | A run keeps the earlier gestures and adds at most one per tick. Every added gesture is a tick's fingerprint. |
| `Recorder.NoCaptureBeforeInterval` | main.py:406 | Ticks before the interval has elapsed since the last capture capture nothing. |
| `Recorder.CadenceExample` | main.py:400-411 | Interval 1.0 s, frames at 0.0, 0.4, 0.9, 1.0 and 1.5 s: exactly one capture, at 1.0 s, and the gesture number becomes 2. |
| `Matcher.Close` | main.py:415 | One component is close exactly when it lies within `atol + rtol * abs(stored)` of the stored value, on either side. Equal values are close. |
| `Matcher.Matches` | main.py:415 | A match requires equal lengths. A fingerprint always matches itself. |
| `Matcher.Advance` | main.py:414-416 | A match tick moves the gesture number forward by one exactly when the live fingerprint matches the current stored gesture, and otherwise leaves it. Showing the stored gesture itself always advances. |
| `Matcher.ToleranceBoundary` | main.py:415 | A value exactly `atol + rtol * abs(stored)` above or below the stored value matches. Any value further away, on either side, does not. |
| `Matcher.ToleranceAsymmetric` | main.py:415 | The test is not symmetric: the relative part scales with the stored value only. |
| `Matcher.LengthMismatchPending` | main.py:415 | A fingerprint whose length differs from the stored one never advances the match. |
| `Matcher.RunTicks` | main.py:412-425 | A run of match ticks never moves the gesture number backwards or past the sequence end. It advances at most once per frame. |
| `Matcher.ReplayCompletes` | main.py:413-418 | Showing the stored fingerprints again, in order, completes the match. |
| `Matcher.MatchedInOrder` | main.py:414-416 | Every gesture a run passes was matched by a close live fingerprint, and those fingerprints came in the gestures' order. |
| `Matcher.TargetAsWritten` | main.py:344 | start_match as written targets the entry's gestures, whatever their number, and fails only on a missing name. |
| `Matcher.Target` | main.py:329-345 | start_match with preview's emptiness check: it succeeds exactly when the entry exists and has gestures, so the target is non-empty. |
| `Matcher.EmptyTargetReachable` | main.py:343-345 | Take any freshly added entry (main.py:294) that is stopped before the first capture (main.py:355). start_match as written targets `[]` for it, while the checked target refuses it. |
| `Session.GestureApp.Valid` | main.py:412-425 | The class invariant every method keeps: a valid store; while recording, `current_index == len(recorded_gestures) + 1`; polling only in a mode; while polling in preview or match mode, `current_index < len(match_gestures)`, so the read at main.py:414 is in range; and in match mode, the current save exists for main.py:421. |
| `Session.GestureApp.constructor` | main.py:50-57 | The initial session: the loaded store, no current save, interval 3.0, nothing recorded, mode '' and no polling. |
| `Session.GestureApp.StartRecord` | main.py:321-327 | Resets the recorded list to empty and the index to 1, sets mode 'record', the start time to now and polling. Nothing else changes. |
| `Session.GestureApp.AddPassword` | main.py:282-301 | On a refusal the whole state is unchanged. On success the store gains the new entry, `current_save` is the stripped name, and recording starts. |
| `Session.GestureApp.DeletePassword` | main.py:303-305 | The store loses only the given key. Everything else stays. |
| `Session.GestureApp.SelectItem` | main.py:310-313 | The idx-th name becomes `current_save`, then matching starts on its gestures. An out-of-range row is refused with no change. An entry without gestures is refused with only `current_save` changed. The store, interval, recording and start time always stay. |
| `Session.GestureApp.SetInterval` | main.py:315-319 | The interval becomes the parsed number, or 3.0 when parsing fails. Nothing else changes. |
| `Session.GestureApp.Preview` | main.py:329-341 | Refused without change when nothing was recorded. Otherwise the recorded gestures become the target at index 0, in preview mode, polling. |
| `Session.GestureApp.StartMatch` | main.py:343-351 | Refused without change when the entry is missing or has no gestures. Otherwise the entry's gestures become the target at index 0, in match mode, polling. |
| `Session.GestureApp.StopRecord` | main.py:353-356 | Stops polling. Then only the current entry's gestures are overwritten with the recorded list. A missing entry is a KeyError with the store unchanged. |
| `Session.GestureApp.ToHome` | main.py:365-367 | Stops polling and changes nothing else. |
| `Session.GestureApp.FinishSetup` | main.py:361-363 | stop_record followed by to_home: polling stops, and only the current entry's gestures become the recorded list (KeyError and no change when it is missing). `current_save`, the interval, the capture state, the target and the mode stay. |
| `Session.GestureApp.SaveNew` | main.py:294-300 | The store becomes the one with the new entry and `current_save` its name. The capture state, mode and timer stay. |
| `Session.GestureApp.RecordTick` | main.py:399-411 | The capture state moves by exactly `Recorder.Tick`. The report shows `max(0, interval - elapsed)`, the gesture number and count before the tick, and whether this tick captured. Polling continues. |
| `Session.GestureApp.MatchTick` | main.py:412-425 | `current_index` becomes `Matcher.Advance` of the live fingerprint. When it reaches the end, polling stops with the entry's password in match mode or the success message in preview. Otherwise polling continues without a message. |
| `Session.GestureApp.UpdateFrame` | main.py:369-429 | A missing frame changes nothing. A frame without hands changes no capture or match state; only ESC stops the timer. A record tick is `Recorder.Tick` and reports the countdown. A match tick advances `current_index` by one exactly when the fingerprint matches the current stored gesture. When the last gesture matches, polling stops with the password (match) or the success message (preview). Every tick keeps `Valid()`. |

## Left out

- Widgets, labels, styling, `refresh_list` and `toggle_eye` (main.py:32-37, 59-280) are display only. So is the match page's back button (main.py:263), which only switches the page.
- Camera capture, flipping, colour conversion, drawing, `imshow` and `closeEvent` (main.py:75-79, 370-377, 390-393, 427) are video I/O. The frame is an `Option` parameter, and the ESC key read by `waitKey` is a boolean parameter.
- The MediaPipe detector (main.py:39-44, 376) is a foreign library. Its output is a parameter: a list of hands, each a list of (x, y) landmarks. The depth coordinate is unused by the source too. The model does not enforce the landmark count per hand.
- `load_data` and `save_data` (main.py:81-100) are file I/O and JSON serialisation. The constructor takes the loaded store (empty when loading fails), and the writes after each store change are not modelled.
- Floating point is not modelled. Distances and tolerances are mathematical reals, and `np.hypot` is an arbitrary function value. Infinite and NaN intervals that `float()` can produce have no counterpart.
- `float()` parsing of the interval text is the caller's. `SetInterval` receives its result as an `Option`.
- The clock is not modelled. `now` is a parameter, and the second clock read at main.py:411 is taken to equal the first.
- `time.sleep(0.3)` (main.py:417) and the notification-clearing `QTimer.singleShot` (main.py:409) do not change session state.
- The poll timer itself is not modelled; `polling` stands for it. `UpdateFrame` requires it, because Qt only calls `update_frame` while the timer runs.
- DeletePassword: requires the timer to be stopped. The delete buttons sit on the home page, which is only shown after `to_home` stopped the timer (or at startup).
- Aliasing is not modelled: `stop_record` stores, and `preview` shares, the same list object as `recorded_gestures`. Only `start_record` rebinds that list before any later append, so the model copies values.
- Matcher.RunTicks and Recorder.RunTicks: they model the ticks that carry a hand. Frames without hands change no state, so dropping them changes nothing.

## Findings

| source | as written | input that shows it | evidently intended | confidence | as-written member | corrected member |
|---|---|---|---|---|---|---|
| main.py:343-351 | `start_match` enters match mode with the entry's gestures whatever their number. `preview` refuses an empty list (main.py:330-332), but `start_match` does not. | Add an entry, then press Done before the first capture, so its gestures are `[]`. Select the entry. The first frame with a hand reads `match_gestures[0]` of an empty list at main.py:414 (IndexError). | Refuse an entry without gestures, as preview does, so matching only starts on a non-empty target. | high; not executed | `Matcher.TargetAsWritten`, shown by `Matcher.EmptyTargetReachable` | `Matcher.Target`, used by `Session.GestureApp.StartMatch` |
