/**
 * The gesture recorder: start_record (main.py:321-325) and the record branch
 * of update_frame (main.py:399-411), as a pure step over the capture state
 * (recorded_gestures, current_index, start_time).
 */
module Recorder {
  import opened Features

  /** The interval the application starts with and falls back to (main.py:52, main.py:319). */
  const DefaultInterval: real := 3.0

  /** `recorded_gestures`, `current_index` and `start_time` while recording. */
  datatype Capture = Capture(gestures: seq<Fingerprint>, index: nat, startTime: real)

  /** The label shows "Gesture <index>": the number the next capture will get. */
  predicate Aligned(c: Capture)
  {
    c.index == |c.gestures| + 1
  }

  /** The capture state start_record leaves (main.py:322-325). */
  function Start(now: real): (c: Capture)
    ensures Aligned(c) && c.gestures == [] && c.startTime == now
  {
    Capture([], 1, now)
  }

  /** `max(0, interval - elapsed)` (main.py:401): the smallest non-negative bound of the time left. */
  function Countdown(interval: real, elapsed: real): (r: real)
    ensures r >= 0.0 && r >= interval - elapsed
    ensures r == 0.0 || r == interval - elapsed
  {
    if interval - elapsed > 0.0 then interval - elapsed else 0.0
  }

  /** One record tick with a hand in view (main.py:400-411). */
  function Tick(c: Capture, interval: real, now: real, live: Fingerprint): (r: Capture)
    ensures |c.gestures| <= |r.gestures| <= |c.gestures| + 1 && r.gestures[..|c.gestures|] == c.gestures
    ensures |r.gestures| > |c.gestures| <==> now - c.startTime >= interval
    ensures |r.gestures| > |c.gestures| ==> r.gestures[|c.gestures|] == live && r.index == c.index + 1 && r.startTime == now
    ensures |r.gestures| == |c.gestures| ==> r == c
  {
    if now - c.startTime >= interval then Capture(c.gestures + [live], c.index + 1, now) else c
  }

  /** Record ticks in order; each is the time of a frame with a hand in view and its fingerprint. */
  function RunTicks(c: Capture, interval: real, ticks: seq<(real, Fingerprint)>): (r: Capture)
    ensures |c.gestures| <= |r.gestures| <= |c.gestures| + |ticks|
    ensures r.gestures[..|c.gestures|] == c.gestures
    decreases |ticks|
  {
    if ticks == [] then c
    else
      var c' := Tick(c, interval, ticks[0].0, ticks[0].1);
      var r := RunTicks(c', interval, ticks[1..]);
      assert r.gestures[..|c.gestures|] == r.gestures[..|c'.gestures|][..|c.gestures|];
      r
  }

  /**
   * A tick captures exactly when the interval has elapsed since the last
   * capture (or the start), and then appends exactly the live fingerprint,
   * counts it and restarts the clock; otherwise nothing changes.
   */
  lemma TickCaptures(c: Capture, interval: real, now: real, live: Fingerprint)
    requires Aligned(c)
    ensures var r := Tick(c, interval, now, live);
      && Aligned(r)
      && (now - c.startTime >= interval ==> r.gestures == c.gestures + [live] && r.startTime == now)
      && (now - c.startTime < interval ==> r == c)
  {
  }

  /** `current_index == len(recorded_gestures) + 1` holds across every record tick. */
  lemma {:induction false} RunKeepsAligned(c: Capture, interval: real, ticks: seq<(real, Fingerprint)>)
    requires Aligned(c)
    ensures Aligned(RunTicks(c, interval, ticks))
    decreases |ticks|
  {
    if ticks != [] {
      RunKeepsAligned(Tick(c, interval, ticks[0].0, ticks[0].1), interval, ticks[1..]);
    }
  }

  /**
   * Recording only appends: earlier gestures are kept, at most one gesture
   * is added per tick, and every added gesture is the fingerprint of one of
   * the ticks.
   */
  lemma {:induction false} RunOnlyAppends(c: Capture, interval: real, ticks: seq<(real, Fingerprint)>)
    ensures var r := RunTicks(c, interval, ticks);
      && |c.gestures| <= |r.gestures| <= |c.gestures| + |ticks|
      && r.gestures[..|c.gestures|] == c.gestures
      && forall k :: |c.gestures| <= k < |r.gestures| ==>
           exists t :: 0 <= t < |ticks| && r.gestures[k] == ticks[t].1
    decreases |ticks|
  {
    if ticks != [] {
      var c' := Tick(c, interval, ticks[0].0, ticks[0].1);
      RunOnlyAppends(c', interval, ticks[1..]);
      var r := RunTicks(c', interval, ticks[1..]);
      assert r.gestures[..|c'.gestures|] == c'.gestures;
      assert r.gestures[..|c.gestures|] == c'.gestures[..|c.gestures|];
      forall k | |c.gestures| <= k < |r.gestures|
        ensures exists t :: 0 <= t < |ticks| && r.gestures[k] == ticks[t].1
      {
        if k < |c'.gestures| {
          assert r.gestures[k] == c'.gestures[k] == ticks[0].1;
        } else {
          var t :| 0 <= t < |ticks[1..]| && r.gestures[k] == ticks[1..][t].1;
          assert r.gestures[k] == ticks[t + 1].1;
        }
      }
    }
  }

  /** Until the interval has elapsed since the last capture, ticks capture nothing. */
  lemma {:induction false} NoCaptureBeforeInterval(c: Capture, interval: real, ticks: seq<(real, Fingerprint)>)
    requires forall t :: 0 <= t < |ticks| ==> ticks[t].0 - c.startTime < interval
    ensures RunTicks(c, interval, ticks) == c
    decreases |ticks|
  {
    if ticks != [] {
      assert ticks[0].0 - c.startTime < interval;
      assert forall t :: 0 <= t < |ticks[1..]| ==> ticks[1..][t] == ticks[t + 1];
      NoCaptureBeforeInterval(c, interval, ticks[1..]);
    }
  }

  /**
   * With a one-second interval and frames at 0.0, 0.4, 0.9, 1.0 and 1.5
   * seconds after the start, exactly one gesture is captured, at 1.0, and
   * the gesture number becomes 2.
   */
  lemma CadenceExample(live: Fingerprint)
    ensures var r := RunTicks(Start(0.0), 1.0, [(0.0, live), (0.4, live), (0.9, live), (1.0, live), (1.5, live)]);
      r.gestures == [live] && r.index == 2 && r.startTime == 1.0
  {
    var early := [(0.0, live), (0.4, live), (0.9, live)];
    var late := [(1.0, live), (1.5, live)];
    assert early + late == [(0.0, live), (0.4, live), (0.9, live), (1.0, live), (1.5, live)];
    NoCaptureBeforeInterval(Start(0.0), 1.0, early);
    RunSplit(Start(0.0), 1.0, early, late);
    var c1 := Tick(Start(0.0), 1.0, 1.0, live);
    assert c1 == Capture([live], 2, 1.0);
    assert late[1..] == [(1.5, live)];
    assert RunTicks(Start(0.0), 1.0, late) == RunTicks(c1, 1.0, [(1.5, live)]);
    assert Tick(c1, 1.0, 1.5, live) == c1;
    assert [(1.5, live)][1..] == [];
    assert RunTicks(c1, 1.0, [(1.5, live)]) == RunTicks(c1, 1.0, []) == c1;
  }

  lemma {:induction false} RunSplit(c: Capture, interval: real, first: seq<(real, Fingerprint)>, rest: seq<(real, Fingerprint)>)
    ensures RunTicks(c, interval, first + rest) == RunTicks(RunTicks(c, interval, first), interval, rest)
    decreases |first|
  {
    if first == [] {
      assert first + rest == rest;
    } else {
      assert (first + rest)[1..] == first[1..] + rest;
      RunSplit(Tick(c, interval, first[0].0, first[0].1), interval, first[1..], rest);
    }
  }
}
