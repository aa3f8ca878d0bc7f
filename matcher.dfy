/**
 * The gesture matcher: the tolerance test and the advance of current_index
 * on the match branch of update_frame (main.py:412-425), and the choice of
 * target sequence made by start_match (main.py:343-345).
 */
module Matcher {
  import opened Wrappers
  import opened Features
  import Credentials

  /** `rtol` and `atol` of the `np.allclose` call on main.py:415. */
  const RelativeTolerance: real := 0.08
  const AbsoluteTolerance: real := 0.12

  function Abs(x: real): real
  {
    if x < 0.0 then -x else x
  }

  /** numpy's closeness of one component: `|a - b| <= atol + rtol * |b|`, b being the stored value. */
  function Close(a: real, b: real): (r: bool)
    ensures r <==> b - (AbsoluteTolerance + RelativeTolerance * Abs(b)) <= a <= b + (AbsoluteTolerance + RelativeTolerance * Abs(b))
    ensures a == b ==> r
  {
    Abs(a - b) <= AbsoluteTolerance + RelativeTolerance * Abs(b)
  }

  /** The test on main.py:415: equal shapes, and every component close to the stored one. */
  function Matches(live: Fingerprint, stored: Fingerprint): (r: bool)
    ensures r ==> |live| == |stored|
    ensures live == stored ==> r
  {
    |live| == |stored| && forall k :: 0 <= k < |live| ==> Close(live[k], stored[k])
  }

  /** The new `current_index` after a match tick with a hand in view (main.py:414-416). */
  function Advance(target: seq<Fingerprint>, index: nat, live: Fingerprint): (r: nat)
    requires index < |target|
    ensures r == index || r == index + 1
    ensures r == index + 1 <==> Matches(live, target[index])
    ensures live == target[index] ==> r == index + 1
  {
    if Matches(live, target[index]) then index + 1 else index
  }

  /**
   * Match ticks in order, from gesture `index` on; polling stops, so later
   * frames are ignored, once every gesture is matched (main.py:418-425).
   */
  function RunTicks(target: seq<Fingerprint>, index: nat, lives: seq<Fingerprint>): (r: nat)
    requires index <= |target|
    ensures index <= r <= |target|
    ensures r - index <= |lives|
    decreases |lives|
  {
    if lives == [] || index == |target| then index
    else RunTicks(target, Advance(target, index, lives[0]), lives[1..])
  }

  // ---------------------------------------------------------------------------
  // The tolerance
  // ---------------------------------------------------------------------------

  /**
   * A live value exactly at the tolerance bound above the stored one is
   * still close; any value beyond it is not.
   */
  lemma ToleranceBoundary(b: real, e: real)
    requires e > 0.0
    ensures Close(b + AbsoluteTolerance + RelativeTolerance * Abs(b), b)
    ensures !Close(b + AbsoluteTolerance + RelativeTolerance * Abs(b) + e, b)
    ensures Close(b - AbsoluteTolerance - RelativeTolerance * Abs(b), b)
    ensures !Close(b - AbsoluteTolerance - RelativeTolerance * Abs(b) - e, b)
  {
  }

  /** The test is not symmetric: the relative part scales with the stored value only. */
  lemma ToleranceAsymmetric()
    ensures Close(0.0, 0.125) && !Close(0.125, 0.0)
  {
  }

  /** A fingerprint of another length never advances the match. */
  lemma LengthMismatchPending(target: seq<Fingerprint>, index: nat, live: Fingerprint)
    requires index < |target| && |live| != |target[index]|
    ensures Advance(target, index, live) == index
  {
  }

  // ---------------------------------------------------------------------------
  // Runs of match ticks
  // ---------------------------------------------------------------------------

  /** Showing the stored gestures again, in order, matches the whole sequence. */
  lemma {:induction false} ReplayCompletes(target: seq<Fingerprint>, index: nat)
    requires index <= |target|
    ensures RunTicks(target, index, target[index..]) == |target|
    decreases |target| - index
  {
    if index < |target| {
      assert target[index..][1..] == target[index + 1..];
      ReplayCompletes(target, index + 1);
    }
  }

  /**
   * The match only advances on a close fingerprint: every gesture passed in
   * a run was matched by a live fingerprint, and those fingerprints came in
   * the gestures' order.
   */
  lemma {:induction false} MatchedInOrder(target: seq<Fingerprint>, index: nat, lives: seq<Fingerprint>)
    returns (at: seq<nat>)
    requires index <= |target|
    ensures |at| == RunTicks(target, index, lives) - index
    ensures forall t :: 0 <= t < |at| ==> at[t] < |lives| && Matches(lives[at[t]], target[index + t])
    ensures forall t :: 0 < t < |at| ==> at[t - 1] < at[t]
    decreases |lives|
  {
    if lives == [] || index == |target| {
      at := [];
    } else {
      var next := Advance(target, index, lives[0]);
      var rest := MatchedInOrder(target, next, lives[1..]);
      var shifted := seq(|rest|, t requires 0 <= t < |rest| => rest[t] + 1);
      if next == index + 1 {
        at := [0] + shifted;
      } else {
        at := shifted;
      }
    }
  }

  // ---------------------------------------------------------------------------
  // The target of start_match
  // ---------------------------------------------------------------------------

  /**
   * The target start_match takes as written (main.py:344): the entry's
   * gestures, whatever their number; a missing name raises KeyError.
   */
  function TargetAsWritten(s: Credentials.Store, name: string): (r: Result<seq<Fingerprint>, Credentials.Error>)
    ensures r.Success? <==> name in s.entries
    ensures r.Success? ==> r.value == s.entries[name].gestures
  {
    if name in s.entries then Success(s.entries[name].gestures) else Failure(Credentials.KeyMissing)
  }

  /**
   * The target of start_match with the emptiness check preview makes
   * (main.py:330-332): an entry without gestures is refused, so the first
   * match tick's `match_gestures[current_index]` is in range.
   */
  function Target(s: Credentials.Store, name: string): (r: Result<seq<Fingerprint>, Credentials.Error>)
    ensures r.Success? <==> name in s.entries && s.entries[name].gestures != []
    ensures r.Success? ==> r.value == s.entries[name].gestures && 0 < |r.value|
    ensures r.Failure? ==> r.error == (if name in s.entries then Credentials.NoGestures else Credentials.KeyMissing)
  {
    if name !in s.entries then Failure(Credentials.KeyMissing)
    else if s.entries[name].gestures == [] then Failure(Credentials.NoGestures)
    else Success(s.entries[name].gestures)
  }

  /**
   * Every entry add_password creates starts without gestures, and Done
   * before the first capture stores that empty list (main.py:294, 355).
   * start_match as written then targets the empty list, and the first frame
   * with a hand reads `match_gestures[0]` out of range (main.py:414). The
   * checked target refuses that entry instead.
   */
  lemma EmptyTargetReachable(s: Credentials.Store, nameText: string, passwordText: string)
    requires Credentials.Valid(s)
    requires Credentials.Strip(nameText) != [] && Credentials.Strip(passwordText) != []
    requires Credentials.Strip(nameText) !in s.entries
    ensures Credentials.Create(s, nameText, passwordText).Success?
    ensures var name := Credentials.Strip(nameText);
      var added := Credentials.Create(s, nameText, passwordText).value;
      var stopped := Credentials.SetGestures(added, name, []);
      && TargetAsWritten(added, name) == Success([])
      && stopped.Success?
      && TargetAsWritten(stopped.value, name) == Success([])
      && Target(stopped.value, name) == Failure(Credentials.NoGestures)
  {
  }
}
