/**
 * The session engine of GestureApp: the fields the window updates as the
 * user acts and as the 50 ms timer polls the camera (main.py:50-57), and the
 * methods that change them (main.py:282-438). Widgets, the camera, the hand
 * detector and the data file stay outside; the detector's hands, the time
 * and the parsed interval arrive as parameters.
 */
module Session {
  import opened Wrappers
  import opened Features
  import Credentials
  import Recorder
  import Matcher

  /** `mode`: '' before any session, then 'record', 'preview' or 'match'. */
  datatype Mode = Unset | Record | Preview | Match

  /** The text update_frame puts in the match label when the last gesture matches. */
  datatype Message = ShowPassword(password: string) | AllMatched

  /** What one poll of update_frame shows. */
  datatype Report =
    | NoFrame                                                     // the camera gave no frame
    | NoHands                                                     // no hand detected
    | Recording(countdown: real, gesture: nat, total: nat, saved: bool)
    | Matching(gesture: nat, advanced: bool, message: Option<Message>)

  class GestureApp {
    /** numpy's `hypot`, used for every landmark distance. */
    const hypot: Hypot

    /** `saved_passwords`: its keys in insertion order, and its contents. */
    var names: seq<string>
    var entries: map<string, Credentials.Entry>
    var currentSave: string
    var recordInterval: real
    var recorded: seq<Fingerprint>
    var matchGestures: seq<Fingerprint>
    var currentIndex: nat
    var startTime: real
    var mode: Mode
    /** Whether the poll timer runs (`self.timer` started and not stopped). */
    var polling: bool

    function Saved(): Credentials.Store
      reads this
    {
      Credentials.Store(names, entries)
    }

    function Capture(): Recorder.Capture
      reads this
    {
      Recorder.Capture(recorded, currentIndex, startTime)
    }

    /**
     * The store is a valid insertion-ordered dictionary; while recording, the
     * gesture number is one past the number captured; the timer only runs in
     * a mode; while matching, the current gesture exists (so the indexing on
     * main.py:414 is in range) and, in match mode, so does the entry whose
     * password is shown at the end.
     */
    ghost predicate Valid()
      reads this
    {
      && Credentials.Valid(Saved())
      && (mode == Record ==> Recorder.Aligned(Capture()))
      && (polling ==> mode != Unset)
      && (polling && mode != Record ==> currentIndex < |matchGestures|)
      && (polling && mode == Match ==> currentSave in entries)
    }

    /** The state __init__ leaves (main.py:50-57), with the store load_data read. */
    constructor (hypot: Hypot, loaded: Credentials.Store)
      requires Credentials.Valid(loaded)
      ensures Valid()
      ensures this.hypot == hypot && Saved() == loaded
      ensures currentSave == "" && recordInterval == Recorder.DefaultInterval
      ensures recorded == [] && matchGestures == [] && currentIndex == 0 && startTime == 0.0
      ensures mode == Unset && !polling
    {
      this.hypot := hypot;
      names, entries := loaded.names, loaded.entries;
      currentSave := "";
      recordInterval := Recorder.DefaultInterval;
      recorded, matchGestures := [], [];
      currentIndex, startTime := 0, 0.0;
      mode, polling := Unset, false;
    }

    /** start_record (main.py:321-327). */
    method StartRecord(now: real)
      requires Valid()
      modifies this
      ensures Valid()
      ensures Capture() == Recorder.Start(now) && mode == Record && polling
      ensures Saved() == old(Saved()) && currentSave == old(currentSave)
      ensures recordInterval == old(recordInterval) && matchGestures == old(matchGestures)
    {
      recorded := [];
      currentIndex := 1;
      mode := Record;
      startTime := now;
      polling := true;
    }

    /**
     * add_password (main.py:282-301): refused, changing nothing, on an empty
     * stripped field or a name already saved; otherwise the new entry is
     * saved, selected, and recording starts.
     */
    method AddPassword(nameText: string, passwordText: string, now: real) returns (r: Outcome<Credentials.Error>)
      requires Valid()
      modifies this
      ensures Valid()
      ensures var created := Credentials.Create(old(Saved()), nameText, passwordText);
        && (created.Failure? ==> r == Fail(created.error) && unchanged(this))
        && (created.Success? ==>
              && r == Pass
              && Saved() == created.value
              && currentSave == Credentials.Strip(nameText)
              && Capture() == Recorder.Start(now) && mode == Record && polling
              && recordInterval == old(recordInterval) && matchGestures == old(matchGestures))
    {
      var created := Credentials.Create(Saved(), nameText, passwordText);
      if created.Failure? {
        return Fail(created.error);
      }
      SaveNew(created.value, Credentials.Strip(nameText));
      StartRecord(now);
      r := Pass;
    }

    /** The store after a successful add, with the new name as `current_save` (main.py:294, main.py:300). */
    method SaveNew(store: Credentials.Store, name: string)
      requires Valid() && Credentials.Valid(store) && name in store.entries
      modifies this
      ensures Valid()
      ensures Saved() == store && currentSave == name
      ensures recordInterval == old(recordInterval) && matchGestures == old(matchGestures)
      ensures Capture() == old(Capture()) && mode == old(mode) && polling == old(polling)
    {
      names, entries := store.names, store.entries;
      currentSave := name;
    }

    /**
     * delete_password (main.py:303-305). Its buttons sit on the home page,
     * which is only shown once to_home has stopped the timer.
     */
    method DeletePassword(name: string)
      requires Valid() && !polling
      modifies this
      ensures Valid()
      ensures Saved() == Credentials.Delete(old(Saved()), name)
      ensures currentSave == old(currentSave) && recordInterval == old(recordInterval)
      ensures Capture() == old(Capture()) && matchGestures == old(matchGestures)
      ensures mode == old(mode) && polling == old(polling)
    {
      var s := Credentials.Delete(Saved(), name);
      names, entries := s.names, s.entries;
    }

    /**
     * start_match (main.py:343-351), with the emptiness check preview has:
     * a missing entry, or one without gestures, is refused and nothing
     * changes; otherwise matching starts at the first stored gesture.
     */
    method StartMatch() returns (r: Outcome<Credentials.Error>)
      requires Valid()
      modifies this
      ensures Valid()
      ensures var target := Matcher.Target(old(Saved()), old(currentSave));
        && (target.Failure? ==> r == Fail(target.error) && unchanged(this))
        && (target.Success? ==>
              && r == Pass
              && matchGestures == target.value && currentIndex == 0 && mode == Match && polling
              && Saved() == old(Saved()) && currentSave == old(currentSave)
              && recordInterval == old(recordInterval) && recorded == old(recorded)
              && startTime == old(startTime))
    {
      var target := Matcher.Target(Saved(), currentSave);
      if target.Failure? {
        return Fail(target.error);
      }
      matchGestures := target.value;
      currentIndex := 0;
      mode := Match;
      polling := true;
      r := Pass;
    }

    /** select_item (main.py:310-313): the clicked row's name becomes current, then start_match. */
    method SelectItem(idx: int) returns (r: Outcome<Credentials.Error>)
      requires Valid()
      modifies this
      ensures Valid()
      ensures var picked := Credentials.NameAt(old(Saved()), idx);
        && (picked.Failure? ==> r == Fail(Credentials.IndexOutOfRange) && unchanged(this))
        && (picked.Success? ==>
              && currentSave == picked.value
              && Saved() == old(Saved())
              && recordInterval == old(recordInterval) && recorded == old(recorded)
              && startTime == old(startTime)
              && var target := Matcher.Target(old(Saved()), picked.value);
              && (target.Failure? ==>
                    r == Fail(Credentials.NoGestures) && polling == old(polling)
                    && mode == old(mode) && matchGestures == old(matchGestures)
                    && currentIndex == old(currentIndex))
              && (target.Success? ==>
                    r == Pass && matchGestures == target.value
                    && currentIndex == 0 && mode == Match && polling))
    {
      var picked := Credentials.NameAt(Saved(), idx);
      if picked.Failure? {
        return Fail(picked.error);
      }
      currentSave := picked.value;
      r := StartMatch();
    }

    /** set_interval (main.py:315-319): the parsed number, or 3.0 when the text is not a number. */
    method SetInterval(parsed: Option<real>)
      requires Valid()
      modifies this
      ensures Valid()
      ensures recordInterval == (if parsed.Some? then parsed.value else Recorder.DefaultInterval)
      ensures Saved() == old(Saved()) && currentSave == old(currentSave)
      ensures Capture() == old(Capture()) && matchGestures == old(matchGestures)
      ensures mode == old(mode) && polling == old(polling)
    {
      recordInterval := parsed.GetOr(Recorder.DefaultInterval);
    }

    /**
     * preview (main.py:329-341): refused, changing nothing, when nothing was
     * recorded; otherwise the recorded gestures become the target.
     */
    method Preview() returns (r: Outcome<Credentials.Error>)
      requires Valid()
      modifies this
      ensures Valid()
      ensures old(recorded) == [] ==> r == Fail(Credentials.NoGestures) && unchanged(this)
      ensures old(recorded) != [] ==>
        && r == Pass
        && matchGestures == recorded == old(recorded) && currentIndex == 0 && mode == Mode.Preview && polling
        && Saved() == old(Saved()) && currentSave == old(currentSave)
        && recordInterval == old(recordInterval) && startTime == old(startTime)
    {
      if recorded == [] {
        return Fail(Credentials.NoGestures);
      }
      matchGestures := recorded;
      currentIndex := 0;
      mode := Mode.Preview;
      polling := true;
      r := Pass;
    }

    /**
     * stop_record (main.py:353-356): the timer stops, then the recorded
     * gestures replace those of the current entry and of no other; a current
     * name that is not saved raises KeyError after the timer stopped.
     */
    method StopRecord() returns (r: Outcome<Credentials.Error>)
      requires Valid()
      modifies this
      ensures Valid()
      ensures !polling
      ensures var stored := Credentials.SetGestures(old(Saved()), old(currentSave), old(recorded));
        && (stored.Failure? ==> r == Fail(Credentials.KeyMissing) && Saved() == old(Saved()))
        && (stored.Success? ==> r == Pass && Saved() == stored.value)
      ensures currentSave == old(currentSave) && recordInterval == old(recordInterval)
      ensures Capture() == old(Capture()) && matchGestures == old(matchGestures) && mode == old(mode)
    {
      polling := false;
      var stored := Credentials.SetGestures(Saved(), currentSave, recorded);
      if stored.Failure? {
        return Fail(stored.error);
      }
      names, entries := stored.value.names, stored.value.entries;
      r := Pass;
    }

    /** to_home (main.py:365-367): the timer stops. */
    method ToHome()
      requires Valid()
      modifies this
      ensures Valid()
      ensures !polling
      ensures Saved() == old(Saved()) && currentSave == old(currentSave)
      ensures recordInterval == old(recordInterval)
      ensures Capture() == old(Capture()) && matchGestures == old(matchGestures) && mode == old(mode)
    {
      polling := false;
    }

    /** finish_setup (main.py:361-363): stop_record, then to_home. */
    method FinishSetup() returns (r: Outcome<Credentials.Error>)
      requires Valid()
      modifies this
      ensures Valid()
      ensures !polling
      ensures var stored := Credentials.SetGestures(old(Saved()), old(currentSave), old(recorded));
        && (stored.Failure? ==> r == Fail(Credentials.KeyMissing) && Saved() == old(Saved()))
        && (stored.Success? ==> r == Pass && Saved() == stored.value)
      ensures currentSave == old(currentSave) && recordInterval == old(recordInterval)
      ensures Capture() == old(Capture()) && matchGestures == old(matchGestures) && mode == old(mode)
    {
      r := StopRecord();
      ToHome();
    }

    /** The record branch of update_frame (main.py:399-411) for a frame whose fingerprint is `data`. */
    method RecordTick(data: Fingerprint, now: real) returns (report: Report)
      requires Valid() && polling && mode == Record
      modifies this
      ensures Valid() && polling
      ensures Saved() == old(Saved()) && currentSave == old(currentSave) && recordInterval == old(recordInterval)
      ensures matchGestures == old(matchGestures) && mode == old(mode)
      ensures var elapsed := now - old(startTime);
        && Capture() == Recorder.Tick(old(Capture()), recordInterval, now, data)
        && report == Recording(Recorder.Countdown(recordInterval, elapsed), old(currentIndex),
                               |old(recorded)|, elapsed >= recordInterval)
    {
      var elapsed := now - startTime;
      var left := Recorder.Countdown(recordInterval, elapsed);
      report := Recording(left, currentIndex, |recorded|, elapsed >= recordInterval);
      if elapsed >= recordInterval {
        recorded := recorded + [data];
        currentIndex := currentIndex + 1;
        startTime := now;
      }
    }

    /**
     * The match branch of update_frame (main.py:412-425) for a frame whose
     * fingerprint is `data`, in preview or match mode.
     */
    method MatchTick(data: Fingerprint) returns (report: Report)
      requires Valid() && polling && mode != Record
      modifies this
      ensures Valid()
      ensures Saved() == old(Saved()) && currentSave == old(currentSave) && recordInterval == old(recordInterval)
      ensures matchGestures == old(matchGestures) && mode == old(mode)
      ensures recorded == old(recorded) && startTime == old(startTime)
      ensures currentIndex == Matcher.Advance(matchGestures, old(currentIndex), data)
      ensures report.Matching? && report.gesture == old(currentIndex) + 1
      ensures report.advanced == (currentIndex == old(currentIndex) + 1)
      ensures currentIndex == |matchGestures| ==>
        && !polling
        && report.message == Some(if mode == Match then ShowPassword(entries[currentSave].password) else AllMatched)
      ensures currentIndex < |matchGestures| ==> polling && report.message == None
    {
      var shown := currentIndex + 1;
      var target := matchGestures[currentIndex];
      var message: Option<Message> := None;
      var advanced := Matcher.Matches(data, target);
      if advanced {
        currentIndex := currentIndex + 1;
        if currentIndex >= |matchGestures| {
          message := Some(if mode == Match then ShowPassword(entries[currentSave].password) else AllMatched);
          polling := false;
        }
      }
      report := Matching(shown, advanced, message);
    }

    /**
     * One poll of update_frame (main.py:369-429). `frame` is None when the
     * camera gives no frame, otherwise the hands the detector found;
     * `escape` is whether ESC was pressed in the camera window.
     *
     * A frame without hands returns before any session state is touched.
     * A record tick captures the frame's fingerprint exactly when the
     * interval has elapsed since the last capture. A match tick advances the
     * gesture number by one exactly when the fingerprint matches the current
     * stored gesture, and the timer stops with the password, or the
     * success message in preview, once the last gesture matched.
     */
    method UpdateFrame(frame: Option<seq<Hand>>, now: real, escape: bool) returns (report: Report)
      requires Valid() && polling
      modifies this
      ensures Valid()
      ensures Saved() == old(Saved()) && currentSave == old(currentSave) && recordInterval == old(recordInterval)
      ensures matchGestures == old(matchGestures) && mode == old(mode)
      ensures frame.None? ==> report == NoFrame && Capture() == old(Capture()) && polling
      ensures frame == Some([]) ==> report == NoHands && Capture() == old(Capture()) && polling == !escape
      ensures frame.Some? && frame.value != [] && mode == Record ==>
        var elapsed := now - old(startTime);
        && Capture() == Recorder.Tick(old(Capture()), recordInterval, now, Extract(frame.value, hypot))
        && report == Recording(Recorder.Countdown(recordInterval, elapsed), old(currentIndex),
                               |old(recorded)|, elapsed >= recordInterval)
        && polling == !escape
      ensures frame.Some? && frame.value != [] && mode != Record ==>
        && recorded == old(recorded) && startTime == old(startTime)
        && currentIndex == Matcher.Advance(matchGestures, old(currentIndex), Extract(frame.value, hypot))
        && report.Matching? && report.gesture == old(currentIndex) + 1
        && report.advanced == (currentIndex == old(currentIndex) + 1)
        && (currentIndex == |matchGestures| ==>
              && !polling
              && report.message == Some(if mode == Match then ShowPassword(entries[currentSave].password)
                                        else AllMatched))
        && (currentIndex < |matchGestures| ==> polling == !escape && report.message == None)
    {
      if frame.None? {
        return NoFrame;
      }
      var hands := frame.value;
      if hands == [] {
        report := NoHands;
      } else {
        var data := CalculateDistances(FrameLandmarks(hands), hypot);
        if mode == Record {
          report := RecordTick(data, now);
        } else {
          report := MatchTick(data);
        }
      }
      if escape {
        polling := false;
      }
    }
  }
}
