/**
 * The session director (`KeystrokeDirector.java`): forwards key events to a
 * recorder, keeps a completion flag, and notifies registered observers.
 *
 * Key events arrive as a character and a time. Observers are identified by
 * number; `delivered` lists every (observer, notification type) call made, in
 * order, and `emitted` lists the notification types in the order they were
 * raised.
 */
module Directors {
  import opened Failures
  import opened Characters
  import opened Keystrokes
  import opened Sequences
  import opened Recorders
  import opened Factories

  datatype NotificationType = UPDATE | CORRUPTION | COMPLETION | FILTER | REFRESH

  type ObserverId = nat

  /** One call of an observer's `notificationReceived`. */
  datatype Delivery = Delivery(observer: ObserverId, kind: NotificationType)

  const DEFAULT_COMPLETION_CHAR: char := '\n'

  predicate NoDuplicates(s: seq<ObserverId>) {
    forall i, j :: 0 <= i < j < |s| ==> s[i] != s[j]
  }

  /** Registering an observer (an insertion-ordered set): a duplicate is ignored. */
  function Registered(observers: seq<ObserverId>, o: ObserverId): (r: seq<ObserverId>)
    ensures NoDuplicates(observers) ==> NoDuplicates(r)
    ensures forall x :: x in r <==> x in observers || x == o
    ensures o in observers ==> r == observers
    ensures o !in observers ==> |r| == |observers| + 1 && r[..|observers|] == observers && r[|observers|] == o
  {
    if o in observers then observers else observers + [o]
  }

  /** Removing an observer, keeping the others in registration order. */
  function Unregistered(observers: seq<ObserverId>, o: ObserverId): (r: seq<ObserverId>)
    ensures forall x :: x in r <==> x in observers && x != o
    ensures |r| <= |observers|
  {
    if observers == [] then []
    else (if observers[0] == o then [] else [observers[0]]) + Unregistered(observers[1..], o)
  }

  lemma {:induction false} UnregisteredOfAbsent(s: seq<ObserverId>, o: ObserverId)
    requires o !in s
    ensures Unregistered(s, o) == s
  {
    if s != [] {
      UnregisteredOfAbsent(s[1..], o);
    }
  }

  /**
   * Removing an observer registered once takes exactly that entry out: the
   * observers before and after it keep their order.
   */
  lemma {:induction false} UnregisterRemovesOnlyThatEntry(a: seq<ObserverId>, o: ObserverId, b: seq<ObserverId>)
    requires o !in a && o !in b
    ensures Unregistered(a + [o] + b, o) == a + b
  {
    if a == [] {
      assert a + [o] + b == [o] + b;
      assert ([o] + b)[1..] == b;
      UnregisteredOfAbsent(b, o);
    } else {
      assert (a + [o] + b)[1..] == a[1..] + [o] + b;
      UnregisterRemovesOnlyThatEntry(a[1..], o, b);
      assert a + b == [a[0]] + (a[1..] + b);
    }
  }

  /** Removing keeps the remaining observers free of duplicates. */
  lemma {:induction false} UnregisteredKeepsNoDuplicates(s: seq<ObserverId>, o: ObserverId)
    requires NoDuplicates(s)
    ensures NoDuplicates(Unregistered(s, o))
  {
    if s != [] {
      assert NoDuplicates(s[1..]);
      UnregisteredKeepsNoDuplicates(s[1..], o);
      assert s[0] !in s[1..];
    }
  }

  /** One notification handed to each observer, in registration order. */
  function Broadcast(observers: seq<ObserverId>, kind: NotificationType): (r: seq<Delivery>)
    ensures |r| == |observers|
    ensures forall i :: 0 <= i < |r| ==> r[i] == Delivery(observers[i], kind)
  {
    seq(|observers|, i requires 0 <= i < |observers| => Delivery(observers[i], kind))
  }

  /**
   * With no duplicate registrations, a broadcast reaches every registered
   * observer exactly once, in registration order, and nobody else.
   */
  lemma BroadcastReachesEachOnce(observers: seq<ObserverId>, kind: NotificationType)
    requires NoDuplicates(observers)
    ensures var b := Broadcast(observers, kind);
            && (forall i :: 0 <= i < |b| ==> b[i] == Delivery(observers[i], kind))
            && (forall i, j :: 0 <= i < j < |b| ==> b[i].observer != b[j].observer)
            && (forall o :: o in observers <==> Delivery(o, kind) in b)
  {
    var b := Broadcast(observers, kind);
    forall o ensures o in observers <==> Delivery(o, kind) in b {
      if o in observers {
        var i :| 0 <= i < |observers| && observers[i] == o;
        assert b[i] == Delivery(o, kind);
      }
    }
  }

  class KeystrokeDirector {
    const completionChar: char
    var inputCompleted: bool
    var recorder: KeystrokeRecorder?
    var observers: seq<ObserverId>
    var delivered: seq<Delivery>
    ghost var emitted: seq<NotificationType>

    /** What the recorder's operations may read or change. */
    ghost function RecorderFrame(): set<object>
      reads this, recorder, if recorder != null then {recorder.sequence} else {}
    {
      if recorder == null then {} else recorder.Footprint()
    }

    /** The record a release of `c` would complete, if its lower-case form is held. */
    ghost function HeldFrame(c: char): set<Keystroke>
      reads this, recorder
    {
      if recorder != null && ToLower(c) in recorder.activeKeys then {recorder.activeKeys[ToLower(c)]} else {}
    }

    ghost predicate Valid()
      reads this, recorder, if recorder != null then {recorder.sequence} else {}
      reads RecorderFrame()
    {
      && (recorder != null ==> recorder.Valid())
      && NoDuplicates(observers)
    }

    /** A director completing on `completionChar`, with no recorder and no observers. */
    constructor WithCompletionChar(completionChar: char)
      ensures Valid()
      ensures this.completionChar == completionChar && !inputCompleted
      ensures recorder == null && observers == [] && delivered == [] && emitted == []
    {
      this.completionChar := completionChar;
      inputCompleted := false;
      recorder := null;
      observers := [];
      delivered := [];
      emitted := [];
    }

    /** A director completing on the newline character. */
    constructor ()
      ensures Valid()
      ensures completionChar == '\n' && !inputCompleted
      ensures recorder == null && observers == [] && delivered == [] && emitted == []
    {
      completionChar := DEFAULT_COMPLETION_CHAR;
      inputCompleted := false;
      recorder := null;
      observers := [];
      delivered := [];
      emitted := [];
    }

    method SetRecorder(r: KeystrokeRecorder?)
      requires Valid()
      requires r != null ==> r.Valid()
      modifies this`recorder
      ensures Valid() && recorder == r
    {
      recorder := r;
    }

    method AddObserver(o: ObserverId)
      requires Valid()
      modifies this`observers
      ensures Valid()
      ensures observers == Registered(old(observers), o)
    {
      if o !in observers {
        observers := observers + [o];
      }
    }

    method RemoveObserver(o: ObserverId)
      requires Valid()
      modifies this`observers
      ensures Valid()
      ensures observers == Unregistered(old(observers), o)
    {
      UnregisteredKeepsNoDuplicates(observers, o);
      observers := Unregistered(observers, o);
    }

    /**
     * Hands a notification of the given type to every observer in order. The
     * notification carries the recorder, and one without a recorder is rejected.
     */
    method NotifyObservers(kind: NotificationType) returns (r: Outcome)
      modifies this`delivered, this`emitted
      ensures recorder == null ==> r == Raise(NullRecorder) && delivered == old(delivered) && emitted == old(emitted)
      ensures recorder != null ==> r == Pass
      ensures recorder != null ==> delivered == old(delivered) + Broadcast(observers, kind)
      ensures recorder != null ==> emitted == old(emitted) + [kind]
    {
      if recorder == null {
        return Raise(NullRecorder);
      }
      emitted := emitted + [kind];
      for i := 0 to |observers|
        invariant delivered == old(delivered) + Broadcast(observers[..i], kind)
        invariant emitted == old(emitted) + [kind]
      {
        assert Broadcast(observers[..i + 1], kind) == Broadcast(observers[..i], kind) + [Delivery(observers[i], kind)];
        delivered := delivered + [Delivery(observers[i], kind)];
      }
      assert observers[..|observers|] == observers;
      r := Pass;
    }

    /**
     * A key press. The completion character sets the completion flag and goes
     * no further; any other character is lower-cased and pressed on the
     * recorder, and a `KeystrokeException` from it becomes one CORRUPTION.
     */
    method KeyPressed(c: char, time: int) returns (r: Outcome)
      requires Valid()
      modifies this, if recorder == null then {} else {recorder, recorder.sequence}
      modifies (if recorder == null then {} else recorder.sequence.LastSet())`next
      ensures Valid()
      ensures recorder == old(recorder) && observers == old(observers)
      ensures c == completionChar ==> r == Pass && inputCompleted
      ensures c == completionChar ==> delivered == old(delivered) && emitted == old(emitted)
      ensures c == completionChar && recorder != null ==>
                unchanged(old(recorder), old(recorder.sequence)) && unchanged(old(recorder.sequence.LastSet()))
      ensures c != completionChar ==> inputCompleted == old(inputCompleted)
      ensures c != completionChar && recorder == null ==>
                r == Raise(NullRecorder) && delivered == old(delivered) && emitted == old(emitted)
      ensures c != completionChar && recorder != null ==>
                var o := old(recorder.KeyDownOutcome(ToLower(c), time));
                && recorder.KeyDownEffect(ToLower(c), time)
                && (o.Err? && IsKeystrokeException(o.error) ==>
                      && r == Pass
                      && delivered == old(delivered) + Broadcast(observers, CORRUPTION)
                      && emitted == old(emitted) + [CORRUPTION])
                && (o.Err? && !IsKeystrokeException(o.error) ==>
                      r == Raise(o.error) && delivered == old(delivered) && emitted == old(emitted))
                && (o.Ok? ==> r == Pass && delivered == old(delivered) && emitted == old(emitted))
    {
      if completionChar == c {
        FlagCompletion();
        return Pass;
      }
      if recorder == null {
        return Raise(NullRecorder);
      }
      var down := recorder.KeyDown(ToLower(c), time);
      if down.Err? && IsKeystrokeException(down.error) {
        r := NotifyObservers(CORRUPTION);
      } else if down.Err? {
        r := Raise(down.error);
      } else {
        r := Pass;
      }
    }

    /**
     * A key release. The lower-cased character is released on the recorder
     * (the completion character too); UPDATE follows when that changed the
     * recorder, and COMPLETION follows whenever input is flagged complete and
     * no key is held, on every release until `Reset`.
     */
    method KeyReleased(c: char, time: int) returns (r: Outcome)
      requires Valid()
      modifies this, if recorder == null then {} else {recorder}
      modifies HeldFrame(c)`endTime, HeldFrame(c)`endTimeCaptured
      ensures Valid()
      ensures recorder == old(recorder) && observers == old(observers)
      ensures inputCompleted == old(inputCompleted)
      ensures recorder == null ==>
                r == Raise(NullRecorder) && delivered == old(delivered) && emitted == old(emitted)
      ensures recorder != null ==>
                var key := ToLower(c);
                var o := old(recorder.KeyUpOutcome(key, time));
                var completion := inputCompleted && recorder.activeKeys == map[];
                && recorder.KeyUpEffect(key, time, old(recorder.HeldRecord(key)))
                && (o.Err? ==> r == Raise(o.error) && delivered == old(delivered) && emitted == old(emitted))
                && (o.Ok? ==>
                      && r == Pass
                      && emitted == old(emitted) + (if o.value then [UPDATE] else [])
                                                 + (if completion then [COMPLETION] else [])
                      && delivered == old(delivered)
                                      + (if o.value then Broadcast(observers, UPDATE) else [])
                                      + (if completion then Broadcast(observers, COMPLETION) else []))
    {
      if recorder == null {
        return Raise(NullRecorder);
      }
      var up := recorder.KeyUp(ToLower(c), time);
      if up.Err? {
        return Raise(up.error);
      }
      if up.value {
        r := NotifyObservers(UPDATE);
      }
      if IsInputCompleted() && recorder.GetActiveKeys() == {} {
        r := NotifyObservers(COMPLETION);
      }
      r := Pass;
    }

    /** Asks observers to filter outliers; the recorder is not touched. */
    method FilterOutliers() returns (r: Outcome)
      modifies this`delivered, this`emitted
      ensures recorder == null ==> r == Raise(NullRecorder) && delivered == old(delivered) && emitted == old(emitted)
      ensures recorder != null ==>
                r == Pass && delivered == old(delivered) + Broadcast(observers, FILTER) && emitted == old(emitted) + [FILTER]
    {
      r := NotifyObservers(FILTER);
    }

    /** Asks observers to refresh their views; the recorder is not touched. */
    method RefreshViews() returns (r: Outcome)
      modifies this`delivered, this`emitted
      ensures recorder == null ==> r == Raise(NullRecorder) && delivered == old(delivered) && emitted == old(emitted)
      ensures recorder != null ==>
                r == Pass && delivered == old(delivered) + Broadcast(observers, REFRESH) && emitted == old(emitted) + [REFRESH]
    {
      r := NotifyObservers(REFRESH);
    }

    function IsInputCompleted(): (b: bool)
      reads this
      ensures b == inputCompleted
    {
      inputCompleted
    }

    method FlagCompletion()
      modifies this`inputCompleted
      ensures inputCompleted
    {
      inputCompleted := true;
    }

    /** Clears the completion flag and starts a new sequence on the recorder. */
    method Reset() returns (r: Outcome)
      requires Valid()
      modifies this`inputCompleted, (if recorder == null then {} else {recorder})`sequence
      ensures Valid() && !inputCompleted
      ensures recorder == null ==> r == Raise(NullRecorder)
      ensures recorder != null ==>
                && r == Pass
                && fresh(recorder.sequence)
                && recorder.sequence.keystrokes == [] && recorder.sequence.capturedValue == ""
                && recorder.activeKeys == old(recorder.activeKeys)
    {
      inputCompleted := false;
      if recorder == null {
        return Raise(NullRecorder);
      }
      recorder.Reset();
      r := Pass;
    }
  }

  /** A default director wired to a fresh recorder, with one observer registered. */
  method WiredDirector() returns (director: KeystrokeDirector, rec: KeystrokeRecorder)
    ensures fresh(director) && fresh(rec) && fresh(rec.sequence)
    ensures director.Valid() && director.recorder == rec && director.observers == [7]
    ensures director.completionChar == '\n' && !director.inputCompleted && director.delivered == []
    ensures rec.activeKeys == map[] && rec.sequence.keystrokes == [] && rec.factory.AcceptsCharacter('a')
  {
    var factory := LowerCaseKeystrokeFactory.CreateDefault();
    rec := new KeystrokeRecorder.WithFactory(factory);
    director := new KeystrokeDirector();
    director.SetRecorder(rec);
    director.AddObserver(7);
    assert factory.AcceptsCharacter('a');
  }

  /** Pressing `a` holds it and notifies nobody. */
  method PressedOneKey() returns (director: KeystrokeDirector, rec: KeystrokeRecorder)
    ensures fresh(director) && fresh(rec) && fresh(rec.sequence) && fresh(rec.sequence.LastSet())
    ensures director.Valid() && director.recorder == rec && director.observers == [7]
    ensures director.completionChar == '\n' && !director.inputCompleted && director.delivered == []
    ensures rec.activeKeys.Keys == {'a'} && fresh(rec.activeKeys['a']) && rec.activeKeys['a'].startTime == 10
  {
    director, rec := WiredDirector();
    assert rec.KeyDownOutcome('a', 10) == Ok(true);
    var pressed := director.KeyPressed('a', 10);
  }

  /** One observer watching a session: typing `a` gives exactly one UPDATE. */
  method TypedOneKey() returns (director: KeystrokeDirector, rec: KeystrokeRecorder)
    ensures fresh(director) && fresh(rec) && fresh(rec.sequence) && fresh(rec.sequence.LastSet())
    ensures director.Valid() && director.recorder == rec && director.observers == [7]
    ensures director.completionChar == '\n' && !director.inputCompleted && rec.activeKeys == map[]
    ensures director.delivered == [Delivery(7, UPDATE)]
  {
    director, rec := PressedOneKey();
    assert rec.KeyUpOutcome('a', 20) == Ok(true);
    var released := director.KeyReleased('a', 20);
  }

  /** Pressing the completion character flags completion and notifies nobody. */
  method CompletedSession() returns (director: KeystrokeDirector, rec: KeystrokeRecorder)
    ensures fresh(director) && fresh(rec)
    ensures director.Valid() && director.recorder == rec && director.observers == [7]
    ensures director.inputCompleted && rec.activeKeys == map[]
    ensures director.delivered == [Delivery(7, UPDATE)]
  {
    director, rec := TypedOneKey();
    var completed := director.KeyPressed('\n', 30);
  }

  /**
   * Once completion is flagged, every release with no key held gives
   * COMPLETION again, whether or not it released anything.
   */
  method CompletionRepeatsUntilReset() returns (calls: seq<Delivery>)
    ensures calls == [Delivery(7, UPDATE), Delivery(7, COMPLETION), Delivery(7, COMPLETION)]
  {
    var director, rec := CompletedSession();
    var released := director.KeyReleased('\n', 40);
    assert director.delivered == [Delivery(7, UPDATE), Delivery(7, COMPLETION)];
    assert director.Valid() && rec.activeKeys == map[];
    released := director.KeyReleased('b', 50);
    calls := director.delivered;
  }
}
