/**
 * The session recorder (`KeystrokeRecorderImpl.java`): a per-character
 * active/inactive state machine. It keeps a map from character to the record
 * of the key currently held down and the live sequence being typed.
 *
 * Two behaviours of the source are kept as they are. `KeyDown` looks the raw
 * key up in the map but stores the new record under its lower-cased value,
 * so a raw upper-case key is never found active. `Reset` replaces the
 * sequence but leaves the map of held keys untouched.
 */
module Recorders {
  import opened Failures
  import opened Characters
  import opened Keystrokes
  import opened Sequences
  import opened Factories

  class KeystrokeRecorder {
    var activeKeys: map<char, Keystroke>
    const factory: LowerCaseKeystrokeFactory
    var sequence: KeystrokeSequence

    /** Everything a recorder operation may read or change. */
    ghost function Footprint(): set<object>
      reads this, sequence
    {
      {this, sequence} + (set k | k in sequence.keystrokes) + activeKeys.Values
    }

    /**
     * The live sequence is valid and its first record has no prior; every
     * held key maps to a valid, unreleased record whose value is that key.
     */
    ghost predicate Valid()
      reads this, sequence, Footprint()
    {
      && sequence.Valid()
      && (sequence.keystrokes != [] ==> sequence.keystrokes[0].prior == null)
      && (forall c :: c in activeKeys ==> ActiveRecordOk(c))
    }

    ghost predicate ActiveRecordOk(c: char)
      requires c in activeKeys
      reads this, activeKeys.Values
    {
      var k := activeKeys[c];
      k.value == c && !k.endTimeCaptured && k.Valid()
    }

    constructor WithFactory(factory: LowerCaseKeystrokeFactory)
      ensures Valid() && fresh(sequence)
      ensures this.factory == factory
      ensures activeKeys == map[] && sequence.keystrokes == [] && sequence.capturedValue == ""
    {
      this.factory := factory;
      activeKeys := map[];
      sequence := new KeystrokeSequence();
    }

    /** The Java constructor: a null factory is rejected. */
    static method Create(factory: LowerCaseKeystrokeFactory?) returns (r: Result<KeystrokeRecorder>)
      ensures factory == null ==> r == Err(NullFactory)
      ensures factory != null ==> r.Ok? && fresh(r.value) && fresh(r.value.sequence)
      ensures r.Ok? ==> r.value.Valid() && r.value.factory == factory
      ensures r.Ok? ==> r.value.activeKeys == map[]
      ensures r.Ok? ==> r.value.sequence.keystrokes == [] && r.value.sequence.capturedValue == ""
    {
      if factory == null {
        return Err(NullFactory);
      }
      var rec := new KeystrokeRecorder.WithFactory(factory);
      r := Ok(rec);
    }

    /** What `KeyDown(key, time)` returns, as a function of the state before the call. */
    ghost function KeyDownOutcome(key: char, time: int): Result<bool>
      reads this, sequence, sequence.LastSet()
    {
      if key in activeKeys then Ok(false)
      else if !factory.AcceptsCharacter(key) then Err(KeyNotAllowed)
      else if time < 0 then Err(NegativeStartTime)
      else if sequence.keystrokes == [] then Ok(true)
      else
        var last := sequence.keystrokes[|sequence.keystrokes| - 1];
        if last.startTime > time then Err(LinkOutOfOrder)
        else if last.next != null then Err(LinkAlreadySet)
        else Ok(true)
    }

    /**
     * The state change of `KeyDown(key, time)`: nothing changes for a held key,
     * an unaccepted key or a negative time; otherwise a fresh record for the
     * lower-cased key is held, the text grows by that character and, unless
     * linking failed, the record is appended to the sequence. Unless the record
     * is appended, the last record's link to a successor is kept; when only
     * that link was already taken, the new record still points back to it.
     */
    twostate predicate KeyDownEffect(key: char, time: int)
      reads this, sequence, activeKeys.Values, sequence.LastSet()
    {
      var o := old(KeyDownOutcome(key, time));
      var l := ToLower(key);
      && sequence == old(sequence)
      && (o == Ok(false) || o == Err(KeyNotAllowed) || o == Err(NegativeStartTime) ==>
            && activeKeys == old(activeKeys)
            && sequence.keystrokes == old(sequence.keystrokes)
            && sequence.capturedValue == old(sequence.capturedValue))
      && (o == Ok(true) || o == Err(LinkOutOfOrder) || o == Err(LinkAlreadySet) ==>
            && l in activeKeys
            && fresh(activeKeys[l])
            && activeKeys == old(activeKeys)[l := activeKeys[l]]
            && activeKeys[l].startTime == time
            && activeKeys[l].value == l
            && !activeKeys[l].endTimeCaptured
            && activeKeys[l].next == null
            && sequence.capturedValue == old(sequence.capturedValue) + [l]
            && sequence.keystrokes ==
                 if o == Ok(true) then old(sequence.keystrokes) + [activeKeys[l]]
                 else old(sequence.keystrokes))
      && (o != Ok(true) && old(sequence.keystrokes) != [] ==>
            var last := old(sequence.keystrokes)[|old(sequence.keystrokes)| - 1];
            last.next == old(last.next))
      && (o == Err(LinkOutOfOrder) ==> l in activeKeys && activeKeys[l].prior == null)
      && (o == Err(LinkAlreadySet) ==>
            && l in activeKeys && old(sequence.keystrokes) != []
            && activeKeys[l].prior == old(sequence.keystrokes)[|old(sequence.keystrokes)| - 1])
    }

    /**
     * A key press. Returns false for a key already held; rejects a key the
     * factory does not accept; otherwise records a new keystroke and returns true.
     */
    method KeyDown(key: char, time: int) returns (r: Result<bool>)
      requires Valid()
      modifies this, sequence, sequence.LastSet()`next
      ensures Valid()
      ensures r == old(KeyDownOutcome(key, time))
      ensures KeyDownEffect(key, time)
    {
      if key in activeKeys {
        return Ok(false);
      }
      if !factory.AcceptsCharacter(key) {
        return Err(KeyNotAllowed);
      }
      var created := factory.CreateKeystroke(key, time);
      if created.Err? {
        return Err(created.error);
      }
      r := HoldAndAppend(created.value);
    }

    /**
     * The second half of a press: `k`, a new record, becomes held under its
     * value, and is then appended to the sequence.
     */
    method HoldAndAppend(k: Keystroke) returns (r: Result<bool>)
      requires Valid() && k.Valid() && k !in Footprint()
      requires k.prior == null && k.next == null && !k.endTimeCaptured
      modifies this`activeKeys, sequence, k`prior, sequence.LastSet()`next
      ensures Valid()
      ensures activeKeys == old(activeKeys)[k.value := k]
      ensures sequence.capturedValue == old(sequence.capturedValue) + [k.value]
      ensures var o := old(sequence.LinkOutcome(k));
              r == if o.Pass? then Ok(true) else Err(o.error)
      ensures sequence.keystrokes == if r == Ok(true) then old(sequence.keystrokes) + [k] else old(sequence.keystrokes)
      ensures r != Ok(true) && old(sequence.keystrokes) != [] ==>
                var last := old(sequence.keystrokes)[|old(sequence.keystrokes)| - 1];
                && last.next == old(last.next)
                && k.prior == (if last.startTime <= k.startTime then last else null)
    {
      activeKeys := activeKeys[k.value := k];
      var added := sequence.AddKeystroke(k);
      if added.Raise? {
        return Err(added.error);
      }
      r := Ok(true);
    }

    /** What `KeyUp(key, time)` returns, as a function of the state before the call. */
    ghost function KeyUpOutcome(key: char, time: int): Result<bool>
      reads this, activeKeys.Values
    {
      if key !in activeKeys then Ok(false)
      else if time < activeKeys[key].startTime then Err(ReleaseBeforeStart)
      else Ok(true)
    }

    /** The record held for `key`, or null when the key is not held. */
    function HeldRecord(key: char): (k: Keystroke?)
      reads this
      ensures k != null <==> key in activeKeys
      ensures k != null ==> k == activeKeys[key]
    {
      if key in activeKeys then activeKeys[key] else null
    }

    /**
     * The state change of `KeyUp(key, time)`, given the record `held` for the
     * key before the call: a key that is not held changes nothing; a held key
     * stops being held, and its record is released at `time` unless that
     * precedes the press.
     */
    twostate predicate KeyUpEffect(key: char, time: int, held: Keystroke?)
      reads this, held
    {
      && sequence == old(sequence)
      && (key !in old(activeKeys) ==> activeKeys == old(activeKeys))
      && (key in old(activeKeys) ==>
            && held != null
            && held == old(activeKeys[key])
            && activeKeys == old(activeKeys) - {key}
            && (time >= held.startTime ==> held.endTimeCaptured && held.endTime == time)
            && (time < held.startTime ==> !held.endTimeCaptured && held.endTime == old(held.endTime)))
    }

    /**
     * A key release. Returns false for a key that is not held; otherwise the
     * key stops being held and its record is released at `time`.
     */
    method KeyUp(key: char, time: int) returns (r: Result<bool>)
      requires Valid()
      modifies this, (if key in activeKeys then {activeKeys[key]} else {})`endTime
      modifies (if key in activeKeys then {activeKeys[key]} else {})`endTimeCaptured
      ensures Valid()
      ensures r == old(KeyUpOutcome(key, time))
      ensures KeyUpEffect(key, time, old(HeldRecord(key)))
    {
      if key !in activeKeys {
        return Ok(false);
      }
      var keystroke := activeKeys[key];
      activeKeys := activeKeys - {key};
      assert forall c :: c in activeKeys ==> activeKeys[c] != keystroke;
      var released := keystroke.Release(time);
      if released.Raise? {
        return Err(released.error);
      }
      r := Ok(true);
    }

    /** A snapshot of the sequence so far: a new container with the same records and text. */
    method GetResult() returns (result: KeystrokeSequence)
      requires Valid()
      ensures fresh(result) && result.Valid()
      ensures result.keystrokes == sequence.keystrokes
      ensures result.capturedValue == sequence.capturedValue
    {
      result := sequence.CreateCopy();
    }

    /** The characters currently held down, each backed by an unreleased record. */
    function GetActiveKeys(): (keys: set<char>)
      reads this, sequence, Footprint()
      ensures keys == activeKeys.Keys
      ensures Valid() ==> forall c :: c in keys ==> ActiveRecordOk(c)
    {
      activeKeys.Keys
    }

    /** Starts a new, empty sequence; the held keys are kept. */
    method Reset()
      requires Valid()
      modifies this`sequence
      ensures Valid() && fresh(sequence)
      ensures sequence.keystrokes == [] && sequence.capturedValue == ""
      ensures activeKeys == old(activeKeys)
    {
      sequence := new KeystrokeSequence();
    }
  }

  /**
   * One tap of a key that is not held: press at `down`, release at `up`. The
   * tap extends the text and the chain by one record and leaves the key released.
   */
  method Tap(rec: KeystrokeRecorder, key: char, down: int, up: int)
    requires rec.Valid()
    requires ToLower(key) == key && key !in rec.activeKeys && rec.factory.AcceptsCharacter(key)
    requires 0 <= down <= up
    requires rec.sequence.keystrokes != [] ==>
               var last := rec.sequence.keystrokes[|rec.sequence.keystrokes| - 1];
               last.startTime <= down && last.next == null
    modifies rec, rec.sequence, rec.sequence.LastSet()`next
    ensures rec.Valid() && rec.sequence == old(rec.sequence)
    ensures rec.activeKeys == old(rec.activeKeys)
    ensures rec.sequence.capturedValue == old(rec.sequence.capturedValue) + [key]
    ensures |rec.sequence.keystrokes| == |old(rec.sequence.keystrokes)| + 1
    ensures var last := rec.sequence.keystrokes[|rec.sequence.keystrokes| - 1];
            fresh(last) && last.startTime == down && last.next == null && last.endTime == up
  {
    var pressed := rec.KeyDown(key, down);
    assert pressed == Ok(true);
    var released := rec.KeyUp(key, up);
  }

  /** Typing `a` three times (press and release each) captures "aaa". */
  method TypeTheSameKeyThreeTimes() returns (captured: string, held: set<char>)
    ensures captured == "aaa"
    ensures held == {}
  {
    var factory := LowerCaseKeystrokeFactory.CreateDefault();
    var rec := new KeystrokeRecorder.WithFactory(factory);
    assert factory.AcceptsCharacter('a');
    Tap(rec, 'a', 10, 20);
    Tap(rec, 'a', 30, 40);
    Tap(rec, 'a', 50, 60);
    var result := rec.GetResult();
    captured := result.capturedValue;
    held := rec.GetActiveKeys();
  }

  /**
   * Pressing a key that is already held reports false and changes nothing, so
   * a later press of another accepted key still links and reports true.
   */
  method RepeatedPressIsIgnored() returns (again: Result<bool>, other: Result<bool>, captured: string)
    ensures again == Ok(false) && other == Ok(true)
    ensures captured == "ab"
  {
    var factory := LowerCaseKeystrokeFactory.CreateDefault();
    var rec := new KeystrokeRecorder.WithFactory(factory);
    assert factory.AcceptsCharacter('a') && factory.AcceptsCharacter('b');
    var first := rec.KeyDown('a', 10);
    assert first == Ok(true);
    again := rec.KeyDown('a', 15);
    assert rec.KeyDownOutcome('b', 20) == Ok(true);
    other := rec.KeyDown('b', 20);
    var result := rec.GetResult();
    captured := result.capturedValue;
  }
}
