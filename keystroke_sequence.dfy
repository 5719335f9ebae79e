/**
 * An append-only chain of keystroke records plus the text typed so far
 * (`KeystrokeSequence.java`). Appending links the new record to the previous
 * last one; the text is extended before the linking is attempted, so a link
 * failure leaves the text one character longer than the chain.
 */
module Sequences {
  import opened Failures
  import opened Keystrokes

  class KeystrokeSequence {
    var keystrokes: seq<Keystroke>
    var capturedValue: string

    /**
     * The text is never shorter than the chain, every record is valid, and
     * each record after the first is linked both ways to its predecessor.
     */
    ghost predicate Valid()
      reads this, set k | k in keystrokes
    {
      && |keystrokes| <= |capturedValue|
      && (forall k :: k in keystrokes ==> k.Valid())
      && (forall i :: 0 < i < |keystrokes| ==>
            keystrokes[i].prior == keystrokes[i - 1] && keystrokes[i - 1].next == keystrokes[i])
    }

    constructor ()
      ensures Valid()
      ensures keystrokes == [] && capturedValue == ""
    {
      keystrokes := [];
      capturedValue := "";
    }

    /** The last record as a (possibly empty) set, for frames. */
    ghost function LastSet(): set<Keystroke>
      reads this
    {
      if keystrokes == [] then {} else {keystrokes[|keystrokes| - 1]}
    }

    /**
     * What linking `k` behind the current last record will report: the
     * checks of `setPrior` on `k`, then those of `setNext` on the last record.
     */
    ghost function LinkOutcome(k: Keystroke): Outcome
      reads this, k, LastSet()
    {
      if keystrokes == [] then Pass
      else
        var last := keystrokes[|keystrokes| - 1];
        if k.prior != null then Raise(LinkAlreadySet)
        else if last.startTime > k.startTime then Raise(LinkOutOfOrder)
        else if last.next != null then Raise(LinkAlreadySet)
        else Pass
    }

    /** The text typed so far; never shorter than the chain. */
    function GetCapturedValue(): (v: string)
      reads this, set k | k in keystrokes
      ensures Valid() ==> |v| >= |keystrokes|
    {
      capturedValue
    }

    /** Appends `k`, extending the text first and then linking it to the last record. */
    method AddKeystroke(k: Keystroke?) returns (r: Outcome)
      requires Valid()
      requires k != null ==> k.Valid()
      modifies this, (if k == null then {} else {k})`prior, LastSet()`next
      ensures Valid()
      ensures k == null ==> r == Raise(NullKeystroke) && unchanged(this) && unchanged(LastSet())
      ensures k != null ==> capturedValue == old(capturedValue) + [k.value]
      ensures k != null ==> r == old(LinkOutcome(k))
      ensures keystrokes == if r == Pass then old(keystrokes) + [k] else old(keystrokes)
      ensures old(keystrokes) == [] && k != null ==> k.prior == old(k.prior)
      ensures old(keystrokes) != [] && r == Pass ==>
                var last := old(keystrokes[|keystrokes| - 1]);
                k.prior == last && last.next == k
      ensures k != null && old(keystrokes) != [] && r != Pass ==>
                var last := old(keystrokes[|keystrokes| - 1]);
                last.next == old(last.next) &&
                k.prior == (if old(k.prior) == null && last.startTime <= k.startTime
                            then last else old(k.prior))
    {
      if k == null {
        return Raise(NullKeystroke);
      }
      capturedValue := capturedValue + [k.value];
      r := LinkToPriorKeystroke(k);
      if r == Pass {
        keystrokes := keystrokes + [k];
      }
    }

    /** Links `k` behind the current last record, if there is one. */
    method LinkToPriorKeystroke(k: Keystroke) returns (r: Outcome)
      requires Valid() && k.Valid()
      modifies k`prior, LastSet()`next
      ensures Valid() && k.Valid()
      ensures r == old(LinkOutcome(k))
      ensures keystrokes == [] ==> k.prior == old(k.prior)
      ensures keystrokes != [] && r == Pass ==>
                k.prior == keystrokes[|keystrokes| - 1] && keystrokes[|keystrokes| - 1].next == k
      ensures keystrokes != [] && r != Pass ==>
                var last := keystrokes[|keystrokes| - 1];
                last.next == old(last.next) &&
                k.prior == (if old(k.prior) == null && last.startTime <= k.startTime
                            then last else old(k.prior))
      ensures r == Pass && keystrokes != [] ==> ValidAfterAppend(k)
    {
      if keystrokes == [] {
        return Pass;
      }
      var prior := keystrokes[|keystrokes| - 1];
      r := k.SetPrior(prior);
      if r != Pass {
        return;
      }
      r := prior.SetNext(k);
      if r != Pass {
        return;
      }
    }

    /** The chain invariant holds of the chain extended by `k`. */
    ghost predicate ValidAfterAppend(k: Keystroke)
      reads this, (set x | x in keystrokes), k
    {
      var ks := keystrokes + [k];
      && (forall x :: x in ks ==> x.Valid())
      && (forall i :: 0 < i < |ks| ==> ks[i].prior == ks[i - 1] && ks[i - 1].next == ks[i])
    }

    /** An independent container holding the same records and the same text. */
    method CreateCopy() returns (copy: KeystrokeSequence)
      requires Valid()
      ensures fresh(copy) && copy.Valid()
      ensures copy.keystrokes == keystrokes && copy.capturedValue == capturedValue
    {
      copy := new KeystrokeSequence();
      copy.keystrokes := keystrokes;
      copy.capturedValue := capturedValue;
    }

    /** The most recently appended record, or null when the chain is empty. */
    function GetMostRecentKeystroke(): (k: Keystroke?)
      reads this
      ensures k == null <==> keystrokes == []
      ensures k != null ==> k == keystrokes[|keystrokes| - 1]
    {
      if |keystrokes| > 0 then keystrokes[|keystrokes| - 1] else null
    }

    /** The first record, or null when the chain is empty. */
    function GetFirstKeystroke(): (k: Keystroke?)
      reads this
      ensures k == null <==> keystrokes == []
      ensures k != null ==> k == keystrokes[0]
    {
      if keystrokes != [] then keystrokes[0] else null
    }

    /** The record at a 0-based index; out of range is the list's index error. */
    function GetKeystroke(index: int): (r: Result<Keystroke>)
      reads this
      ensures r.Ok? <==> 0 <= index < |keystrokes|
      ensures r.Ok? ==> r.value == keystrokes[index]
      ensures r.Err? ==> r.error == MissingPosition
    {
      if 0 <= index < |keystrokes| then Ok(keystrokes[index]) else Err(MissingPosition)
    }
  }

  /** Records of a valid chain are in non-decreasing order of start time. */
  lemma {:induction false} StartTimesOrdered(s: KeystrokeSequence, i: int, j: int)
    requires s.Valid()
    requires 0 <= i <= j < |s.keystrokes|
    ensures s.keystrokes[i].startTime <= s.keystrokes[j].startTime
  {
    if i < j {
      StartTimesOrdered(s, i, j - 1);
      var k := s.keystrokes[j];
      assert k in s.keystrokes && k.Valid();
      assert k.prior == s.keystrokes[j - 1];
    }
  }

  /** Within a valid chain, a record's flight time is measured against its predecessor. */
  lemma FlightMeasuredAgainstPredecessor(s: KeystrokeSequence, i: int)
    requires s.Valid()
    requires 0 < i < |s.keystrokes|
    ensures var k, p := s.keystrokes[i], s.keystrokes[i - 1];
            k.FlightTime() == if p.endTime == 0 then 0 else k.startTime - p.endTime
  {
  }

  /** Appending to the original after copying changes neither the copy's chain nor its text. */
  method CopyIsIndependent(s: KeystrokeSequence, k: Keystroke) returns (copy: KeystrokeSequence)
    requires s.Valid() && k.Valid()
    modifies s, k`prior, s.LastSet()`next
    ensures fresh(copy)
    ensures copy.keystrokes == old(s.keystrokes) && copy.capturedValue == old(s.capturedValue)
    ensures s.capturedValue == old(s.capturedValue) + [k.value]
  {
    copy := s.CreateCopy();
    var _ := s.AddKeystroke(k);
  }
}
