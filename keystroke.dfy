/**
 * One keystroke timing record (`Keystroke.java`): the typed character, the
 * time it was pressed, a write-once release time, and write-once links to the
 * keystrokes typed just before and just after it.
 */
module Keystrokes {
  import opened Failures

  class Keystroke {
    const value: char
    const startTime: int
    var endTime: int
    var endTimeCaptured: bool
    var prior: Keystroke?
    var next: Keystroke?

    /** The record's invariant; every operation of the class keeps it. */
    ghost predicate Valid()
      reads this
    {
      && startTime >= 0
      && (endTimeCaptured ==> endTime >= startTime)
      && (!endTimeCaptured ==> endTime == 0)
      && (prior != null ==> prior.startTime <= startTime)
      && (next != null ==> next.startTime >= startTime)
    }

    /** The allocation part of the Java constructor, once its check has passed. */
    constructor Init(value: char, startTime: int)
      requires startTime >= 0
      ensures Valid()
      ensures this.value == value && this.startTime == startTime
      ensures !endTimeCaptured && endTime == 0 && prior == null && next == null
    {
      this.value := value;
      this.startTime := startTime;
      endTime := 0;
      endTimeCaptured := false;
      prior := null;
      next := null;
    }

    /** Links the keystroke typed just before this one; succeeds at most once. */
    method SetPrior(p: Keystroke?) returns (r: Outcome)
      requires Valid()
      modifies this`prior
      ensures Valid()
      ensures r == Pass <==> p != null && old(prior) == null && p.startTime <= startTime
      ensures prior == if r == Pass then p else old(prior)
      ensures p == null ==> r == Raise(NullLink)
      ensures p != null && old(prior) != null ==> r == Raise(LinkAlreadySet)
      ensures p != null && old(prior) == null && p.startTime > startTime ==> r == Raise(LinkOutOfOrder)
    {
      if p == null {
        return Raise(NullLink);
      }
      if prior != null {
        return Raise(LinkAlreadySet);
      }
      if p.startTime > startTime {
        return Raise(LinkOutOfOrder);
      }
      prior := p;
      r := Pass;
    }

    /** Links the keystroke typed just after this one; succeeds at most once. */
    method SetNext(n: Keystroke?) returns (r: Outcome)
      requires Valid()
      modifies this`next
      ensures Valid()
      ensures r == Pass <==> n != null && old(next) == null && n.startTime >= startTime
      ensures next == if r == Pass then n else old(next)
      ensures n == null ==> r == Raise(NullLink)
      ensures n != null && old(next) != null ==> r == Raise(LinkAlreadySet)
      ensures n != null && old(next) == null && n.startTime < startTime ==> r == Raise(LinkOutOfOrder)
    {
      if n == null {
        return Raise(NullLink);
      }
      if next != null {
        return Raise(LinkAlreadySet);
      }
      if n.startTime < startTime {
        return Raise(LinkOutOfOrder);
      }
      next := n;
      r := Pass;
    }

    /** Whether the key has been released; an unreleased record's end time reads 0. */
    function IsReleased(): (b: bool)
      reads this
      ensures Valid() && !b ==> endTime == 0
      ensures Valid() && b ==> endTime >= startTime
    {
      endTimeCaptured
    }

    /** Records the release time; succeeds at most once and never before the press. */
    method Release(t: int) returns (r: Outcome)
      requires Valid()
      modifies this`endTime, this`endTimeCaptured
      ensures Valid()
      ensures old(endTimeCaptured) ==> r == Raise(AlreadyReleased) && unchanged(this)
      ensures !old(endTimeCaptured) && t < startTime ==>
                r == Raise(ReleaseBeforeStart) && unchanged(this)
      ensures !old(endTimeCaptured) && t >= startTime ==>
                r == Pass && endTimeCaptured && endTime == t && DwellTime() == t - startTime
    {
      if endTimeCaptured {
        return Raise(AlreadyReleased);
      }
      if t < startTime {
        return Raise(ReleaseBeforeStart);
      }
      endTime := t;
      endTimeCaptured := true;
      r := Pass;
    }

    /** How long the key was held: 0 until released, never negative. */
    function DwellTime(): (d: int)
      reads this
      ensures !endTimeCaptured ==> d == 0
      ensures Valid() ==> d >= 0
      ensures Valid() && endTimeCaptured ==> d <= endTime
    {
      if endTimeCaptured then endTime - startTime else 0
    }

    /**
     * The gap between the prior key's release and this key's press. The source
     * takes a prior end time of 0 to mean "not released yet", so the value is
     * 0 without a prior or with such a prior; it is negative when presses overlap.
     */
    function FlightTime(): (f: int)
      reads this, prior
      ensures prior == null ==> f == 0
      ensures prior != null && prior.endTime == 0 ==> f == 0
      ensures prior != null && !prior.endTimeCaptured && prior.Valid() ==> f == 0
      ensures prior != null && prior.endTime != 0 ==> f + prior.endTime == startTime
    {
      if prior == null || prior.endTime == 0 then 0 else startTime - prior.endTime
    }
  }

  /** The Java constructor: a negative start time is rejected. */
  method NewKeystroke(value: char, startTime: int) returns (r: Result<Keystroke>)
    ensures r.Err? <==> startTime < 0
    ensures r.Err? ==> r.error == NegativeStartTime
    ensures r.Ok? ==> fresh(r.value) && r.value.Valid()
    ensures r.Ok? ==> r.value.value == value && r.value.startTime == startTime
    ensures r.Ok? ==> !r.value.endTimeCaptured && r.value.prior == null && r.value.next == null
  {
    if startTime < 0 {
      return Err(NegativeStartTime);
    }
    var k := new Keystroke.Init(value, startTime);
    r := Ok(k);
  }

  /** A negative flight time is computed, not rejected: overlapping presses yield one. */
  lemma OverlappingPressesGiveNegativeFlight(k: Keystroke)
    requires k.Valid() && k.prior != null && k.prior.Valid()
    requires k.prior.endTimeCaptured && k.prior.endTime > k.startTime
    ensures k.FlightTime() < 0
  {
  }
}
