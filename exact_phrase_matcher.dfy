/**
 * The exact-phrase gate (`ExactPhraseMatcher.java`): a captured sequence
 * matches when its text is exactly the phrase.
 */
module PhraseMatchers {
  import opened Failures
  import opened Sequences

  /** The two distances every matcher can report (`KeystrokeMatcher.java`). */
  const EXACT_MATCH: real := 1.0
  const NO_MATCH: real := 0.0

  datatype ExactPhraseMatcher = ExactPhraseMatcher(phrase: string)
  {
    /** Distance to a text: EXACT_MATCH when it is the phrase, NO_MATCH otherwise. */
    function DistanceTo(captured: string): (d: real)
      ensures d == EXACT_MATCH <==> captured == phrase
      ensures d == NO_MATCH <==> captured != phrase
    {
      if phrase == captured then EXACT_MATCH else NO_MATCH
    }

    /** Distance to a captured sequence, judged on its text alone. */
    function GetDistance(sequence: KeystrokeSequence): (d: real)
      reads sequence
      ensures d == EXACT_MATCH <==> sequence.capturedValue == phrase
      ensures d == EXACT_MATCH || d == NO_MATCH
    {
      DistanceTo(sequence.capturedValue)
    }

    function GetTextToMatch(): (p: string)
      ensures p == phrase
    {
      phrase
    }
  }

  /** The Java constructor: a null or empty phrase is rejected. */
  function NewExactPhraseMatcher(phrase: Option<string>): (r: Result<ExactPhraseMatcher>)
    ensures phrase.None? ==> r == Err(NullPhrase)
    ensures phrase == Some("") ==> r == Err(EmptyPhrase)
    ensures r.Ok? <==> phrase.Some? && phrase.value != ""
    ensures r.Ok? ==> r.value.GetTextToMatch() == phrase.value
  {
    match phrase
    case None => Err(NullPhrase)
    case Some(p) => if |p| == 0 then Err(EmptyPhrase) else Ok(ExactPhraseMatcher(p))
  }

  /** Typing only part of the phrase, or more than the phrase, is no match. */
  lemma PrefixOrExtensionIsNoMatch(m: ExactPhraseMatcher, captured: string)
    requires captured != m.phrase
    requires captured <= m.phrase || m.phrase <= captured
    ensures m.DistanceTo(captured) == NO_MATCH
  {
  }

  /** A constructed matcher never matches the empty text. */
  lemma EmptyTextNeverMatches(phrase: Option<string>)
    requires NewExactPhraseMatcher(phrase).Ok?
    ensures NewExactPhraseMatcher(phrase).value.DistanceTo("") == NO_MATCH
  {
  }
}
