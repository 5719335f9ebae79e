/**
 * The case-folding character policy (`LowerCaseKeystrokeFactory.java`): it
 * accepts a character when its lower-case form is in the configured set and
 * builds keystroke records holding that lower-case form.
 */
module Factories {
  import opened Failures
  import opened Characters
  import opened Keystrokes

  /** The lower-case image of a character set. */
  function LowerImage(chars: set<char>): (image: set<char>)
    ensures forall c :: c in chars ==> ToLower(c) in image
    ensures forall l :: l in image ==> !IsUpperAscii(l)
  {
    set c | c in chars :: ToLower(c)
  }

  /** A character's lower-case form is in the image exactly when some member folds to it. */
  lemma LowerImageMembers(chars: set<char>, c: char)
    ensures ToLower(c) in LowerImage(chars) <==> exists d :: d in chars && ToLower(d) == ToLower(c)
  {
  }

  /** The default set is already folded, so its image is itself. */
  lemma DefaultCharsetImage()
    ensures LowerImage(DEFAULT_CHARSET) == DEFAULT_CHARSET
  {
    forall c | c in DEFAULT_CHARSET ensures ToLower(c) == c {
      DefaultCharsetIsFolded(c);
    }
    assert forall l :: l in LowerImage(DEFAULT_CHARSET) ==> l in DEFAULT_CHARSET;
  }

  class LowerCaseKeystrokeFactory {
    const validCharacters: set<char>

    /** Fills the accepted set with the lower-case form of each given character. */
    constructor FromCharacters(chars: set<char>)
      requires chars != {}
      ensures validCharacters == LowerImage(chars)
    {
      var remaining := chars;
      var folded: set<char> := {};
      while remaining != {}
        invariant remaining <= chars
        invariant folded == LowerImage(chars - remaining)
        decreases remaining
      {
        var c :| c in remaining;
        folded := folded + {ToLower(c)};
        remaining := remaining - {c};
        assert chars - remaining == (chars - (remaining + {c})) + {c};
      }
      assert chars - remaining == chars;
      validCharacters := folded;
    }

    /** The Java constructor taking a set: null and empty sets are rejected. */
    static method Create(chars: Option<set<char>>) returns (r: Result<LowerCaseKeystrokeFactory>)
      ensures chars.None? ==> r == Err(NullCharacterSet)
      ensures chars == Some({}) ==> r == Err(EmptyCharacterSet)
      ensures chars.Some? && chars.value != {} ==>
                r.Ok? && fresh(r.value) && r.value.validCharacters == LowerImage(chars.value)
    {
      if chars.None? {
        return Err(NullCharacterSet);
      }
      if chars.value == {} {
        return Err(EmptyCharacterSet);
      }
      var f := new LowerCaseKeystrokeFactory.FromCharacters(chars.value);
      r := Ok(f);
    }

    /** The default constructor: exactly the digits and the lower-case letters. */
    static method CreateDefault() returns (f: LowerCaseKeystrokeFactory)
      ensures fresh(f)
      ensures forall c :: c in f.validCharacters <==> IsDigit(c) || IsLowerAscii(c)
    {
      f := new LowerCaseKeystrokeFactory.FromCharacters(DEFAULT_CHARSET);
      DefaultCharsetImage();
      forall c ensures c in f.validCharacters <==> IsDigit(c) || IsLowerAscii(c) {
        DefaultCharsetIsDigitsAndLowerCase(c);
      }
    }

    /** Whether `c`, once folded to lower case, is in the accepted set. */
    function AcceptsCharacter(c: char): (accepted: bool)
      ensures accepted <==> ToLower(c) in validCharacters
      ensures accepted <==> ToLower(ToUpper(c)) in validCharacters
    {
      ToLowerIdempotent(c);
      ToLower(c) in validCharacters
    }

    /** Builds a record for `c` pressed at `startTime`, holding `c`'s lower-case form. */
    method CreateKeystroke(c: char, startTime: int) returns (r: Result<Keystroke>)
      ensures !AcceptsCharacter(c) ==> r == Err(InvalidCharacter)
      ensures AcceptsCharacter(c) && startTime < 0 ==> r == Err(NegativeStartTime)
      ensures AcceptsCharacter(c) && startTime >= 0 ==> r.Ok?
      ensures r.Ok? ==> fresh(r.value) && r.value.Valid()
      ensures r.Ok? ==> r.value.value == ToLower(c) && r.value.startTime == startTime
      ensures r.Ok? ==> !r.value.endTimeCaptured && r.value.prior == null && r.value.next == null
    {
      var lowerCaseInput := ToLower(c);
      if lowerCaseInput !in validCharacters {
        return Err(InvalidCharacter);
      }
      r := NewKeystroke(lowerCaseInput, startTime);
    }
  }

  /**
   * Acceptance ignores case, and for a factory built from `chars` a character
   * is accepted exactly when some member of `chars` has the same lower-case form.
   */
  lemma AcceptsCaseInsensitive(f: LowerCaseKeystrokeFactory, chars: set<char>, c: char)
    requires f.validCharacters == LowerImage(chars)
    ensures f.AcceptsCharacter(c) <==> exists d :: d in chars && ToLower(d) == ToLower(c)
    ensures f.AcceptsCharacter(c) <==> f.AcceptsCharacter(ToUpper(c))
    ensures f.AcceptsCharacter(c) <==> f.AcceptsCharacter(ToLower(c))
  {
    LowerImageMembers(chars, c);
    ToLowerIdempotent(c);
  }
}
