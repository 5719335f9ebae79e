/**
 * The username and password check (`FieldValidator.java`): a field is valid
 * when it is present, long enough, and every character folds into the
 * default character set.
 */
module FieldValidators {
  import opened Failures
  import opened Characters

  /** Every character of `s`, lower-cased, is a digit or a lower-case letter. */
  predicate AllFoldIntoDefaultCharset(s: string) {
    forall i :: 0 <= i < |s| ==> ToLower(s[i]) in DEFAULT_CHARSET
  }

  /** When a field counts as valid. */
  predicate ValidField(input: Option<string>, minLength: int) {
    input.Some? && |input.value| >= minLength && AllFoldIntoDefaultCharset(input.value)
  }

  /** Scans the characters in order and stops at the first one outside the set. */
  method IsValid(input: Option<string>, minLength: int) returns (valid: bool)
    ensures valid == ValidField(input, minLength)
  {
    if input.Some? && |input.value| >= minLength {
      var text := input.value;
      for i := 0 to |text|
        invariant forall j :: 0 <= j < i ==> ToLower(text[j]) in DEFAULT_CHARSET
      {
        if ToLower(text[i]) !in DEFAULT_CHARSET {
          return false;
        }
      }
      return true;
    }
    return false;
  }

  /**
   * A field is valid exactly when it is long enough and made only of ASCII
   * letters (of either case) and digits.
   */
  lemma ValidFieldIsAlphanumeric(input: Option<string>, minLength: int)
    ensures ValidField(input, minLength) <==>
              input.Some? && |input.value| >= minLength &&
              forall i :: 0 <= i < |input.value| ==>
                var c := input.value[i]; IsDigit(c) || IsLowerAscii(c) || IsUpperAscii(c)
  {
    if input.Some? {
      var s := input.value;
      forall i | 0 <= i < |s|
        ensures ToLower(s[i]) in DEFAULT_CHARSET <==> IsDigit(s[i]) || IsLowerAscii(s[i]) || IsUpperAscii(s[i])
      {
        DefaultCharsetIsDigitsAndLowerCase(ToLower(s[i]));
      }
    }
  }

  /** Changing the case of letters never changes validity. */
  lemma ValidityIgnoresCase(s: string, t: string, minLength: int)
    requires |s| == |t|
    requires forall i :: 0 <= i < |s| ==> ToLower(s[i]) == ToLower(t[i])
    ensures ValidField(Some(s), minLength) <==> ValidField(Some(t), minLength)
  {
  }

  /** A missing field and a too-short field are invalid; the empty text is valid iff nothing is required. */
  lemma EdgeCases(s: string, minLength: int)
    ensures !ValidField(None, minLength)
    ensures |s| < minLength ==> !ValidField(Some(s), minLength)
    ensures ValidField(Some(""), minLength) <==> minLength <= 0
  {
  }
}
