/**
 * Character handling: ASCII case folding (the part of Java's
 * `Character.toLowerCase` that the core relies on) and the default set of
 * characters a passphrase may contain (`KeystrokeCharacterSets`).
 */
module Characters {

  predicate IsUpperAscii(c: char) { 'A' <= c <= 'Z' }

  predicate IsLowerAscii(c: char) { 'a' <= c <= 'z' }

  predicate IsDigit(c: char) { '0' <= c <= '9' }

  /** Folds 'A'..'Z' onto 'a'..'z' and leaves every other character alone. */
  function ToLower(c: char): (l: char)
    ensures !IsUpperAscii(l)
    ensures !IsUpperAscii(c) ==> l == c
    ensures IsUpperAscii(c) ==> IsLowerAscii(l) && l as int - c as int == 'a' as int - 'A' as int
  {
    if IsUpperAscii(c) then (c as int + ('a' as int - 'A' as int)) as char else c
  }

  /** The inverse direction, used only to state case-insensitivity. */
  function ToUpper(c: char): (u: char)
    ensures !IsLowerAscii(u)
    ensures IsLowerAscii(c) ==> IsUpperAscii(u) && ToLower(u) == c
    ensures !IsLowerAscii(c) ==> u == c
  {
    if IsLowerAscii(c) then (c as int - ('a' as int - 'A' as int)) as char else c
  }

  /** Folding is idempotent, and a letter and its upper-case form fold together. */
  lemma ToLowerIdempotent(c: char)
    ensures ToLower(ToLower(c)) == ToLower(c)
    ensures ToLower(ToUpper(c)) == ToLower(c)
  {
  }

  /** The default accepted characters, listed as the source lists them. */
  const DEFAULT_CHARSET: set<char> :=
    {'0', '1', '2', '3', '4', '5', '6', '7', '8', '9',
     'a', 'b', 'c', 'd', 'e', 'f', 'g', 'h', 'i', 'j', 'k', 'l', 'm',
     'n', 'o', 'p', 'q', 'r', 's', 't', 'u', 'v', 'w', 'x', 'y', 'z'}

  /** The default set is exactly the digits and the lower-case ASCII letters. */
  lemma DefaultCharsetIsDigitsAndLowerCase(c: char)
    ensures c in DEFAULT_CHARSET <==> IsDigit(c) || IsLowerAscii(c)
  {
    if IsDigit(c) {
      var n := c as int - '0' as int;
      assert 0 <= n < 10;
      assert c == ('0' as int + n) as char;
    } else if IsLowerAscii(c) {
      var n := c as int - 'a' as int;
      assert 0 <= n < 26;
      assert c == ('a' as int + n) as char;
    }
  }

  /** Every member of the default set is its own lower-case form. */
  lemma DefaultCharsetIsFolded(c: char)
    requires c in DEFAULT_CHARSET
    ensures ToLower(c) == c
  {
    DefaultCharsetIsDigitsAndLowerCase(c);
  }
}
