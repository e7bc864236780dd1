/**
 * The character predicates of Rust's `char` that the typography passes consult:
 * `is_whitespace`, `is_alphabetic`, `is_uppercase`, `is_lowercase`,
 * `is_numeric`, `is_alphanumeric` and `is_digit(10)`, plus the UTF-8 width
 * of a character.
 *
 * `IsWhitespace` is exact: the Unicode White_Space property is a finite list.
 * The letter and number properties are exact on Basic Latin, Latin-1
 * Supplement and Latin Extended-A (U+0000 to U+017F) and treat every
 * character above U+017F as neither a letter nor a number.
 */
module Unicode {

  /** `char::is_digit(10)`: exactly the ASCII digits. */
  predicate IsDigit(c: char) {
    '0' <= c <= '9'
  }

  /** `char::is_whitespace`: the White_Space property. */
  predicate IsWhitespace(c: char) {
    || ('\U{0009}' <= c <= '\U{000D}')
    || c == ' '
    || c == '\U{0085}'
    || c == '\U{00A0}'
    || c == '\U{1680}'
    || ('\U{2000}' <= c <= '\U{200A}')
    || c == '\U{2028}'
    || c == '\U{2029}'
    || c == '\U{202F}'
    || c == '\U{205F}'
    || c == '\U{3000}'
  }

  /** Upper-case letters of Latin Extended-A: the case pairs put the capital on the
      even code point, except in the ranges U+0139-U+0148 and U+0179-U+017E. */
  predicate IsLatinExtAUpper(c: char) {
    var n := c as int;
    || (0x0100 <= n <= 0x0137 && n % 2 == 0)
    || (0x0139 <= n <= 0x0148 && n % 2 == 1)
    || (0x014A <= n <= 0x0177 && n % 2 == 0)
    || n == 0x0178
    || (0x0179 <= n <= 0x017E && n % 2 == 1)
  }

  /** `char::is_uppercase`. */
  predicate IsUppercase(c: char) {
    || ('A' <= c <= 'Z')
    || ('\U{00C0}' <= c <= '\U{00DE}' && c != '\U{00D7}')
    || IsLatinExtAUpper(c)
  }

  /** `char::is_lowercase`; includes the ordinal indicators U+00AA and U+00BA. */
  predicate IsLowercase(c: char) {
    || ('a' <= c <= 'z')
    || c == '\U{00AA}' || c == '\U{00B5}' || c == '\U{00BA}'
    || ('\U{00DF}' <= c <= '\U{00FF}' && c != '\U{00F7}')
    || ('\U{0100}' <= c <= '\U{017F}' && !IsLatinExtAUpper(c))
  }

  /** `char::is_alphabetic`. */
  predicate IsAlphabetic(c: char) {
    || ('A' <= c <= 'Z') || ('a' <= c <= 'z')
    || c == '\U{00AA}' || c == '\U{00B5}' || c == '\U{00BA}'
    || ('\U{00C0}' <= c <= '\U{017F}' && c != '\U{00D7}' && c != '\U{00F7}')
  }

  /** `char::is_numeric`: decimal digits, superscripts one to three and the vulgar fractions. */
  predicate IsNumeric(c: char) {
    || IsDigit(c)
    || c == '\U{00B2}' || c == '\U{00B3}' || c == '\U{00B9}'
    || ('\U{00BC}' <= c <= '\U{00BE}')
  }

  /** `char::is_alphanumeric`. */
  predicate IsAlphanumeric(c: char) {
    IsAlphabetic(c) || IsNumeric(c)
  }

  /** A character encoded on one UTF-8 byte. */
  predicate IsAscii(c: char) {
    c as int < 0x80
  }

  /** Number of bytes of the UTF-8 encoding of `c` (section 3 of RFC 3629). */
  function Utf8Len(c: char): (n: nat)
    ensures 1 <= n <= 4
    ensures n == 1 <==> IsAscii(c)
  {
    var v := c as int;
    if v < 0x80 then 1 else if v < 0x800 then 2 else if v < 0x1_0000 then 3 else 4
  }

  /** Byte length of a UTF-8 string: what Rust's `String::len` returns. */
  function Utf8Length(s: string): (n: nat)
    ensures n >= |s|
    ensures n == |s| <==> forall k :: 0 <= k < |s| ==> IsAscii(s[k])
  {
    if |s| == 0 then 0 else Utf8Len(s[0]) + Utf8Length(s[1..])
  }

  lemma {:induction false} Utf8LengthAppend(a: string, b: string)
    ensures Utf8Length(a + b) == Utf8Length(a) + Utf8Length(b)
    decreases |a|
  {
    if |a| > 0 {
      assert (a + b)[1..] == a[1..] + b;
      Utf8LengthAppend(a[1..], b);
    } else {
      assert a + b == b;
    }
  }

  /** Adding one character to a prefix adds its width. */
  lemma Utf8PrefixStep(s: string, m: nat)
    requires m < |s|
    ensures Utf8Length(s[..m + 1]) == Utf8Length(s[..m]) + Utf8Len(s[m])
  {
    assert s[..m + 1] == s[..m] + [s[m]];
    Utf8LengthAppend(s[..m], [s[m]]);
  }

  /** Longer prefixes are strictly longer in bytes. */
  lemma Utf8PrefixMonotone(s: string, m1: nat, m2: nat)
    requires m1 < m2 <= |s|
    ensures Utf8Length(s[..m1]) < Utf8Length(s[..m2])
  {
    assert s[..m2] == s[..m1] + s[m1..m2];
    Utf8LengthAppend(s[..m1], s[m1..m2]);
  }

  /** The relations between the predicates that the passes rely on. */
  lemma CaseFacts(c: char)
    ensures IsUppercase(c) ==> IsAlphabetic(c) && !IsLowercase(c)
    ensures IsLowercase(c) ==> IsAlphabetic(c)
    ensures IsAlphabetic(c) ==> IsUppercase(c) || IsLowercase(c)
    ensures IsWhitespace(c) ==> !IsAlphanumeric(c)
    ensures IsDigit(c) ==> IsAlphanumeric(c) && !IsAlphabetic(c)
  {
  }
}
