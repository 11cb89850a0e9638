/** The character classes of Unicode the source asks its standard library for. */
module Chars {

  /** Rust's `char::is_whitespace`: the White_Space property. */
  predicate IsWhitespace(c: char) {
    var v := c as int;
    || 0x09 <= v <= 0x0D || v == 0x20 || v == 0x85 || v == 0xA0 || v == 0x1680
    || 0x2000 <= v <= 0x200A || v == 0x2028 || v == 0x2029 || v == 0x202F || v == 0x205F || v == 0x3000
  }

  /** Rust's `char::is_control`: the general category Cc. */
  predicate IsControl(c: char) {
    c as int < 0x20 || 0x7F <= c as int <= 0x9F
  }

  function AsciiLower(c: char): char {
    if 'A' <= c <= 'Z' then c - 'A' + 'a' else c
  }

  const UPPER: string := "ABCDEFGHIJKLMNOPQRSTUVWXYZ"
  const LOWER: string := "abcdefghijklmnopqrstuvwxyz"

  /** The 26 capitals become their small letters, and nothing else changes. */
  lemma AsciiLowerLetters(c: char)
    ensures c in UPPER ==> exists k :: 0 <= k < 26 && UPPER[k] == c && AsciiLower(c) == LOWER[k]
    ensures c !in UPPER ==> AsciiLower(c) == c
  {
    LettersIn(c);
    hide UPPER, LOWER;
    if 'A' <= c <= 'Z' {
      UpperAt((c - 'A') as nat);
    }
  }

  lemma UpperAt(k: nat)
    requires k < 26
    ensures UPPER[k] == 'A' + k as char && LOWER[k] == 'a' + k as char
  {
  }

  lemma TwentySix()
    ensures |UPPER| == 26 && |LOWER| == 26
  {
  }

  lemma LettersIn(c: char)
    ensures c in LOWER <==> 'a' <= c <= 'z'
    ensures c in UPPER <==> 'A' <= c <= 'Z'
  {
    hide UPPER, LOWER;
    TwentySix();
    forall k: nat | k < 26 ensures UPPER[k] == 'A' + k as char && LOWER[k] == 'a' + k as char {
      UpperAt(k);
    }
    if 'a' <= c <= 'z' {
      assert LOWER[(c - 'a') as nat] == c;
    }
    if 'A' <= c <= 'Z' {
      assert UPPER[(c - 'A') as nat] == c;
    }
  }

  /** Rust's `eq_ignore_ascii_case`. */
  predicate SameIgnoringCase(a: string, b: string) {
    |a| == |b| && forall k | 0 <= k < |a| :: AsciiLower(a[k]) == AsciiLower(b[k])
  }

  /** Whether trimming would leave nothing. */
  predicate IsBlank(s: string) {
    forall c <- s :: IsWhitespace(c)
  }

  const WHITE_SPACE: string :=
    "\t\n\U{B}\U{C}\r \U{85}\U{A0}\U{1680}\U{2000}\U{2001}\U{2002}\U{2003}\U{2004}\U{2005}\U{2006}\U{2007}\U{2008}\U{2009}\U{200A}\U{2028}\U{2029}\U{202F}\U{205F}\U{3000}"

  /** The 25 characters of the property. */
  lemma WhiteSpaceIs(c: char)
    ensures IsWhitespace(c) <==> c in WHITE_SPACE
  {
    var s := WHITE_SPACE;
    assert s[0] == '\t' && s[1] == '\n' && s[2] == '\U{B}' && s[3] == '\U{C}' && s[4] == '\r' && s[5] == ' ';
    assert s[6] == '\U{85}' && s[7] == '\U{A0}' && s[8] == '\U{1680}' && s[9] == '\U{2000}' && s[10] == '\U{2001}';
    assert s[11] == '\U{2002}' && s[12] == '\U{2003}' && s[13] == '\U{2004}' && s[14] == '\U{2005}' && s[15] == '\U{2006}';
    assert s[16] == '\U{2007}' && s[17] == '\U{2008}' && s[18] == '\U{2009}' && s[19] == '\U{200A}' && s[20] == '\U{2028}';
    assert s[21] == '\U{2029}' && s[22] == '\U{202F}' && s[23] == '\U{205F}' && s[24] == '\U{3000}';
  }
}
