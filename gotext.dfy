/**
 * The parts of Go's string semantics the index relies on: a string is a
 * sequence of bytes, `strings.HasSuffix` compares bytes, and the length of
 * `[]rune(s)` counts UTF-8 code points, where every byte that does not start
 * a well-formed sequence counts as one rune (utf8.RuneError) of width one.
 */
module GoText {

  /** A Go `byte`. */
  type Byte = b: int | 0 <= b < 256

  /** A Go `string`: bytes, not characters. */
  type Bytes = seq<Byte>

  /** `strings.HasSuffix(s, suffix)`. */
  predicate HasSuffix(s: Bytes, suffix: Bytes)
    ensures HasSuffix(s, suffix) <==> exists p: Bytes :: s == p + suffix
  {
    if |suffix| <= |s| && s[|s| - |suffix|..] == suffix then
      assert s == s[..|s| - |suffix|] + suffix;
      true
    else
      SuffixOfConcat(s, suffix);
      false
  }

  /** Any string that is something followed by suffix ends with that suffix. */
  lemma SuffixOfConcat(s: Bytes, suffix: Bytes)
    ensures forall p: Bytes :: s == p + suffix ==> |suffix| <= |s| && s[|s| - |suffix|..] == suffix
  {
    forall p: Bytes | s == p + suffix ensures |suffix| <= |s| && s[|s| - |suffix|..] == suffix {
      assert s[|p|..] == suffix;
    }
  }

  predicate IsContinuation(b: Byte) {
    0x80 <= b <= 0xBF
  }

  /**
   * Number of bytes Go's UTF-8 decoder consumes at the start of `s`
   * (utf8.DecodeRuneInString): the width of a well-formed sequence, or 1 for
   * an ill-formed one. Overlong forms, surrogates and code points above
   * U+10FFFF are ill-formed because the second byte is range-checked.
   */
  function RuneWidth(s: Bytes): (w: nat)
    requires |s| > 0
    ensures 1 <= w <= 4 && w <= |s|
    ensures s[0] < 0x80 || s[0] > 0xF4 || 0x80 <= s[0] < 0xC2 ==> w == 1
    ensures w > 1 ==> 0xC2 <= s[0] <= 0xF4 && forall i :: 1 <= i < w ==> IsContinuation(s[i])
  {
    var b := s[0];
    if b < 0x80 then 1
    else if 0xC2 <= b <= 0xDF then
      if |s| >= 2 && IsContinuation(s[1]) then 2 else 1
    else if 0xE0 <= b <= 0xEF then
      var lo: Byte := if b == 0xE0 then 0xA0 else 0x80;
      var hi: Byte := if b == 0xED then 0x9F else 0xBF;
      if |s| >= 3 && lo <= s[1] <= hi && IsContinuation(s[2]) then 3 else 1
    else if 0xF0 <= b <= 0xF4 then
      var lo: Byte := if b == 0xF0 then 0x90 else 0x80;
      var hi: Byte := if b == 0xF4 then 0x8F else 0xBF;
      if |s| >= 4 && lo <= s[1] <= hi && IsContinuation(s[2]) && IsContinuation(s[3]) then 4 else 1
    else 1
  }

  /**
   * `len([]rune(s))`. Every rune takes one to four bytes, so the count lies
   * between a quarter of the byte length and the byte length.
   */
  function RuneCount(s: Bytes): (n: nat)
    ensures n <= |s| <= 4 * n
    decreases |s|
  {
    if |s| == 0 then 0 else 1 + RuneCount(s[RuneWidth(s)..])
  }

  /** In pure ASCII text every byte is a rune. */
  lemma {:induction false} AsciiRuneCount(s: Bytes)
    requires forall i :: 0 <= i < |s| ==> s[i] < 0x80
    ensures RuneCount(s) == |s|
    decreases |s|
  {
    if |s| > 0 {
      assert RuneWidth(s) == 1;
      AsciiRuneCount(s[1..]);
    }
  }
}
