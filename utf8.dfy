/**
 * Well-formed UTF-8 (Unicode Table 3-7), the check behind Rust's
 * `std::str::from_utf8` and `OsStr::to_str`.
 */
module Utf8 {
  import opened Common

  predicate IsContinuation(b: byte) { 0x80 <= b <= 0xBF }

  /**
   * Length of the well-formed UTF-8 sequence at the front of `s`, or 0 when
   * `s` does not start with one.
   */
  function CharLen(s: Bytes): (n: nat)
    ensures n <= |s| && n <= 4
    ensures forall i :: 1 <= i < n ==> IsContinuation(s[i])
  {
    if |s| == 0 then 0
    else
      var b0 := s[0];
      if b0 < 0x80 then 1
      else if 0xC2 <= b0 <= 0xDF then
        if |s| >= 2 && IsContinuation(s[1]) then 2 else 0
      else if b0 == 0xE0 then
        if |s| >= 3 && 0xA0 <= s[1] <= 0xBF && IsContinuation(s[2]) then 3 else 0
      else if 0xE1 <= b0 <= 0xEC || b0 == 0xEE || b0 == 0xEF then
        if |s| >= 3 && IsContinuation(s[1]) && IsContinuation(s[2]) then 3 else 0
      else if b0 == 0xED then
        if |s| >= 3 && 0x80 <= s[1] <= 0x9F && IsContinuation(s[2]) then 3 else 0
      else if b0 == 0xF0 then
        if |s| >= 4 && 0x90 <= s[1] <= 0xBF && IsContinuation(s[2]) && IsContinuation(s[3]) then 4 else 0
      else if 0xF1 <= b0 <= 0xF3 then
        if |s| >= 4 && IsContinuation(s[1]) && IsContinuation(s[2]) && IsContinuation(s[3]) then 4 else 0
      else if b0 == 0xF4 then
        if |s| >= 4 && 0x80 <= s[1] <= 0x8F && IsContinuation(s[2]) && IsContinuation(s[3]) then 4 else 0
      else 0
  }

  /** `s` is a sequence of well-formed UTF-8 characters. */
  predicate Valid(s: Bytes)
    decreases |s|
  {
    |s| == 0 || (CharLen(s) > 0 && Valid(s[CharLen(s)..]))
  }

  /** Appending ASCII bytes cannot complete a truncated character, nor break a complete one. */
  lemma CharLenAppendAscii(s: Bytes, t: Bytes)
    requires |s| > 0 && AllAscii(t)
    ensures CharLen(s + t) == CharLen(s)
  {
    var st := s + t;
    assert st[0] == s[0];
    if |s| >= 2 { assert st[1] == s[1]; } else if |t| > 0 { assert st[1] == t[0]; }
    if |s| >= 3 { assert st[2] == s[2]; } else if |s| == 2 && |t| > 0 { assert st[2] == t[0]; }
    if |s| >= 4 { assert st[3] == s[3]; } else if |s| == 3 && |t| > 0 { assert st[3] == t[0]; }
  }

  /** Every ASCII byte string is well-formed UTF-8. */
  lemma {:induction false} AsciiIsValid(t: Bytes)
    requires AllAscii(t)
    ensures Valid(t)
  {
    if |t| > 0 {
      assert CharLen(t) == 1;
      AsciiIsValid(t[1..]);
    }
  }

  /** An ASCII suffix leaves validity unchanged: `s + t` is valid iff `s` is. */
  lemma {:induction false} AppendAsciiPreservesValidity(s: Bytes, t: Bytes)
    requires AllAscii(t)
    ensures Valid(s + t) <==> Valid(s)
    decreases |s|
  {
    if |s| == 0 {
      assert s + t == t;
      AsciiIsValid(t);
    } else {
      CharLenAppendAscii(s, t);
      var n := CharLen(s);
      if n > 0 {
        assert (s + t)[n..] == s[n..] + t;
        AppendAsciiPreservesValidity(s[n..], t);
      }
    }
  }
}
