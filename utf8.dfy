/** Well-formed UTF-8 (RFC 3629, section 4), the check behind Rust's `String::from_utf8`. */
module Utf8 {
  import opened Text

  predicate IsCont(b: Byte) { 0x80 <= b <= 0xBF }

  /** Byte length of the well-formed character that starts at index `i`, 0 when none does. */
  function CharLenAt(s: Bytes, i: nat): (n: nat)
    requires i <= |s|
    ensures i + n <= |s| && (i == |s| ==> n == 0)
  {
    if i == |s| then 0
    else if s[i] < 0x80 then 1
    else if 0xC2 <= s[i] <= 0xDF then
      if i + 2 <= |s| && IsCont(s[i + 1]) then 2 else 0
    else if 0xE0 <= s[i] <= 0xEF then
      var lo := if s[i] == 0xE0 then 0xA0 else 0x80;
      var hi := if s[i] == 0xED then 0x9F else 0xBF;
      if i + 3 <= |s| && lo <= s[i + 1] <= hi && IsCont(s[i + 2]) then 3 else 0
    else if 0xF0 <= s[i] <= 0xF4 then
      var lo := if s[i] == 0xF0 then 0x90 else 0x80;
      var hi := if s[i] == 0xF4 then 0x8F else 0xBF;
      if i + 4 <= |s| && lo <= s[i + 1] <= hi && IsCont(s[i + 2]) && IsCont(s[i + 3]) then 4 else 0
    else 0
  }

  /** The bytes from index `i` on are a sequence of well-formed characters. */
  predicate ValidFrom(s: Bytes, i: nat)
    requires i <= |s|
    decreases |s| - i
  {
    i == |s| || (CharLenAt(s, i) > 0 && ValidFrom(s, i + CharLenAt(s, i)))
  }

  predicate Valid(s: Bytes) { ValidFrom(s, 0) }

  lemma CharLenPrefix(a: Bytes, b: Bytes, i: nat)
    requires i < |a| && CharLenAt(a, i) > 0
    ensures CharLenAt(a + b, i) == CharLenAt(a, i)
  {
  }

  lemma CharLenShift(a: Bytes, b: Bytes, j: nat)
    requires j <= |b|
    ensures CharLenAt(a + b, |a| + j) == CharLenAt(b, j)
  {
  }

  lemma {:induction false} ValidShift(a: Bytes, b: Bytes, j: nat)
    requires j <= |b| && ValidFrom(b, j)
    ensures ValidFrom(a + b, |a| + j)
    decreases |b| - j
  {
    if j < |b| {
      CharLenShift(a, b, j);
      ValidShift(a, b, j + CharLenAt(b, j));
    }
  }

  lemma {:induction false} ValidFromConcat(a: Bytes, b: Bytes, i: nat)
    requires i <= |a| && ValidFrom(a, i) && Valid(b)
    ensures ValidFrom(a + b, i)
    decreases |a| - i
  {
    if i == |a| {
      ValidShift(a, b, 0);
    } else {
      CharLenPrefix(a, b, i);
      ValidFromConcat(a, b, i + CharLenAt(a, i));
    }
  }

  /** Concatenating two strings gives a string. */
  lemma ConcatValid(a: Bytes, b: Bytes)
    requires Valid(a) && Valid(b)
    ensures Valid(a + b)
  {
    ValidFromConcat(a, b, 0);
  }

  lemma {:induction false} AsciiValidFrom(s: Bytes, i: nat)
    requires IsAscii(s) && i <= |s|
    ensures ValidFrom(s, i)
    decreases |s| - i
  {
    if i < |s| {
      AsciiValidFrom(s, i + 1);
    }
  }

  /** ASCII text is valid UTF-8. */
  lemma AsciiValid(s: Bytes)
    requires IsAscii(s)
    ensures Valid(s)
  {
    AsciiValidFrom(s, 0);
  }
}
