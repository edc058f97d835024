/**
 * Byte strings and the handful of Rust `str` operations the proxy uses.
 * A Rust `String`/`&str` is modelled by its UTF-8 bytes, because `len`, `find`
 * and the one-byte length prefixes of SOCKS5 are all measured in bytes.
 */
module Text {
  import opened Wrappers

  type Byte = b: int | 0 <= b < 256
  type Uint16 = n: int | 0 <= n < 0x1_0000
  type Bytes = seq<Byte>

  const SPACE: Byte := 32
  const PLUS: Byte := 43
  const COMMA: Byte := 44
  const DOT: Byte := 46
  const SLASH: Byte := 47
  const COLON: Byte := 58
  const CR: Byte := 13
  const LF: Byte := 10

  /** The bytes of an ASCII literal (every literal of the model is ASCII). */
  function Lit(s: string): (r: Bytes)
    ensures |r| == |s|
    ensures forall i :: 0 <= i < |s| ==> r[i] == (s[i] as int) % 256
  {
    seq(|s|, i requires 0 <= i < |s| => (s[i] as int) % 256)
  }

  /** A literal of one-byte characters none of which is `c` has no byte `c`. */
  lemma LitHasNo(s: string, c: Byte)
    requires forall i :: 0 <= i < |s| ==> s[i] as int < 256 && s[i] as int != c
    ensures c !in Lit(s)
  {
  }

  /** A non-empty sequence is its first element followed by the rest. */
  lemma HeadTail<T>(s: seq<T>)
    requires s != []
    ensures s == [s[0]] + s[1..]
  {
  }

  /** A sequence is what comes before index `i`, the element there, and what follows. */
  /** Five sequences concatenated right to left are the same as left to right. */
  lemma Assoc5<T>(a: seq<T>, b: seq<T>, c: seq<T>, d: seq<T>, e: seq<T>)
    ensures a + (b + (c + (d + e))) == a + b + c + d + e
  {
  }

  /** The last three of five concatenated sequences can be grouped first. */
  lemma AssocLast3<T>(a: seq<T>, b: seq<T>, c: seq<T>, d: seq<T>, e: seq<T>)
    ensures a + b + c + d + e == a + b + (c + d + e)
  {
  }

  lemma Around<T>(s: seq<T>, i: nat)
    requires i < |s|
    ensures s == s[..i] + [s[i]] + s[i + 1..]
  {
  }

  predicate IsAscii(s: Bytes) { forall i :: 0 <= i < |s| ==> s[i] < 128 }

  predicate StartsWith(s: Bytes, p: Bytes) { |p| <= |s| && s[..|p|] == p }

  predicate EndsWith(s: Bytes, p: Bytes) { |p| <= |s| && s[|s| - |p|..] == p }

  /** `str::contains` with a string pattern. */
  predicate Contains(s: Bytes, p: Bytes)
  {
    exists i :: 0 <= i <= |s| - |p| && InfixAt(s, p, i)
  }

  /** `p` occurs in `s` starting at index `i`. */
  predicate InfixAt(s: Bytes, p: Bytes, i: int)
  {
    0 <= i <= |s| - |p| && s[i..i + |p|] == p
  }

  /** `str::strip_prefix`. */
  function StripPrefix(s: Bytes, p: Bytes): (r: Option<Bytes>)
    ensures r.Some? <==> StartsWith(s, p)
    ensures r.Some? ==> s == p + r.value
  {
    if StartsWith(s, p) then Some(s[|p|..]) else None
  }

  // ---- ASCII case ----

  function AsciiLower(b: Byte): Byte { if 65 <= b <= 90 then b + 32 else b }

  function AsciiUpper(b: Byte): Byte { if 97 <= b <= 122 then b - 32 else b }

  /** `str::eq_ignore_ascii_case`. */
  predicate EqIgnoreAsciiCase(a: Bytes, b: Bytes)
  {
    |a| == |b| && forall i :: 0 <= i < |a| ==> AsciiLower(a[i]) == AsciiLower(b[i])
  }

  /**
   * `str::to_uppercase` of UTF-8 text, as far as a comparison with ASCII
   * text can tell: ASCII letters are upper-cased; the characters whose upper
   * case is all ASCII (sharp s, dotless i, long s and the ligatures U+FB00
   * to U+FB06) become that text; every other byte is kept, so the result
   * holds a byte above 0x7f exactly when the true upper case holds a
   * character beyond ASCII.
   */
  function Uppercase(s: Bytes): (r: Bytes)
    decreases |s|
  {
    if s == [] then []
    else
      var (u, n) := UpperChar(s);
      u + Uppercase(s[n..])
  }

  /** The upper case of the character `s` starts with, and how many bytes that character takes. */
  function UpperChar(s: Bytes): (r: (Bytes, nat))
    requires s != []
    ensures 1 <= r.1 <= |s|
    ensures s[0] < 0x80 ==> r == ([AsciiUpper(s[0])], 1)
  {
    if |s| >= 2 && s[0] == 0xc3 && s[1] == 0x9f then (Lit("SS"), 2)
    else if |s| >= 2 && s[0] == 0xc4 && s[1] == 0xb1 then (Lit("I"), 2)
    else if |s| >= 2 && s[0] == 0xc5 && s[1] == 0xbf then (Lit("S"), 2)
    else if |s| >= 3 && s[0] == 0xef && s[1] == 0xac && 0x80 <= s[2] <= 0x86 then (Ligature(s[2]), 3)
    else ([AsciiUpper(s[0])], 1)
  }

  /** The upper case of the ligatures U+FB00 to U+FB06, by the last byte of their UTF-8 form. */
  function Ligature(b: Byte): Bytes
    requires 0x80 <= b <= 0x86
  {
    if b == 0x80 then Lit("FF") else if b == 0x81 then Lit("FI") else if b == 0x82 then Lit("FL")
    else if b == 0x83 then Lit("FFI") else if b == 0x84 then Lit("FFL") else Lit("ST")
  }

  /** On ASCII text, `Uppercase` upper-cases byte by byte. */
  lemma {:induction false} UppercaseAscii(s: Bytes)
    requires IsAscii(s)
    ensures |Uppercase(s)| == |s|
    ensures forall i :: 0 <= i < |s| ==> Uppercase(s)[i] == AsciiUpper(s[i])
  {
    if s != [] {
      UppercaseAscii(s[1..]);
      assert Uppercase(s) == [AsciiUpper(s[0])] + Uppercase(s[1..]);
      forall i | 1 <= i < |s| ensures Uppercase(s)[i] == AsciiUpper(s[i]) {
        assert s[1..][i - 1] == s[i];
      }
    }
  }

  /** An ASCII prefix is upper-cased on its own. */
  lemma {:induction false} UppercaseAppend(a: Bytes, b: Bytes)
    requires IsAscii(a)
    ensures Uppercase(a + b) == Uppercase(a) + Uppercase(b)
  {
    if a != [] {
      assert IsAscii(a[1..]) && (a + b)[1..] == a[1..] + b;
      UppercaseAppend(a[1..], b);
      assert UpperChar(a + b) == UpperChar(a) == ([AsciiUpper(a[0])], 1) by {
        assert a[0] < 0x80 && (a + b)[0] == a[0];
      }
    } else {
      assert a + b == b;
    }
  }

  /**
   * `str::to_lowercase` of UTF-8 text, compared with ASCII words that hold
   * no 'k': the only character beyond ASCII whose lower case is ASCII is the
   * Kelvin sign U+212A (to 'k'), so lower-casing the ASCII letters alone
   * gives the same comparisons.
   */
  function ToLower(s: Bytes): (r: Bytes)
    ensures |r| == |s|
  {
    seq(|s|, i requires 0 <= i < |s| => AsciiLower(s[i]))
  }

  /** Two strings equal up to ASCII case compare alike with any third. */
  lemma EqIgnoreCaseAlike(a: Bytes, b: Bytes, c: Bytes)
    requires EqIgnoreAsciiCase(a, b)
    ensures EqIgnoreAsciiCase(a, c) <==> EqIgnoreAsciiCase(b, c)
  {
  }

  lemma EqIgnoreCaseOfLower(a: Bytes, b: Bytes)
    requires IsAscii(b) && ToLower(a) == b
    ensures EqIgnoreAsciiCase(a, b)
  {
    forall i | 0 <= i < |a| ensures AsciiLower(a[i]) == AsciiLower(b[i]) {
      assert b[i] == AsciiLower(a[i]);
    }
  }

  // ---- searching and splitting ----

  /** Index of the first occurrence of `c`, as `str::find` with a char pattern. */
  function Find(s: Bytes, c: Byte): (r: Option<nat>)
    ensures r.Some? ==> r.value < |s| && s[r.value] == c && c !in s[..r.value]
    ensures r.None? <==> c !in s
  {
    if s == [] then None
    else if s[0] == c then Some(0)
    else match Find(s[1..], c)
      case None => None
      case Some(i) => assert s[1..][..i] == s[1..i + 1]; Some(i + 1)
  }

  /** Index of the last occurrence of `c`, as `str::rfind`. */
  function RFind(s: Bytes, c: Byte): (r: Option<nat>)
    ensures r.Some? ==> r.value < |s| && s[r.value] == c && c !in s[r.value + 1..]
    ensures r.None? <==> c !in s
  {
    if s == [] then None
    else if s[|s| - 1] == c then Some(|s| - 1)
    else
      var r := RFind(s[..|s| - 1], c);
      assert r.Some? ==> s[r.value + 1..] == s[..|s| - 1][r.value + 1..] + [s[|s| - 1]];
      assert s == s[..|s| - 1] + [s[|s| - 1]];
      r
  }

  lemma {:induction false} RFindAfter(a: Bytes, b: Bytes, c: Byte)
    requires c !in b
    ensures RFind(a + [c] + b, c) == Some(|a|)
    decreases |b|
  {
    if b != [] {
      var s := a + [c] + b;
      assert s[..|s| - 1] == a + [c] + b[..|b| - 1];
      RFindAfter(a, b[..|b| - 1], c);
    }
  }

  /** `str::split` with a one-character separator: never empty, the pieces hold no separator. */
  function Split(s: Bytes, sep: Byte): (r: seq<Bytes>)
    ensures |r| >= 1
    ensures forall k :: 0 <= k < |r| ==> sep !in r[k]
    decreases |s|
  {
    match Find(s, sep)
    case None => [s]
    case Some(i) => [s[..i]] + Split(s[i + 1..], sep)
  }

  /** Joins pieces with a separator (the inverse of Split). */
  function Join(ps: seq<Bytes>, sep: Byte): Bytes
  {
    if ps == [] then []
    else if |ps| == 1 then ps[0]
    else ps[0] + [sep] + Join(ps[1..], sep)
  }

  lemma {:induction false} JoinSplit(s: Bytes, sep: Byte)
    ensures Join(Split(s, sep), sep) == s
    decreases |s|
  {
    match Find(s, sep)
    case None =>
    case Some(i) =>
      var rest := Split(s[i + 1..], sep);
      JoinSplit(s[i + 1..], sep);
      assert Split(s, sep) == [s[..i]] + rest;
      JoinCons(s[..i], rest, sep);
      Around(s, i);
  }

  /** Joining a first piece before a non-empty rest puts one separator between them. */
  lemma JoinCons(p: Bytes, rest: seq<Bytes>, sep: Byte)
    requires rest != []
    ensures Join([p] + rest, sep) == p + [sep] + Join(rest, sep)
  {
    assert ([p] + rest)[1..] == rest;
  }

  lemma {:induction false} SplitJoin(ps: seq<Bytes>, sep: Byte)
    requires |ps| >= 1
    requires forall k :: 0 <= k < |ps| ==> sep !in ps[k]
    ensures Split(Join(ps, sep), sep) == ps
  {
    if |ps| > 1 {
      SplitJoin(ps[1..], sep);
      SplitFirst(ps[0], Join(ps[1..], sep), sep);
      HeadTail(ps);
    }
  }

  /** Every byte of a join comes from a piece or is the separator. */
  lemma {:induction false} JoinWithin(ps: seq<Bytes>, sep: Byte, allowed: set<Byte>)
    requires sep in allowed
    requires forall k, i :: 0 <= k < |ps| && 0 <= i < |ps[k]| ==> ps[k][i] in allowed
    ensures forall i :: 0 <= i < |Join(ps, sep)| ==> Join(ps, sep)[i] in allowed
  {
    if |ps| > 1 {
      JoinWithin(ps[1..], sep, allowed);
      var j := Join(ps, sep);
      assert j == ps[0] + [sep] + Join(ps[1..], sep);
      forall i | 0 <= i < |j| ensures j[i] in allowed {
        if i < |ps[0]| {
          assert j[i] == ps[0][i];
        } else if i > |ps[0]| {
          assert j[i] == Join(ps[1..], sep)[i - |ps[0]| - 1];
        }
      }
    }
  }

  /** Joining two non-empty lists of pieces is joining each and putting a separator between. */
  lemma {:induction false} JoinAppend(a: seq<Bytes>, b: seq<Bytes>, sep: Byte)
    requires |a| >= 1 && |b| >= 1
    ensures Join(a + b, sep) == Join(a, sep) + [sep] + Join(b, sep)
  {
    if |a| > 1 {
      JoinAppend(a[1..], b, sep);
      assert (a + b)[1..] == a[1..] + b;
    } else {
      assert (a + b)[1..] == b;
    }
  }

  lemma FindAfterFree(a: Bytes, b: Bytes, c: Byte)
    requires c !in a && |b| > 0 && b[0] == c
    ensures Find(a + b, c) == Some(|a|)
  {
    var r := Find(a + b, c);
    assert (a + b)[|a|] == c;
    assert (a + b)[..|a|] == a;
  }

  /** Splitting a text whose first piece holds no separator gives that piece, then the pieces of the rest. */
  lemma SplitFirst(a: Bytes, rest: Bytes, c: Byte)
    requires c !in a
    ensures Split(a + [c] + rest, c) == [a] + Split(rest, c)
  {
    var s := a + [c] + rest;
    FindAfterFree(a, [c] + rest, c);
    assert s == a + ([c] + rest);
    assert s[..|a|] == a;
    assert s[|a| + 1..] == rest;
  }

  /** Two pieces without the separator, then the rest. */
  lemma SplitTwoFirst(a: Bytes, b: Bytes, rest: Bytes, c: Byte)
    requires c !in a && c !in b
    ensures Split(a + [c] + b + [c] + rest, c) == [a, b] + Split(rest, c)
  {
    assert a + [c] + b + [c] + rest == a + [c] + (b + [c] + rest);
    SplitFirst(a, b + [c] + rest, c);
    SplitFirst(b, rest, c);
  }

  /** `str::split_once` with a one-character separator (also `splitn(2, c)` with 2 parts). */
  function SplitOnce(s: Bytes, c: Byte): (r: Option<(Bytes, Bytes)>)
    ensures r.Some? ==> s == r.value.0 + [c] + r.value.1 && c !in r.value.0
    ensures r.None? <==> c !in s
  {
    match Find(s, c)
    case None => None
    case Some(i) => assert s == s[..i] + [c] + s[i + 1..]; Some((s[..i], s[i + 1..]))
  }

  lemma SplitOnceOf(a: Bytes, b: Bytes, c: Byte)
    requires c !in a
    ensures SplitOnce(a + [c] + b, c) == Some((a, b))
  {
    FindAfterFree(a, [c] + b, c);
    assert a + [c] + b == a + ([c] + b);
    assert (a + [c] + b)[..|a|] == a;
    assert (a + [c] + b)[|a| + 1..] == b;
  }

  // ---- Unicode white space (`char::is_whitespace`) over UTF-8 ----

  /** Byte length of the White_Space character that `s` starts with, 0 if none. */
  function LeadingSpaceLen(s: Bytes): (n: nat)
    ensures n <= |s|
  {
    if |s| >= 1 && (9 <= s[0] <= 13 || s[0] == 32) then 1
    else if |s| >= 2 && s[0] == 0xC2 && (s[1] == 0x85 || s[1] == 0xA0) then 2
    else if |s| >= 3 && ((s[0] == 0xE1 && s[1] == 0x9A && s[2] == 0x80)
                      || (s[0] == 0xE2 && s[1] == 0x80 && ((0x80 <= s[2] && s[2] <= 0x8A) || s[2] == 0xA8 || s[2] == 0xA9 || s[2] == 0xAF))
                      || (s[0] == 0xE2 && s[1] == 0x81 && s[2] == 0x9F)
                      || (s[0] == 0xE3 && s[1] == 0x80 && s[2] == 0x80)) then 3
    else 0
  }

  /** Byte length of the White_Space character that `s` ends with, 0 if none. */
  function TrailingSpaceLen(s: Bytes): (n: nat)
    ensures n <= |s|
  {
    if |s| >= 1 && (9 <= s[|s| - 1] <= 13 || s[|s| - 1] == 32) then 1
    else if |s| >= 2 && LeadingSpaceLen(s[|s| - 2..]) == 2 then 2
    else if |s| >= 3 && LeadingSpaceLen(s[|s| - 3..]) == 3 then 3
    else 0
  }

  function TrimStart(s: Bytes): (r: Bytes)
    ensures |r| <= |s| && r == s[|s| - |r|..]
    ensures LeadingSpaceLen(r) == 0
    decreases |s|
  {
    var n := LeadingSpaceLen(s);
    if n == 0 then s else TrimStart(s[n..])
  }

  function TrimEnd(s: Bytes): (r: Bytes)
    ensures |r| <= |s| && r == s[..|r|]
    ensures TrailingSpaceLen(r) == 0
    decreases |s|
  {
    var n := TrailingSpaceLen(s);
    if n == 0 then s else TrimEnd(s[..|s| - n])
  }

  /** `str::trim`: strips white space at both ends and keeps the middle. */
  function Trim(s: Bytes): (r: Bytes)
    ensures exists i :: InfixAt(s, r, i)
  {
    var t := TrimStart(s);
    var r := TrimEnd(t);
    InfixOfSuffixPrefix(s, t, r);
    r
  }

  /** A prefix of a suffix is an infix, where the suffix starts. */
  lemma InfixOfSuffixPrefix(s: Bytes, t: Bytes, r: Bytes)
    requires |t| <= |s| && t == s[|s| - |t|..]
    requires |r| <= |t| && r == t[..|r|]
    ensures InfixAt(s, r, |s| - |t|)
  {
  }

  /** A string with no white space at either end is left unchanged by `trim`. */
  lemma TrimNoSpace(s: Bytes)
    requires LeadingSpaceLen(s) == 0 && TrailingSpaceLen(s) == 0
    ensures Trim(s) == s
  {
  }

  // ---- decimal numbers ----

  predicate IsDigit(b: Byte) { 48 <= b <= 57 }

  predicate AllDigits(s: Bytes) { forall i :: 0 <= i < |s| ==> IsDigit(s[i]) }

  function DigitsValue(s: Bytes): nat
    requires AllDigits(s)
  {
    if s == [] then 0 else DigitsValue(s[..|s| - 1]) * 10 + (s[|s| - 1] - 48)
  }

  /**
   * Rust `FromStr` for an unsigned integer type whose largest value is `max`
   * (also `from_str_radix(s, 10)`): an optional '+', then one or more digits;
   * leading zeros are allowed and a value above `max` is an error.
   */
  function ParseUnsigned(s: Bytes, max: nat): (r: Option<nat>)
    ensures r.Some? ==> r.value <= max
  {
    var d := if |s| > 0 && s[0] == PLUS then s[1..] else s;
    if |d| > 0 && AllDigits(d) && DigitsValue(d) <= max then Some(DigitsValue(d)) else None
  }

  const U16_MAX: nat := 0xffff
  const U32_MAX: nat := 0xffff_ffff
  const USIZE_MAX: nat := 0xffff_ffff_ffff_ffff

  /** A 64-bit `usize`. */
  type Usize = n: int | 0 <= n <= 0xffff_ffff_ffff_ffff

  /** A `u16` in network byte order (big-endian), as `write_u16` sends it. */
  function U16Bytes(v: Uint16): (r: Bytes)
    ensures |r| == 2 && (r[0] as int) * 256 + (r[1] as int) == v
  {
    [v / 256, v % 256]
  }

  /** Decimal `Display` of a non-negative integer. */
  function ShowNat(n: nat): (r: Bytes)
    ensures 1 <= |r| && AllDigits(r) && DigitsValue(r) == n
    ensures |r| > 1 ==> r[0] != 48
    ensures n < 10 <==> |r| == 1
    ensures n < 1000 ==> |r| <= 3
  {
    if n < 10 then [48 + n]
    else
      var r := ShowNat(n / 10) + [48 + n % 10];
      assert r[..|r| - 1] == ShowNat(n / 10);
      r
  }

  /** Display then parse gives the number back, for every value the type holds. */
  lemma ParseShowNat(n: nat, max: nat)
    requires n <= max
    ensures ParseUnsigned(ShowNat(n), max) == Some(n)
  {
  }
}
