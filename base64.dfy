/** Base 64 with the standard alphabet and '=' padding (RFC 4648, section 4). */
module Base64 {
  import opened Wrappers
  import opened Text

  type Sextet = v: int | 0 <= v < 64

  const PAD: Byte := 61

  /** The character that encodes a 6-bit group (Table 1 of RFC 4648). */
  function CharOf(v: Sextet): (c: Byte)
    ensures c != PAD && c != COLON && c != SPACE && 32 < c < 127
  {
    if v < 26 then 65 + v
    else if v < 52 then 97 + (v - 26)
    else if v < 62 then 48 + (v - 52)
    else if v == 62 then 43
    else 47
  }

  function ValueOf(c: Byte): (r: Option<Sextet>)
    ensures r.Some? ==> CharOf(r.value) == c
    ensures c == PAD ==> r.None?
  {
    if 65 <= c <= 90 then Some(c - 65)
    else if 97 <= c <= 122 then Some(c - 97 + 26)
    else if 48 <= c <= 57 then Some(c - 48 + 52)
    else if c == 43 then Some(62)
    else if c == 47 then Some(63)
    else None
  }

  lemma ValueOfChar(v: Sextet)
    ensures ValueOf(CharOf(v)) == Some(v)
  {
  }

  /** One to three bytes as four characters, padded with '='. */
  function EncodeGroup(g: Bytes): (r: Bytes)
    requires 1 <= |g| <= 3
    ensures |r| == 4
  {
    var b1 := if |g| > 1 then g[1] else 0;
    var b2 := if |g| > 2 then g[2] else 0;
    [CharOf(g[0] / 4), CharOf((g[0] % 4) * 16 + b1 / 16)]
    + (if |g| > 1 then [CharOf((b1 % 16) * 4 + b2 / 64)] else [PAD])
    + (if |g| > 2 then [CharOf(b2 % 64)] else [PAD])
  }

  /** Four characters back to one to three bytes; padding must drop only zero bits. */
  function DecodeGroup(q: Bytes): (r: Option<Bytes>)
    requires |q| == 4
    ensures r.Some? ==> 1 <= |r.value| <= 3 && (|r.value| < 3 <==> q[3] == PAD)
  {
    match (ValueOf(q[0]), ValueOf(q[1]), ValueOf(q[2]), ValueOf(q[3]))
    case (Some(v0), Some(v1), None, None) =>
      if q[2] == PAD && q[3] == PAD && v1 % 16 == 0 then Some([v0 * 4 + v1 / 16]) else None
    case (Some(v0), Some(v1), Some(v2), None) =>
      if q[3] == PAD && v2 % 4 == 0 then Some([v0 * 4 + v1 / 16, (v1 % 16) * 16 + v2 / 4]) else None
    case (Some(v0), Some(v1), Some(v2), Some(v3)) =>
      Some([v0 * 4 + v1 / 16, (v1 % 16) * 16 + v2 / 4, (v2 % 4) * 64 + v3])
    case _ => None
  }

  function Encode(s: Bytes): (r: Bytes)
    ensures |r| % 4 == 0 && (|r| == 0 <==> |s| == 0)
    ensures forall i :: 0 <= i < |r| ==> r[i] != COLON && 32 < r[i] < 127
    decreases |s|
  {
    if |s| == 0 then []
    else if |s| <= 3 then EncodeGroup(s)
    else EncodeGroup(s[..3]) + Encode(s[3..])
  }

  /** Strict decoding: groups of four characters, '=' only in the last group. */
  function Decode(t: Bytes): (r: Option<Bytes>)
    decreases |t|
  {
    if |t| == 0 then Some([])
    else if |t| < 4 then None
    else match DecodeGroup(t[..4])
      case None => None
      case Some(g) =>
        if |g| < 3 then (if |t| == 4 then Some(g) else None)
        else match Decode(t[4..])
          case None => None
          case Some(rest) => Some(g + rest)
  }

  lemma DecodeEncodeGroup(g: Bytes)
    requires 1 <= |g| <= 3
    ensures DecodeGroup(EncodeGroup(g)) == Some(g)
  {
    if |g| == 1 {
      DecodeEncode1(g[0]);
      assert g == [g[0]];
    } else if |g| == 2 {
      DecodeEncode2(g[0], g[1]);
      assert g == [g[0], g[1]];
    } else {
      DecodeEncode3(g[0], g[1], g[2]);
      assert g == [g[0], g[1], g[2]];
    }
  }

  lemma DecodeEncode1(b0: Byte)
    ensures DecodeGroup(EncodeGroup([b0])) == Some([b0])
  {
    var v1: int := (b0 % 4) * 16;
    ValueOfChar(b0 / 4);
    ValueOfChar(v1);
    assert EncodeGroup([b0]) == [CharOf(b0 / 4), CharOf(v1), PAD, PAD];
  }

  lemma DecodeEncode2(b0: Byte, b1: Byte)
    ensures DecodeGroup(EncodeGroup([b0, b1])) == Some([b0, b1])
  {
    var v1: int := (b0 % 4) * 16 + b1 / 16;
    var v2: int := (b1 % 16) * 4;
    ValueOfChar(b0 / 4);
    ValueOfChar(v1);
    ValueOfChar(v2);
    assert EncodeGroup([b0, b1]) == [CharOf(b0 / 4), CharOf(v1), CharOf(v2), PAD];
    assert (b0 / 4) * 4 + v1 / 16 == b0;
    assert (v1 % 16) * 16 + v2 / 4 == b1;
  }

  lemma DecodeEncode3(b0: Byte, b1: Byte, b2: Byte)
    ensures DecodeGroup(EncodeGroup([b0, b1, b2])) == Some([b0, b1, b2])
  {
    var v1: int := (b0 % 4) * 16 + b1 / 16;
    var v2: int := (b1 % 16) * 4 + b2 / 64;
    ValueOfChar(b0 / 4);
    ValueOfChar(v1);
    ValueOfChar(v2);
    ValueOfChar(b2 % 64);
    assert EncodeGroup([b0, b1, b2]) == [CharOf(b0 / 4), CharOf(v1), CharOf(v2), CharOf(b2 % 64)];
    assert (b0 / 4) * 4 + v1 / 16 == b0;
    assert (v1 % 16) * 16 + v2 / 4 == b1;
    assert (v2 % 4) * 64 + b2 % 64 == b2;
  }

  lemma EncodeDecodeGroup(q: Bytes)
    requires |q| == 4 && DecodeGroup(q).Some?
    ensures EncodeGroup(DecodeGroup(q).value) == q
  {
    match (ValueOf(q[0]), ValueOf(q[1]), ValueOf(q[2]), ValueOf(q[3]))
    case (Some(v0), Some(v1), None, None) =>
      assert DecodeGroup(q).value == [v0 * 4 + v1 / 16];
      EncodeDecode1(q, v0, v1);
    case (Some(v0), Some(v1), Some(v2), None) =>
      assert DecodeGroup(q).value == [v0 * 4 + v1 / 16, (v1 % 16) * 16 + v2 / 4];
      EncodeDecode2(q, v0, v1, v2);
    case (Some(v0), Some(v1), Some(v2), Some(v3)) =>
      assert DecodeGroup(q).value == [v0 * 4 + v1 / 16, (v1 % 16) * 16 + v2 / 4, (v2 % 4) * 64 + v3];
      EncodeDecode3(q, v0, v1, v2, v3);
  }

  lemma EncodeDecode1(q: Bytes, v0: Sextet, v1: Sextet)
    requires |q| == 4 && q[0] == CharOf(v0) && q[1] == CharOf(v1) && q[2] == PAD && q[3] == PAD
    requires v1 % 16 == 0
    ensures EncodeGroup([v0 * 4 + v1 / 16]) == q
  {
    var b0: int := v0 * 4 + v1 / 16;
    assert b0 / 4 == v0;
    assert (b0 % 4) * 16 + 0 / 16 == v1;
  }

  lemma EncodeDecode2(q: Bytes, v0: Sextet, v1: Sextet, v2: Sextet)
    requires |q| == 4 && q[0] == CharOf(v0) && q[1] == CharOf(v1) && q[2] == CharOf(v2) && q[3] == PAD
    requires v2 % 4 == 0
    ensures EncodeGroup([v0 * 4 + v1 / 16, (v1 % 16) * 16 + v2 / 4]) == q
  {
    var b0: int := v0 * 4 + v1 / 16;
    var b1: int := (v1 % 16) * 16 + v2 / 4;
    assert b0 / 4 == v0;
    assert (b0 % 4) * 16 + b1 / 16 == v1;
    assert (b1 % 16) * 4 + 0 / 64 == v2;
  }

  lemma EncodeDecode3(q: Bytes, v0: Sextet, v1: Sextet, v2: Sextet, v3: Sextet)
    requires |q| == 4 && q[0] == CharOf(v0) && q[1] == CharOf(v1) && q[2] == CharOf(v2) && q[3] == CharOf(v3)
    ensures EncodeGroup([v0 * 4 + v1 / 16, (v1 % 16) * 16 + v2 / 4, (v2 % 4) * 64 + v3]) == q
  {
    var b0: int := v0 * 4 + v1 / 16;
    var b1: int := (v1 % 16) * 16 + v2 / 4;
    var b2: int := (v2 % 4) * 64 + v3;
    assert b0 / 4 == v0;
    assert (b0 % 4) * 16 + b1 / 16 == v1;
    assert (b1 % 16) * 4 + b2 / 64 == v2;
    assert b2 % 64 == v3;
  }

  /** Decoding an encoding gives the bytes back. */
  lemma {:induction false} DecodeEncode(s: Bytes)
    ensures Decode(Encode(s)) == Some(s)
    decreases |s|
  {
    if 1 <= |s| <= 3 {
      DecodeEncodeGroup(s);
      DecodeOne(Encode(s), s);
    } else if |s| > 3 {
      DecodeEncodeGroup(s[..3]);
      DecodeEncode(s[3..]);
      DecodeFull(EncodeGroup(s[..3]), Encode(s[3..]), s[..3]);
      assert s == s[..3] + s[3..];
    }
  }

  /** A text of one group decodes to that group's bytes. */
  lemma DecodeOne(q: Bytes, g: Bytes)
    requires |q| == 4 && DecodeGroup(q) == Some(g)
    ensures Decode(q) == Some(g)
  {
    assert q[..4] == q && q[4..] == [];
    assert g + [] == g;
  }

  /** A full first group is decoded and the rest decoded after it. */
  lemma DecodeFull(q: Bytes, rest: Bytes, g: Bytes)
    requires |q| == 4 && DecodeGroup(q) == Some(g) && |g| == 3
    ensures Decode(q + rest) == if Decode(rest).Some? then Some(g + Decode(rest).value) else None
  {
    var t := q + rest;
    assert t[..4] == q && t[4..] == rest;
  }

  lemma EncodeCons(g: Bytes, rest: Bytes)
    requires |g| == 3
    ensures Encode(g + rest) == EncodeGroup(g) + Encode(rest)
  {
    var b := g + rest;
    assert b[..3] == g && b[3..] == rest;
    if rest == [] {
      assert b == g;
    }
  }

  /** Decoding accepts only canonical text: encoding what it decoded gives the text back. */
  lemma {:induction false} EncodeDecode(t: Bytes)
    requires Decode(t).Some?
    ensures Encode(Decode(t).value) == t
    decreases |t|
  {
    if |t| > 0 {
      var q := t[..4];
      var g := DecodeGroup(q).value;
      EncodeDecodeGroup(q);
      if |g| < 3 {
        assert Decode(t) == Some(g);
        assert t == q;
      } else {
        var rest := Decode(t[4..]).value;
        assert Decode(t) == Some(g + rest);
        EncodeDecode(t[4..]);
        EncodeCons(g, rest);
        assert t == q + t[4..];
      }
    }
  }
}
