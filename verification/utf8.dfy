/** UTF-8 as RFC 3629 defines it: the byte form of a Rust `str`. The encoder
    is what `str::as_bytes` exposes; the strict decoder is what `to_str`
    checks a path against (no overlong forms, no surrogates, nothing above
    U+10FFFF). */
module Utf8 {
  import opened Wrappers
  import opened Bytes

  predicate IsContinuation(b: byte) {
    0x80 <= b < 0xC0
  }

  /** The one- to four-byte encoding of a single Unicode scalar value. */
  function EncodeScalar(c: char): (r: seq<byte>)
    ensures 1 <= |r| <= 4
  {
    var cp := c as int;
    if cp < 0x80 then [cp]
    else if cp < 0x800 then [0xC0 + cp / 0x40, 0x80 + cp % 0x40]
    else if cp < 0x1_0000 then
      [0xE0 + cp / 0x1000, 0x80 + (cp / 0x40) % 0x40, 0x80 + cp % 0x40]
    else
      [0xF0 + cp / 0x4_0000, 0x80 + (cp / 0x1000) % 0x40, 0x80 + (cp / 0x40) % 0x40, 0x80 + cp % 0x40]
  }

  /** The UTF-8 bytes of a string: the encodings of its characters, in order. */
  function Encode(s: string): (r: seq<byte>)
    ensures |s| <= |r| <= 4 * |s|
  {
    if |s| == 0 then [] else EncodeScalar(s[0]) + Encode(s[1..])
  }

  /** The number of bytes a sequence starting with `lead` occupies, or 0
      when `lead` cannot start a sequence. */
  function SequenceLength(lead: byte): (n: nat)
    ensures n <= 4
  {
    if lead < 0x80 then 1
    else if 0xC0 <= lead < 0xE0 then 2
    else if 0xE0 <= lead < 0xF0 then 3
    else if 0xF0 <= lead < 0xF8 then 4
    else 0
  }

  /** Every byte after the lead byte is a continuation byte. */
  predicate ContinuationsOk(s: seq<byte>) {
    && (|s| >= 2 ==> IsContinuation(s[1]))
    && (|s| >= 3 ==> IsContinuation(s[2]))
    && (|s| >= 4 ==> IsContinuation(s[3]))
  }

  /** The code point spelled by a sequence: the payload bits of the lead byte
      followed by six bits from each continuation byte. */
  function CodePoint(s: seq<byte>): (r: int)
    requires 1 <= |s| <= 4
  {
    var b0 := s[0] as int;
    if |s| == 1 then b0
    else if |s| == 2 then (b0 - 0xC0) * 0x40 + (s[1] as int - 0x80)
    else if |s| == 3 then (b0 - 0xE0) * 0x1000 + (s[1] as int - 0x80) * 0x40 + (s[2] as int - 0x80)
    else (b0 - 0xF0) * 0x4_0000 + (s[1] as int - 0x80) * 0x1000 + (s[2] as int - 0x80) * 0x40 + (s[3] as int - 0x80)
  }

  /** The smallest code point that needs `n` bytes; anything below is an overlong form. */
  function MinCodePoint(n: nat): int {
    if n <= 1 then 0 else if n == 2 then 0x80 else if n == 3 then 0x800 else 0x1_0000
  }

  /** The scalar value a complete one- to four-byte sequence spells, or
      `None` for a malformed, overlong, surrogate or out-of-range sequence. */
  function DecodeScalar(s: seq<byte>): (r: Option<char>)
    requires 1 <= |s| <= 4
  {
    if SequenceLength(s[0]) != |s| || !ContinuationsOk(s) then None
    else
      var cp := CodePoint(s);
      if cp < MinCodePoint(|s|) || (0xD800 <= cp < 0xE000) || cp >= 0x11_0000 then None
      else Some(cp as char)
  }

  /** Decodes the first scalar value of `b`, returning it with the number of
      bytes it occupies; `None` when `b` does not start with a well-formed
      UTF-8 sequence. */
  function DecodeFirst(b: seq<byte>): (r: Option<(char, nat)>)
    ensures r.Some? ==> 1 <= r.value.1 <= |b| && r.value.1 <= 4
  {
    if |b| == 0 then None
    else
      var n := SequenceLength(b[0]);
      if n == 0 || |b| < n then None
      else
        match DecodeScalar(b[..n])
        case None => None
        case Some(c) => Some((c, n))
  }

  /** The string whose UTF-8 bytes are `b`, or `None` when `b` is not
      well-formed UTF-8 (Rust's `OsStr::to_str`). */
  function Decode(b: seq<byte>): (r: Option<string>)
    decreases |b|
  {
    if |b| == 0 then Some([])
    else
      match DecodeFirst(b)
      case None => None
      case Some((c, n)) =>
        match Decode(b[n..])
        case None => None
        case Some(rest) => Some([c] + rest)
  }

  predicate Valid(b: seq<byte>) {
    Decode(b).Some?
  }

  /** Encoding distributes over concatenation. */
  lemma {:induction false} EncodeAppend(a: string, b: string)
    ensures Encode(a + b) == Encode(a) + Encode(b)
    decreases |a|
  {
    if |a| == 0 {
      assert a + b == b;
    } else {
      assert (a + b)[0] == a[0] && (a + b)[1..] == a[1..] + b;
      EncodeAppend(a[1..], b);
    }
  }

  lemma TwoByteForm(cp: int)
    requires 0x80 <= cp < 0x800
    ensures var b0, b1 := 0xC0 + cp / 0x40, 0x80 + cp % 0x40;
      && 0xC0 <= b0 < 0xE0 && 0x80 <= b1 < 0xC0
      && (b0 - 0xC0) * 0x40 + (b1 - 0x80) == cp
  {
  }

  lemma ThreeByteForm(cp: int)
    requires 0x800 <= cp < 0x1_0000
    ensures var b0, b1, b2 := 0xE0 + cp / 0x1000, 0x80 + (cp / 0x40) % 0x40, 0x80 + cp % 0x40;
      && 0xE0 <= b0 < 0xF0 && 0x80 <= b1 < 0xC0 && 0x80 <= b2 < 0xC0
      && (b0 - 0xE0) * 0x1000 + (b1 - 0x80) * 0x40 + (b2 - 0x80) == cp
  {
    assert (cp / 0x40) / 0x40 == cp / 0x1000;
  }

  lemma FourByteForm(cp: int)
    requires 0x1_0000 <= cp < 0x11_0000
    ensures var b0, b1, b2, b3 := 0xF0 + cp / 0x4_0000, 0x80 + (cp / 0x1000) % 0x40, 0x80 + (cp / 0x40) % 0x40, 0x80 + cp % 0x40;
      && 0xF0 <= b0 < 0xF8 && 0x80 <= b1 < 0xC0 && 0x80 <= b2 < 0xC0 && 0x80 <= b3 < 0xC0
      && (b0 - 0xF0) * 0x4_0000 + (b1 - 0x80) * 0x1000 + (b2 - 0x80) * 0x40 + (b3 - 0x80) == cp
  {
    assert (cp / 0x40) / 0x40 == cp / 0x1000;
    assert (cp / 0x1000) / 0x40 == cp / 0x4_0000;
  }

  /** A scalar value's encoding decodes back to it. */
  lemma DecodeScalarEncodeScalar(c: char)
    ensures DecodeScalar(EncodeScalar(c)) == Some(c)
  {
    var cp := c as int;
    var e := EncodeScalar(c);
    if cp < 0x80 {
    } else if cp < 0x800 {
      TwoByteForm(cp);
    } else if cp < 0x1_0000 {
      ThreeByteForm(cp);
    } else {
      FourByteForm(cp);
    }
    assert SequenceLength(e[0]) == |e| && ContinuationsOk(e);
    assert CodePoint(e) == cp;
  }

  lemma TwoByteValue(b0: int, b1: int)
    requires 0xC0 <= b0 < 0xE0 && 0x80 <= b1 < 0xC0
    ensures var cp := (b0 - 0xC0) * 0x40 + (b1 - 0x80);
      0xC0 + cp / 0x40 == b0 && 0x80 + cp % 0x40 == b1
  {
  }

  lemma ThreeByteValue(b0: int, b1: int, b2: int)
    requires 0xE0 <= b0 < 0xF0 && 0x80 <= b1 < 0xC0 && 0x80 <= b2 < 0xC0
    ensures var cp := (b0 - 0xE0) * 0x1000 + (b1 - 0x80) * 0x40 + (b2 - 0x80);
      && 0xE0 + cp / 0x1000 == b0
      && 0x80 + (cp / 0x40) % 0x40 == b1
      && 0x80 + cp % 0x40 == b2
  {
    var cp := (b0 - 0xE0) * 0x1000 + (b1 - 0x80) * 0x40 + (b2 - 0x80);
    assert cp / 0x40 == (b0 - 0xE0) * 0x40 + (b1 - 0x80);
  }

  lemma FourByteValue(b0: int, b1: int, b2: int, b3: int)
    requires 0xF0 <= b0 < 0xF8 && 0x80 <= b1 < 0xC0 && 0x80 <= b2 < 0xC0 && 0x80 <= b3 < 0xC0
    ensures var cp := (b0 - 0xF0) * 0x4_0000 + (b1 - 0x80) * 0x1000 + (b2 - 0x80) * 0x40 + (b3 - 0x80);
      && 0xF0 + cp / 0x4_0000 == b0
      && 0x80 + (cp / 0x1000) % 0x40 == b1
      && 0x80 + (cp / 0x40) % 0x40 == b2
      && 0x80 + cp % 0x40 == b3
  {
    var cp := (b0 - 0xF0) * 0x4_0000 + (b1 - 0x80) * 0x1000 + (b2 - 0x80) * 0x40 + (b3 - 0x80);
    assert cp / 0x40 == (b0 - 0xF0) * 0x1000 + (b1 - 0x80) * 0x40 + (b2 - 0x80);
    assert cp / 0x1000 == (b0 - 0xF0) * 0x40 + (b1 - 0x80);
  }

  /** A sequence that decodes is the encoding of the scalar value it spells. */
  lemma EncodeScalarDecodeScalar(s: seq<byte>)
    requires 1 <= |s| <= 4 && DecodeScalar(s).Some?
    ensures EncodeScalar(DecodeScalar(s).value) == s
  {
    var cp := CodePoint(s);
    assert DecodeScalar(s).value as int == cp;
    if |s| == 1 {
    } else if |s| == 2 {
      TwoByteValue(s[0], s[1]);
    } else if |s| == 3 {
      ThreeByteValue(s[0], s[1], s[2]);
    } else {
      FourByteValue(s[0], s[1], s[2], s[3]);
    }
  }

  /** The first scalar value is read back from its own encoding, whatever follows it. */
  lemma DecodeFirstEncodeScalar(c: char, rest: seq<byte>)
    ensures DecodeFirst(EncodeScalar(c) + rest) == Some((c, |EncodeScalar(c)|))
  {
    var e := EncodeScalar(c);
    var b := e + rest;
    DecodeScalarEncodeScalar(c);
    assert b[..|e|] == e;
    assert SequenceLength(b[0]) == |e|;
  }

  /** One step of decoding: a valid non-empty byte string is its first
      scalar value followed by a valid remainder. */
  lemma DecodeStep(b: seq<byte>)
    requires |b| > 0 && Valid(b)
    ensures DecodeFirst(b).Some?
    ensures Valid(b[DecodeFirst(b).value.1..])
    ensures Decode(b).value == [DecodeFirst(b).value.0] + Decode(b[DecodeFirst(b).value.1..]).value
  {
  }

  /** Decoding inverts encoding: every string survives the round trip through its bytes. */
  lemma {:induction false} DecodeEncode(s: string)
    ensures Decode(Encode(s)) == Some(s)
    decreases |s|
  {
    if |s| > 0 {
      var e := EncodeScalar(s[0]);
      var b := Encode(s);
      DecodeFirstEncodeScalar(s[0], Encode(s[1..]));
      assert b[|e|..] == Encode(s[1..]);
      DecodeEncode(s[1..]);
      assert [s[0]] + s[1..] == s;
    }
  }

  /** The bytes the first decoded scalar value occupied are its encoding. */
  lemma EncodeScalarDecodeFirst(b: seq<byte>)
    requires DecodeFirst(b).Some?
    ensures EncodeScalar(DecodeFirst(b).value.0) == b[..DecodeFirst(b).value.1]
  {
    EncodeScalarDecodeScalar(b[..DecodeFirst(b).value.1]);
  }

  lemma EncodeCons(c: char, rest: string, b: seq<byte>, n: nat)
    requires n <= |b| && EncodeScalar(c) == b[..n] && Encode(rest) == b[n..]
    ensures Encode([c] + rest) == b
  {
    assert ([c] + rest)[0] == c && ([c] + rest)[1..] == rest;
    assert b == b[..n] + b[n..];
  }

  /** Encoding inverts decoding: a byte string that decodes is the encoding of its text. */
  lemma {:induction false} EncodeDecode(b: seq<byte>)
    requires Valid(b)
    ensures Encode(Decode(b).value) == b
    decreases |b|
  {
    if |b| > 0 {
      DecodeStep(b);
      var n := DecodeFirst(b).value.1;
      EncodeScalarDecodeFirst(b);
      EncodeDecode(b[n..]);
      EncodeCons(DecodeFirst(b).value.0, Decode(b[n..]).value, b, n);
    }
  }

  /** Distinct strings have distinct bytes. */
  lemma EncodeInjective(s: string, t: string)
    requires Encode(s) == Encode(t)
    ensures s == t
  {
    DecodeEncode(s);
    DecodeEncode(t);
  }

  /** The first character of a non-empty string is read back from the front
      of any byte string that extends its encoding. */
  lemma DecodeFirstOfPrefix(p: string, tail: seq<byte>)
    requires |p| > 0
    ensures DecodeFirst(Encode(p) + tail) == Some((p[0], |EncodeScalar(p[0])|))
    ensures (Encode(p) + tail)[|EncodeScalar(p[0])|..] == Encode(p[1..]) + tail
  {
    assert Encode(p) + tail == EncodeScalar(p[0]) + (Encode(p[1..]) + tail);
    DecodeFirstEncodeScalar(p[0], Encode(p[1..]) + tail);
  }

  /** A byte-wise prefix test of encodings (what Rust's `str::starts_with`
      performs) agrees with the character-wise prefix test. */
  lemma {:induction false} EncodePrefix(p: string, s: string)
    ensures p <= s <==> Encode(p) <= Encode(s)
    decreases |p|
  {
    if p <= s {
      assert s == p + s[|p|..];
      EncodeAppend(p, s[|p|..]);
    } else if |p| > 0 && Encode(p) <= Encode(s) {
      var tail := Encode(s)[|Encode(p)|..];
      assert Encode(s) == Encode(p) + tail;
      DecodeFirstOfPrefix(p, tail);
      assert |s| > 0;
      DecodeFirstOfPrefix(s, []);
      assert Encode(s) + [] == Encode(s);
      assert p[0] == s[0];
      assert Encode(s[1..]) == Encode(p[1..]) + tail;
      EncodePrefix(p[1..], s[1..]);
    }
  }

  /** An ASCII string's bytes are its character codes. */
  lemma {:induction false} EncodeAscii(s: string, b: seq<byte>)
    requires |s| == |b|
    requires forall i :: 0 <= i < |s| ==> (s[i] as int) < 0x80 && b[i] == s[i] as int
    ensures Encode(s) == b
    decreases |s|
  {
    if |s| > 0 {
      EncodeAscii(s[1..], b[1..]);
      assert b == [b[0]] + b[1..];
    }
  }
}
