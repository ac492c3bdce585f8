/** The part of the MessagePack format (the "Formats" section of the
    MessagePack specification) that the request message uses: unsigned
    integers, strings and arrays. `Encode` is `rmpv::encode::write_value`
    for these values: it always picks the smallest format that fits, as
    rmp's `write_uint`, `write_str_len` and `write_array_len` do.
    `Decode` reads any of the listed formats, canonical or not. */
module MsgPack {
  import opened Wrappers
  import opened Bytes

  /** A MessagePack value limited to the families the request uses. A
      string holds the raw bytes of its payload. */
  datatype Value =
    | UInt(n: nat)
    | Str(data: seq<byte>)
    | Array(items: seq<Value>)

  const MaxUInt: nat := 0x1_0000_0000_0000_0000
  const MaxLength: nat := 0x1_0000_0000

  /** A value that has a MessagePack encoding: integers fit in 64 bits,
      string and array lengths in 32 bits. */
  predicate WellFormed(v: Value)
    decreases v
  {
    match v
    case UInt(n) => n < MaxUInt
    case Str(data) => |data| < MaxLength
    case Array(items) => |items| < MaxLength && forall i :: 0 <= i < |items| ==> WellFormed(items[i])
  }

  predicate AllWellFormed(items: seq<Value>) {
    forall i :: 0 <= i < |items| ==> WellFormed(items[i])
  }

  /** What a marker byte announces: a value held in the marker itself, or
      the width in bytes of the big-endian field that follows it. */
  datatype Format =
    | PositiveFixInt(n: nat)       // 0x00 - 0x7f
    | FixArrayFormat(count: nat)   // 0x90 - 0x9f
    | FixStrFormat(len: nat)       // 0xa0 - 0xbf
    | UIntFormat(width: nat)       // 0xcc - 0xcf: uint 8, 16, 32, 64
    | StrFormat(width: nat)        // 0xd9 - 0xdb: str 8, 16, 32
    | ArrayFormat(width: nat)      // 0xdc - 0xdd: array 16, 32
    | Unsupported                  // every other family (maps, floats, negative ints, ...)

  /** The format table of the MessagePack specification, restricted to the
      families above. */
  function FormatOf(m: byte): (f: Format)
    ensures f.UIntFormat? ==> f.width <= 8 && Pow256(f.width) <= MaxUInt
    ensures f.StrFormat? ==> f.width <= 4 && Pow256(f.width) <= MaxLength
    ensures f.ArrayFormat? ==> f.width <= 4 && Pow256(f.width) <= MaxLength
  {
    Pow256Widths();
    if m < 0x80 then PositiveFixInt(m)
    else if 0x90 <= m < 0xa0 then FixArrayFormat(m - 0x90)
    else if 0xa0 <= m < 0xc0 then FixStrFormat(m - 0xa0)
    else if m == 0xcc then UIntFormat(1)
    else if m == 0xcd then UIntFormat(2)
    else if m == 0xce then UIntFormat(4)
    else if m == 0xcf then UIntFormat(8)
    else if m == 0xd9 then StrFormat(1)
    else if m == 0xda then StrFormat(2)
    else if m == 0xdb then StrFormat(4)
    else if m == 0xdc then ArrayFormat(2)
    else if m == 0xdd then ArrayFormat(4)
    else Unsupported
  }

  /** The narrowest field of the uint, str and array families that holds `n`. */
  function UIntWidth(n: nat): (r: nat) {
    if n < 0x100 then 1 else if n < 0x1_0000 then 2 else if n < 0x1_0000_0000 then 4 else 8
  }

  function StrWidth(len: nat): (r: nat) {
    if len < 0x100 then 1 else if len < 0x1_0000 then 2 else 4
  }

  function ArrayWidth(count: nat): (r: nat) {
    if count < 0x1_0000 then 2 else 4
  }

  /** The marker of each multi-byte family at each width, as the format table assigns them. */
  function UIntMarker(width: nat): (r: byte) {
    if width == 1 then 0xcc else if width == 2 then 0xcd else if width == 4 then 0xce else 0xcf
  }

  function StrMarker(width: nat): (r: byte) {
    if width == 1 then 0xd9 else if width == 2 then 0xda else 0xdb
  }

  function ArrayMarker(width: nat): (r: byte) {
    if width == 2 then 0xdc else 0xdd
  }

  /** Positive fixint below 128, otherwise the narrowest uint family. */
  function EncodeUInt(n: nat): (r: seq<byte>)
    requires n < MaxUInt
  {
    Pow256Widths();
    if n < 0x80 then [n]
    else
      [UIntMarker(UIntWidth(n))] + ToBigEndian(n, UIntWidth(n))
  }

  /** fixstr below 32 bytes, otherwise the narrowest str family. */
  function StrHeader(len: nat): (r: seq<byte>)
    requires len < MaxLength
  {
    Pow256Widths();
    if len < 32 then [0xa0 + len]
    else
      [StrMarker(StrWidth(len))] + ToBigEndian(len, StrWidth(len))
  }

  /** fixarray below 16 elements, otherwise the narrowest array family. */
  function ArrayHeader(count: nat): (r: seq<byte>)
    requires count < MaxLength
  {
    Pow256Widths();
    if count < 16 then [0x90 + count]
    else
      [ArrayMarker(ArrayWidth(count))] + ToBigEndian(count, ArrayWidth(count))
  }

  /** The MessagePack bytes of a value. */
  function Encode(v: Value): (r: seq<byte>)
    requires WellFormed(v)
    ensures |r| >= 1
    decreases v
  {
    match v
    case UInt(n) => EncodeUInt(n)
    case Str(data) => StrHeader(|data|) + data
    case Array(items) => ArrayHeader(|items|) + EncodeItems(items)
  }

  /** The encodings of a sequence of values, back to back (an array's body). */
  function EncodeItems(items: seq<Value>): (r: seq<byte>)
    requires AllWellFormed(items)
    ensures |r| >= |items|
    decreases items
  {
    if |items| == 0 then [] else Encode(items[0]) + EncodeItems(items[1..])
  }

  datatype DecodeError =
    | Truncated
    | UnsupportedMarker(marker: byte)
    | TrailingBytes

  /** Reads a `width`-byte big-endian unsigned integer off the front of `b`. */
  function ReadBigEndian(width: nat, b: seq<byte>): (r: Result<(nat, seq<byte>), DecodeError>)
    ensures r.Ok? <==> width <= |b|
    ensures r.Ok? ==> r.value.0 < Pow256(width) && r.value.1 == b[width..]
  {
    if |b| < width then Err(Truncated) else Ok((FromBigEndian(b[..width]), b[width..]))
  }

  /** Reads a `len`-byte string payload off the front of `b`. */
  function ReadPayload(len: nat, b: seq<byte>): (r: Result<(Value, seq<byte>), DecodeError>)
    ensures r.Ok? <==> len <= |b|
    ensures r.Ok? ==> r.value.0 == Str(b[..len]) && r.value.1 == b[len..]
  {
    if |b| < len then Err(Truncated) else Ok((Str(b[..len]), b[len..]))
  }

  /** Decodes one value off the front of `b`, returning it with the bytes
      that follow it. */
  function DecodeValue(b: seq<byte>): (r: Result<(Value, seq<byte>), DecodeError>)
    ensures r.Ok? ==> |r.value.1| < |b| && r.value.1 == b[|b| - |r.value.1|..]
    ensures r.Ok? ==> WellFormed(r.value.0)
    decreases |b|, 0
  {
    if |b| == 0 then Err(Truncated)
    else
      var tail := b[1..];
      match FormatOf(b[0])
      case PositiveFixInt(n) => Ok((UInt(n), tail))
      case FixArrayFormat(count) => DecodeArray(count, tail)
      case FixStrFormat(len) => ReadPayload(len, tail)
      case UIntFormat(width) =>
        var h :- ReadBigEndian(width, tail);
        Ok((UInt(h.0), h.1))
      case StrFormat(width) =>
        var h :- ReadBigEndian(width, tail);
        ReadPayload(h.0, h.1)
      case ArrayFormat(width) =>
        var h :- ReadBigEndian(width, tail);
        DecodeArray(h.0, h.1)
      case Unsupported => Err(UnsupportedMarker(b[0]))
  }

  /** Decodes an array body of `count` elements off the front of `b`. */
  function DecodeArray(count: nat, b: seq<byte>): (r: Result<(Value, seq<byte>), DecodeError>)
    requires count < MaxLength
    ensures r.Ok? ==> |r.value.1| <= |b| && r.value.1 == b[|b| - |r.value.1|..]
    ensures r.Ok? ==> WellFormed(r.value.0)
    decreases |b|, 2
  {
    var body :- DecodeItems(count, b);
    Ok((Array(body.0), body.1))
  }

  /** The number of values still to decode once one has been read: `count - 1`
      under a name of its own, so that the solver matches the recursive call
      of `DecodeItems` by this name rather than by arithmetic on `count`. */
  function Fewer(count: nat): (r: nat)
    requires count > 0
    ensures r + 1 == count
  {
    count - 1
  }

  /** Decodes `count` consecutive values off the front of `b`. */
  function DecodeItems(count: nat, b: seq<byte>): (r: Result<(seq<Value>, seq<byte>), DecodeError>)
    ensures r.Ok? ==> |r.value.0| == count && AllWellFormed(r.value.0)
    ensures r.Ok? ==> |r.value.1| <= |b| && r.value.1 == b[|b| - |r.value.1|..]
    decreases |b|, 1
  {
    if count == 0 then Ok(([], b))
    else
      var first :- DecodeValue(b);
      var others :- DecodeItems(Fewer(count), first.1);
      Ok(([first.0] + others.0, others.1))
  }

  /** Decodes a buffer that holds exactly one value. */
  function Decode(b: seq<byte>): (r: Result<Value, DecodeError>)
    ensures r.Ok? ==> WellFormed(r.value)
  {
    var p :- DecodeValue(b);
    if |p.1| == 0 then Ok(p.0) else Err(TrailingBytes)
  }

  lemma ReadBigEndianWritten(n: nat, width: nat, rest: seq<byte>)
    requires n < Pow256(width)
    ensures ReadBigEndian(width, ToBigEndian(n, width) + rest) == Ok((n, rest))
  {
    var b := ToBigEndian(n, width) + rest;
    assert b[..width] == ToBigEndian(n, width) && b[width..] == rest;
    FromToBigEndian(n, width);
  }

  /** The marker the encoder writes announces the format it wrote. */
  lemma MarkersAnnounceTheirFormat(x: nat)
    ensures x < 0x80 ==> FormatOf(x) == PositiveFixInt(x)
    ensures x < 16 ==> FormatOf(0x90 + x) == FixArrayFormat(x)
    ensures x < 32 ==> FormatOf(0xa0 + x) == FixStrFormat(x)
    ensures FormatOf(UIntMarker(UIntWidth(x))) == UIntFormat(UIntWidth(x))
    ensures FormatOf(StrMarker(StrWidth(x))) == StrFormat(StrWidth(x))
    ensures FormatOf(ArrayMarker(ArrayWidth(x))) == ArrayFormat(ArrayWidth(x))
  {
  }

  /** An encoded integer is read back, whatever follows it. */
  lemma DecodeEncodeUInt(n: nat, rest: seq<byte>)
    requires n < MaxUInt
    ensures DecodeValue(EncodeUInt(n) + rest) == Ok((UInt(n), rest))
  {
    if n < 0x80 {
      DecodeEncodeFixInt(n, rest);
    } else {
      DecodeEncodeWideUInt(n, rest);
    }
  }

  lemma DecodeEncodeFixInt(n: nat, rest: seq<byte>)
    requires n < 0x80
    ensures DecodeValue([n] + rest) == Ok((UInt(n), rest))
  {
    MarkersAnnounceTheirFormat(n);
    assert ([n] + rest)[1..] == rest;
  }

  lemma DecodeEncodeWideUInt(n: nat, rest: seq<byte>)
    requires 0x80 <= n < MaxUInt
    ensures var w := UIntWidth(n);
      n < Pow256(w) && DecodeValue([UIntMarker(w)] + ToBigEndian(n, w) + rest) == Ok((UInt(n), rest))
  {
    Pow256Widths();
    MarkersAnnounceTheirFormat(n);
    var w := UIntWidth(n);
    var b := [UIntMarker(w)] + ToBigEndian(n, w) + rest;
    assert b[1..] == ToBigEndian(n, w) + rest;
    ReadBigEndianWritten(n, w, rest);
  }

  /** An encoded string is read back, whatever follows it. */
  lemma DecodeEncodeStr(data: seq<byte>, rest: seq<byte>)
    requires |data| < MaxLength
    ensures DecodeValue(StrHeader(|data|) + data + rest) == Ok((Str(data), rest))
  {
    var len := |data|;
    var body := data + rest;
    assert body[..len] == data && body[len..] == rest;
    assert StrHeader(len) + data + rest == StrHeader(len) + body;
    if len < 32 {
      ConsParts(0xa0 + len, body);
      MarkersAnnounceTheirFormat(len);
    } else {
      DecodeWideStrHeader(len, body);
    }
  }

  /** A one-byte header consed onto a body splits back into the two. */
  lemma ConsParts(m: byte, body: seq<byte>)
    ensures ([m] + body)[0] == m && ([m] + body)[1..] == body
  {
  }

  lemma DecodeWideStrHeader(len: nat, body: seq<byte>)
    requires 32 <= len < MaxLength
    ensures DecodeValue(StrHeader(len) + body) == ReadPayload(len, body)
  {
    Pow256Widths();
    MarkersAnnounceTheirFormat(len);
    var w := StrWidth(len);
    var b := StrHeader(len) + body;
    assert b[0] == StrMarker(w);
    assert b[1..] == ToBigEndian(len, w) + body;
    ReadBigEndianWritten(len, w, body);
  }

  /** After an array header, decoding continues with the array's body. */
  lemma DecodeArrayHeader(count: nat, body: seq<byte>)
    requires count < MaxLength
    ensures DecodeValue(ArrayHeader(count) + body) == DecodeArray(count, body)
  {
    if count < 16 {
      ConsParts(0x90 + count, body);
      MarkersAnnounceTheirFormat(count);
    } else {
      DecodeWideArrayHeader(count, body);
    }
  }

  lemma DecodeWideArrayHeader(count: nat, body: seq<byte>)
    requires 16 <= count < MaxLength
    ensures DecodeValue(ArrayHeader(count) + body) == DecodeArray(count, body)
  {
    Pow256Widths();
    MarkersAnnounceTheirFormat(count);
    var w := ArrayWidth(count);
    var b := ArrayHeader(count) + body;
    assert b[0] == ArrayMarker(w);
    assert b[1..] == ToBigEndian(count, w) + body;
    ReadBigEndianWritten(count, w, body);
  }

  /** Decoding inverts encoding for one value, whatever follows it. */
  lemma {:induction false} DecodeEncodeValue(v: Value, rest: seq<byte>)
    requires WellFormed(v)
    ensures DecodeValue(Encode(v) + rest) == Ok((v, rest))
    decreases v, 1
  {
    match v
    case UInt(n) =>
      DecodeEncodeUInt(n, rest);
    case Str(data) =>
      DecodeEncodeStr(data, rest);
    case Array(items) =>
      assert Encode(v) + rest == ArrayHeader(|items|) + (EncodeItems(items) + rest);
      DecodeArrayHeader(|items|, EncodeItems(items) + rest);
      DecodeEncodeItems(items, rest);
  }

  /** Decoding inverts encoding for an array body, whatever follows it. */
  lemma {:induction false} DecodeEncodeItems(items: seq<Value>, rest: seq<byte>)
    requires AllWellFormed(items)
    ensures DecodeItems(|items|, EncodeItems(items) + rest) == Ok((items, rest))
    decreases items, 0
  {
    if |items| > 0 {
      var tail := EncodeItems(items[1..]) + rest;
      EncodeItemsSplit(items, rest);
      DecodeEncodeValue(items[0], tail);
      DecodeEncodeItems(items[1..], rest);
      assert Fewer(|items|) == |items[1..]|;
      DecodeItemsCons(|items|, EncodeItems(items) + rest, items[0], tail, items[1..], rest);
      assert [items[0]] + items[1..] == items;
    }
  }

  lemma EncodeItemsSplit(items: seq<Value>, rest: seq<byte>)
    requires |items| > 0 && AllWellFormed(items)
    ensures AllWellFormed(items[1..]) && WellFormed(items[0])
    ensures EncodeItems(items) + rest == Encode(items[0]) + (EncodeItems(items[1..]) + rest)
  {
    TailWellFormed(items);
    var head, others := Encode(items[0]), EncodeItems(items[1..]);
    assert EncodeItems(items) == head + others;
    AppendAssoc(head, others, rest);
  }

  lemma TailWellFormed(items: seq<Value>)
    requires |items| > 0 && AllWellFormed(items)
    ensures AllWellFormed(items[1..]) && WellFormed(items[0])
  {
    assert forall i :: 0 <= i < |items| - 1 ==> items[1..][i] == items[i + 1];
  }

  lemma AppendAssoc(a: seq<byte>, b: seq<byte>, c: seq<byte>)
    ensures (a + b) + c == a + (b + c)
  {
  }

  /** An array body is its first value followed by the others. */
  lemma DecodeItemsCons(count: nat, b: seq<byte>, v: Value, mid: seq<byte>, others: seq<Value>, rest: seq<byte>)
    requires count > 0 && DecodeValue(b) == Ok((v, mid))
    requires DecodeItems(Fewer(count), mid) == Ok((others, rest))
    ensures DecodeItems(count, b) == Ok(([v] + others, rest))
  {
  }

  /** Round trip: the bytes of a value decode to exactly that value. */
  lemma RoundTrip(v: Value)
    requires WellFormed(v)
    ensures Decode(Encode(v)) == Ok(v)
  {
    DecodeEncodeValue(v, []);
    assert Encode(v) + [] == Encode(v);
  }

  /** Distinct values have distinct encodings. */
  lemma EncodeInjective(v: Value, w: Value)
    requires WellFormed(v) && WellFormed(w)
    requires Encode(v) == Encode(w)
    ensures v == w
  {
    RoundTrip(v);
    RoundTrip(w);
  }

  /** A value that fits a field of `width` bytes never gets a wider field
      from the encoder. */
  lemma WidthsAreMinimal(x: nat, width: nat)
    requires x < Pow256(width)
    ensures width in {1, 2, 4, 8} ==> UIntWidth(x) <= width
    ensures width in {1, 2, 4} ==> StrWidth(x) <= width
    ensures width in {2, 4} ==> ArrayWidth(x) <= width
  {
    Pow256Widths();
  }

  /** One decoding step of an array body: its first value, then the others. */
  lemma DecodeItemsStep(count: nat, b: seq<byte>, items: seq<Value>, rest: seq<byte>)
    returns (v: Value, mid: seq<byte>, others: seq<Value>, more: nat)
    requires count > 0 && DecodeItems(count, b) == Ok((items, rest))
    ensures DecodeValue(b) == Ok((v, mid)) && |mid| < |b| && WellFormed(v)
    ensures more == Fewer(count) && DecodeItems(more, mid) == Ok((others, rest))
    ensures AllWellFormed(others) && items == [v] + others
  {
    var first := DecodeValue(b).value;
    v, mid := first.0, first.1;
    more := Fewer(count);
    others := DecodeItems(more, mid).value.0;
  }

  /** The encoder emits the shortest form: no byte string that decodes to a
      value is shorter than that value's encoding. */
  lemma {:induction false} ShortestValue(b: seq<byte>)
    requires DecodeValue(b).Ok?
    ensures |Encode(DecodeValue(b).value.0)| <= |b| - |DecodeValue(b).value.1|
    decreases |b|, 1
  {
    match FormatOf(b[0])
    case PositiveFixInt(n) => ShortestFixInt(b);
    case FixStrFormat(len) => ShortestFixStr(b);
    case UIntFormat(width) => ShortestWideUInt(b, width);
    case StrFormat(width) => ShortestWideStr(b, width);
    case FixArrayFormat(count) => ShortestFixArray(b, count);
    case ArrayFormat(width) => ShortestWideArray(b, width);
    case Unsupported =>
  }

  lemma ShortestFixInt(b: seq<byte>)
    requires |b| > 0 && FormatOf(b[0]).PositiveFixInt? && DecodeValue(b).Ok?
    ensures |Encode(DecodeValue(b).value.0)| <= |b| - |DecodeValue(b).value.1|
  {
    assert DecodeValue(b).value == (UInt(b[0]), b[1..]);
  }

  lemma ShortestFixStr(b: seq<byte>)
    requires |b| > 0 && FormatOf(b[0]).FixStrFormat? && DecodeValue(b).Ok?
    ensures |Encode(DecodeValue(b).value.0)| <= |b| - |DecodeValue(b).value.1|
  {
    var len := FormatOf(b[0]).len;
    assert DecodeValue(b) == ReadPayload(len, b[1..]);
  }

  lemma ShortestWideUInt(b: seq<byte>, width: nat)
    requires |b| > 0 && FormatOf(b[0]) == UIntFormat(width) && DecodeValue(b).Ok?
    ensures |Encode(DecodeValue(b).value.0)| <= |b| - |DecodeValue(b).value.1|
  {
    var h := ReadBigEndian(width, b[1..]).value;
    assert DecodeValue(b).value == (UInt(h.0), h.1);
    WidthsAreMinimal(h.0, width);
  }

  lemma ShortestWideStr(b: seq<byte>, width: nat)
    requires |b| > 0 && FormatOf(b[0]) == StrFormat(width) && DecodeValue(b).Ok?
    ensures |Encode(DecodeValue(b).value.0)| <= |b| - |DecodeValue(b).value.1|
  {
    var h := ReadBigEndian(width, b[1..]).value;
    assert DecodeValue(b) == ReadPayload(h.0, h.1);
    WidthsAreMinimal(h.0, width);
  }

  lemma {:induction false} ShortestFixArray(b: seq<byte>, count: nat)
    requires |b| > 0 && FormatOf(b[0]) == FixArrayFormat(count) && DecodeValue(b).Ok?
    ensures |Encode(DecodeValue(b).value.0)| <= |b| - |DecodeValue(b).value.1|
    decreases |b|, 0
  {
    assert DecodeValue(b) == DecodeArray(count, b[1..]);
    ShortestArrayBody(count, b[1..]);
  }

  lemma {:induction false} ShortestWideArray(b: seq<byte>, width: nat)
    requires |b| > 0 && FormatOf(b[0]) == ArrayFormat(width) && DecodeValue(b).Ok?
    ensures |Encode(DecodeValue(b).value.0)| <= |b| - |DecodeValue(b).value.1|
    decreases |b|, 0
  {
    var h := ReadBigEndian(width, b[1..]).value;
    assert DecodeValue(b) == DecodeArray(h.0, h.1);
    ShortestArrayBody(h.0, h.1);
    WidthsAreMinimal(h.0, width);
  }

  /** An array's encoding is its header followed by no more bytes than its body took. */
  lemma {:induction false} ShortestArrayBody(count: nat, b: seq<byte>)
    requires count < MaxLength && DecodeArray(count, b).Ok?
    ensures |Encode(DecodeArray(count, b).value.0)| <= |ArrayHeader(count)| + |b| - |DecodeArray(count, b).value.1|
    decreases |b|, 3
  {
    var body := DecodeItems(count, b).value;
    assert DecodeArray(count, b).value == (Array(body.0), body.1);
    ShortestItems(count, b, body.0, body.1);
    assert |Encode(Array(body.0))| == |ArrayHeader(count)| + |EncodeItems(body.0)|;
  }

  lemma {:induction false} ShortestItems(count: nat, b: seq<byte>, items: seq<Value>, rest: seq<byte>)
    requires DecodeItems(count, b) == Ok((items, rest))
    ensures AllWellFormed(items) && |EncodeItems(items)| <= |b| - |rest|
    decreases |b|, 2
  {
    if count > 0 {
      var v, mid, others, more := DecodeItemsStep(count, b, items, rest);
      ShortestValue(b);
      ShortestItems(more, mid, others, rest);
      EncodeItemsCons(v, others);
    }
  }

  lemma EncodeItemsCons(v: Value, items: seq<Value>)
    requires WellFormed(v) && AllWellFormed(items)
    ensures AllWellFormed([v] + items)
    ensures EncodeItems([v] + items) == Encode(v) + EncodeItems(items)
  {
    assert ([v] + items)[0] == v && ([v] + items)[1..] == items;
  }

  /** Whole-buffer form: every buffer that decodes to `v` is at least as long as `Encode(v)`. */
  lemma Shortest(b: seq<byte>)
    requires Decode(b).Ok?
    ensures |Encode(Decode(b).value)| <= |b|
  {
    ShortestValue(b);
  }
}
