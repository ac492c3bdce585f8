/** The msgpack-rpc Request Message that `request` builds and serialises:
    `[type, msgid, method, params]` with type 0 (a Request), the fixed msgid
    1, the method "nvim_command" and the command as the only parameter. */
module Rpc {
  import opened Wrappers
  import opened Bytes
  import opened MsgPack
  import Utf8

  /** Message type of a Request in msgpack-rpc. */
  const RequestType: nat := 0
  /** The msgid `request` always uses; no response is read, so it is never matched. */
  const FixedMsgId: nat := 1
  const MaxMsgId: nat := 0x1_0000_0000
  const CommandMethod: string := "nvim_command"
  /** "nvim_command" in ASCII. */
  const CommandMethodBytes: seq<byte> := [0x6e, 0x76, 0x69, 0x6d, 0x5f, 0x63, 0x6f, 0x6d, 0x6d, 0x61, 0x6e, 0x64]

  /** The method name travels as the UTF-8 bytes of "nvim_command". */
  lemma CommandMethodEncoding()
    ensures Utf8.Encode(CommandMethod) == CommandMethodBytes
  {
    Utf8.EncodeAscii(CommandMethod, CommandMethodBytes);
  }

  /** A Request Message as a msgpack-rpc peer reads it; the method name is
      kept as the bytes of its string. */
  datatype Request = Request(msgid: nat, methodName: seq<byte>, params: seq<Value>)

  /** Reads a value as a msgpack-rpc Request: a four-element array holding
      the integer 0, a 32-bit unsigned msgid, a string method name and an
      array of arguments. Anything else is not a Request. */
  function ParseRequest(v: Value): (r: Option<Request>) {
    if !v.Array? || |v.items| != 4 then None
    else
      var kind, msgid, name, params := v.items[0], v.items[1], v.items[2], v.items[3];
      if kind != UInt(RequestType) || !msgid.UInt? || msgid.n >= MaxMsgId || !name.Str? || !params.Array? then None
      else Some(Request(msgid.n, name.data, params.items))
  }

  /** The value tree `request` serialises; the method name is the string
      "nvim_command", whose bytes `CommandMethodEncoding` spells out. */
  function RequestValue(command: string): (v: Value)
    requires |Utf8.Encode(command)| < MaxLength
    ensures WellFormed(v)
    ensures ParseRequest(v) == Some(Request(FixedMsgId, CommandMethodBytes, [Str(Utf8.Encode(command))]))
  {
    Array([UInt(RequestType), UInt(FixedMsgId), Str(CommandMethodBytes), Array([Str(Utf8.Encode(command))])])
  }

  /** What a listener recovers from a buffer: the command of an
      "nvim_command" Request whose only argument is a UTF-8 string. */
  function DecodeCommand(b: seq<byte>): (r: Option<string>) {
    match MsgPack.Decode(b)
    case Err(_) => None
    case Ok(v) =>
      match ParseRequest(v)
      case None => None
      case Some(req) =>
        if req.methodName == CommandMethodBytes && |req.params| == 1 && req.params[0].Str? then
          Utf8.Decode(req.params[0].data)
        else None
  }

  /** `request`: the MessagePack bytes of the Request Message for `command`.
      The bytes decode to the message, and a listener reads `command` back
      intact, whatever its content. */
  function RequestBytes(command: string): (r: seq<byte>)
    requires |Utf8.Encode(command)| < MaxLength
    ensures MsgPack.Decode(r) == Ok(RequestValue(command))
    ensures DecodeCommand(r) == Some(command)
  {
    var v := RequestValue(command);
    RoundTrip(v);
    Utf8.DecodeEncode(command);
    Encode(v)
  }

  /** The encoding of a request's value tree, item by item, for any
      argument bytes `text`. */
  lemma EncodedRequestValue(text: seq<byte>)
    requires |text| < MaxLength
    ensures Encode(Array([UInt(RequestType), UInt(FixedMsgId), Str(CommandMethodBytes), Array([Str(text)])]))
      == [0x94, 0x00, 0x01, 0xac] + CommandMethodBytes + [0x91] + StrHeader(|text|) + text
  {
    var arg := Array([Str(text)]);
    var items := [UInt(RequestType), UInt(FixedMsgId), Str(CommandMethodBytes), arg];
    EncodeSingleton(Str(text));
    EncodeMethodName();
    assert AllWellFormed([]);
    EncodeItemsCons(arg, []);
    assert [arg] + [] == [arg];
    EncodeItemsCons(Str(CommandMethodBytes), [arg]);
    EncodeItemsCons(UInt(FixedMsgId), [Str(CommandMethodBytes), arg]);
    EncodeItemsCons(UInt(RequestType), items[1..]);
    assert Encode(UInt(RequestType)) == [0x00] && Encode(UInt(FixedMsgId)) == [0x01];
    assert Encode(Array(items)) == [0x94] + EncodeItems(items);
    Flatten(CommandMethodBytes, StrHeader(|text|), text);
  }

  /** Regrouping the concatenation the encoder produces item by item. */
  lemma Flatten(m: seq<byte>, h: seq<byte>, t: seq<byte>)
    ensures [0x94] + ([0x00] + ([0x01] + ([0xac] + m + ([0x91] + (h + t) + []))))
      == [0x94, 0x00, 0x01, 0xac] + m + [0x91] + h + t
  {
    assert [0x91] + (h + t) + [] == [0x91] + h + t;
    assert [0x94] + ([0x00] + ([0x01] + [0xac])) == [0x94, 0x00, 0x01, 0xac];
  }

  lemma EncodeMethodName()
    ensures Encode(Str(CommandMethodBytes)) == [0xac] + CommandMethodBytes
  {
  }

  lemma EncodeSingleton(v: Value)
    requires WellFormed(v)
    ensures Encode(Array([v])) == [0x91] + Encode(v)
  {
    assert [v][1..] == [];
    assert EncodeItems([v]) == Encode(v) + EncodeItems([]);
  }

  /** The exact wire layout: fixarray of 4, fixint 0, fixint 1, fixstr of 12
      holding "nvim_command", fixarray of 1, then the command as a string. */
  lemma RequestLayout(command: string)
    requires |Utf8.Encode(command)| < MaxLength
    ensures RequestBytes(command)
      == [0x94, 0x00, 0x01, 0xac] + CommandMethodBytes + [0x91]
         + StrHeader(|Utf8.Encode(command)|) + Utf8.Encode(command)
  {
    EncodedRequestValue(Utf8.Encode(command));
  }

  /** The encoded message opens with its Request marker: fixarray of 4,
      then type 0, then msgid 1. */
  lemma RequestPrefix(command: string)
    requires |Utf8.Encode(command)| < MaxLength
    ensures |RequestBytes(command)| > 3
    ensures RequestBytes(command)[..3] == [0x94, RequestType, FixedMsgId]
  {
    RequestLayout(command);
    OpensWith(CommandMethodBytes, StrHeader(|Utf8.Encode(command)|), Utf8.Encode(command));
  }

  lemma OpensWith(m: seq<byte>, h: seq<byte>, t: seq<byte>)
    ensures var b := [0x94, 0x00, 0x01, 0xac] + m + [0x91] + h + t;
      |b| > 3 && b[..3] == [0x94, 0x00, 0x01]
  {
  }

  /** Different commands give different bytes. */
  lemma RequestInjective(a: string, b: string)
    requires |Utf8.Encode(a)| < MaxLength && |Utf8.Encode(b)| < MaxLength
    requires RequestBytes(a) == RequestBytes(b)
    ensures a == b
  {
  }
}
