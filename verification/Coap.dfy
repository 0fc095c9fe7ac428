/**
 * CoAP messages: the header accessors of src/coapHelpers.cpp, and a decoder
 * written from sections 3 and 3.1 of RFC 7252. The decoder is the reference
 * that the writer and the two hand-written readers are compared with.
 */
module Coap {
  import opened Bytes

  const MIN_LEN: nat := 4
  const TOKEN_MAX_LEN: nat := 8
  const TOKEN_START: nat := 4
  const PAYLOAD_MARKER: byte := 0xFF

  // option numbers: RFC 7641 section 2, RFC 7252 section 5.10
  const OBSERVE: uint16 := 6
  const URI_PATH: uint16 := 11
  const CONTENT_FORMAT: uint16 := 12
  const URI_QUERY: uint16 := 15

  // ------------------------------------------------------------ header fields

  datatype CoapType = CON | NON | ACK | RST

  function TypeOf(n: nat): CoapType {
    if n == 0 then CON else if n == 1 then NON else if n == 2 then ACK else RST
  }

  function TypeBits(t: CoapType): nat {
    match t case CON => 0 case NON => 1 case ACK => 2 case RST => 3
  }

  function GetCoapType(buffer: seq<byte>): CoapType
    requires |buffer| >= 1
  {
    TypeOf(buffer[0] / 0x10 % 4)
  }

  function GetTokenLength(buffer: seq<byte>): nat
    requires |buffer| >= 1
  {
    buffer[0] % 0x10
  }

  function CodeClass(code: byte): nat { code / 0x20 }

  function CodeDetail(code: byte): nat { code % 0x20 }

  predicate IsEmpty(buffer: seq<byte>)
    requires |buffer| >= 2
  {
    buffer[1] == 0
  }

  predicate IsRequest(buffer: seq<byte>)
    requires |buffer| >= 2
  {
    CodeClass(buffer[1]) == 0 && CodeDetail(buffer[1]) >= 1
  }

  predicate IsResponse(buffer: seq<byte>)
    requires |buffer| >= 2
  {
    2 <= CodeClass(buffer[1]) <= 5
  }

  function GetMid(buffer: seq<byte>): uint16
    requires |buffer| >= 4
  {
    BigEndian(buffer[2], buffer[3])
  }

  predicate LooksLikeCoap(buffer: seq<byte>)
    requires |buffer| >= 1
    ensures LooksLikeCoap(buffer) ==> |buffer| >= MIN_LEN + GetTokenLength(buffer)
  {
    && |buffer| >= MIN_LEN + GetTokenLength(buffer)
    && buffer[0] / 0x40 == 1
    && GetTokenLength(buffer) <= TOKEN_MAX_LEN
  }

  function Token(buffer: seq<byte>): seq<byte>
    requires |buffer| >= 1 && LooksLikeCoap(buffer)
  {
    buffer[TOKEN_START..TOKEN_START + GetTokenLength(buffer)]
  }

  /** Options and payload: what follows the token. */
  function Body(buffer: seq<byte>): seq<byte>
    requires |buffer| >= 1 && LooksLikeCoap(buffer)
  {
    buffer[TOKEN_START + GetTokenLength(buffer)..]
  }

  /**
   * The layout of section 3 of RFC 7252 in bytes: two bits of version 1, two of
   * type, four of token length up to 8; the code, 0 for Empty, 0.01 to 0.31 for
   * requests, classes 2 to 5 for responses; the MID, high byte first; the token.
   */
  lemma HeaderLayout(b: seq<byte>)
    requires |b| >= 1
    ensures LooksLikeCoap(b) <==> 0x40 <= b[0] <= 0x7F && b[0] % 0x10 <= 8 && |b| >= 4 + b[0] % 0x10
    ensures LooksLikeCoap(b) ==>
      && GetCoapType(b) == (if b[0] < 0x50 then CON else if b[0] < 0x60 then NON else if b[0] < 0x70 then ACK else RST)
      && Token(b) == b[4..4 + b[0] % 0x10] && Body(b) == b[4 + b[0] % 0x10..]
      && GetMid(b) == 0x100 * (b[2] as int) + b[3] as int
      && (IsEmpty(b) <==> b[1] == 0)
      && (IsRequest(b) <==> 1 <= b[1] <= 31)
      && (IsResponse(b) <==> 0x40 <= b[1] <= 0xBF)
  {
    assert b[0] == 0x40 * (b[0] / 0x40) + 0x10 * (b[0] / 0x10 % 4) + b[0] % 0x10;
  }

  /** A message is its first byte, code, MID, token and body. */
  lemma SameMessage(a: seq<byte>, b: seq<byte>)
    requires |a| >= 1 && |b| >= 1 && LooksLikeCoap(a) && LooksLikeCoap(b)
    requires GetCoapType(a) == GetCoapType(b) && a[1] == b[1] && GetMid(a) == GetMid(b)
    requires Token(a) == Token(b) && Body(a) == Body(b)
    ensures a == b
  {
    assert a[0] / 0x10 == 4 + a[0] / 0x10 % 4 && b[0] / 0x10 == 4 + b[0] / 0x10 % 4;
    assert a[0] % 0x10 == |Token(a)| && b[0] % 0x10 == |Token(b)|;
    assert a[2] == b[2] && a[3] == b[3];
    assert a == a[..4] + Token(a) + Body(a) && b == b[..4] + Token(b) + Body(b);
    assert a[..4] == b[..4];
  }

  function WithTokenLength(first: byte, length: nat): byte
    requires length < 0x10
  {
    first / 0x10 * 0x10 + length
  }

  method SetTokenLength(buffer: array<byte>, tokenLen: byte) returns (ok: bool)
    requires buffer.Length >= 1
    modifies buffer
    ensures ok <==> tokenLen <= TOKEN_MAX_LEN
    ensures !ok ==> buffer[..] == old(buffer[..])
    ensures ok ==> buffer[..] == old(buffer[..])[0 := WithTokenLength(old(buffer[0]), tokenLen)]
  {
    if tokenLen > TOKEN_MAX_LEN {
      return false;
    }
    buffer[0] := buffer[0] / 0x10 * 0x10;
    buffer[0] := buffer[0] + tokenLen % 0x10;
    ok := true;
  }

  function CreateResetMsg(mid: uint16): seq<byte> {
    [0x70, 0x00, High(mid), Low(mid)]
  }

  // ------------------------------------------------- RFC 7252 section 3.1

  datatype Opt = Opt(number: nat, value: seq<byte>)

  datatype Content = Content(options: seq<Opt>, payload: seq<byte>)

  datatype Message = Message(kind: CoapType, code: byte, mid: uint16, token: seq<byte>, content: Content)

  datatype FormatError = NotCoap | ReservedNibble | Truncated | EmptyPayload

  /** An option delta or length: its nibble, then 0, 1 or 2 further bytes. */
  datatype Extended = Extended(value: nat, used: nat)

  function ReadExtended(nibble: nat, s: seq<byte>): (r: Result<Extended, FormatError>)
    ensures r.Ok? ==> r.value.used <= |s|
  {
    if nibble < 13 then Ok(Extended(nibble, 0))
    else if nibble == 13 then
      if |s| < 1 then Err(Truncated) else Ok(Extended(13 + s[0] as int, 1))
    else if nibble == 14 then
      if |s| < 2 then Err(Truncated) else Ok(Extended(269 + BigEndian(s[0], s[1]) as int, 2))
    else Err(ReservedNibble)
  }

  datatype OptionHeader = OptionHeader(delta: nat, length: nat, used: nat)

  function ReadOptionHeader(s: seq<byte>): (r: Result<OptionHeader, FormatError>)
    requires |s| >= 1
    ensures r.Ok? ==> 1 <= r.value.used <= |s|
  {
    match ReadExtended(s[0] / 0x10, s[1..])
    case Err(e) => Err(e)
    case Ok(delta) =>
      match ReadExtended(s[0] % 0x10, s[1 + delta.used..])
      case Err(e) => Err(e)
      case Ok(length) => Ok(OptionHeader(delta.value, length.value, 1 + delta.used + length.used))
  }

  /** The options and payload in s, when the preceding option had number last. */
  function DecodeContent(s: seq<byte>, last: nat): Result<Content, FormatError>
    decreases |s|
  {
    if s == [] then Ok(Content([], []))
    else if s[0] == PAYLOAD_MARKER then
      if |s| == 1 then Err(EmptyPayload) else Ok(Content([], s[1..]))
    else
      match ReadOptionHeader(s)
      case Err(e) => Err(e)
      case Ok(h) =>
        if h.used + h.length > |s| then Err(Truncated)
        else
          var number := last + h.delta;
          match DecodeContent(s[h.used + h.length..], number)
          case Err(e) => Err(e)
          case Ok(rest) => Ok(Content([Opt(number, s[h.used..h.used + h.length])] + rest.options, rest.payload))
  }

  function Decode(buffer: seq<byte>): Result<Message, FormatError> {
    if buffer == [] || !LooksLikeCoap(buffer) then Err(NotCoap)
    else
      match DecodeContent(Body(buffer), 0)
      case Err(e) => Err(e)
      case Ok(c) => Ok(Message(GetCoapType(buffer), buffer[1], GetMid(buffer), Token(buffer), c))
  }

  /** The reset message is an empty message of type RST with the given MID. */
  lemma ResetMessageMeaning(mid: uint16)
    ensures Decode(CreateResetMsg(mid)) == Ok(Message(RST, 0, mid, [], Content([], [])))
    ensures IsEmpty(CreateResetMsg(mid))
  {
    var buffer := CreateResetMsg(mid);
    assert buffer[0] == 0x70 && GetTokenLength(buffer) == 0;
    assert Token(buffer) == [] && Body(buffer) == [];
    assert GetMid(buffer) == mid;
  }

  /** The values of the options with a given number, in order. */
  function ValuesOf(options: seq<Opt>, number: nat): seq<seq<byte>> {
    if options == [] then []
    else (if options[0].number == number then [options[0].value] else []) + ValuesOf(options[1..], number)
  }

  /** Segments joined by "/". */
  function Join(segments: seq<seq<byte>>): seq<byte> {
    if segments == [] then []
    else if |segments| == 1 then segments[0]
    else Join(segments[..|segments| - 1]) + [0x2F] + segments[|segments| - 1]
  }
}
