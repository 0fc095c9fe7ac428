/**
 * src/coapPortTracker.cpp as functions on values: which port a message belongs
 * to, marked in its token or remembered by its MID.
 */
module Tracker {
  import opened Bytes
  import opened Bits
  import opened Polynomials
  import opened Coap

  // ------------------------------------------------------- marker (CRC-8)

  /** One turn of a CRC-8 with polynomial 0x07, most significant bit first. */
  function Shift8(c: byte): byte {
    Xor8(2 * c % 0x100, 0x07);
    if c >= 0x80 then Xor(2 * c % 0x100, 0x07) else 2 * c % 0x100
  }

  function Shifts8(c: byte, n: nat): byte {
    if n == 0 then c else Shift8(Shifts8(c, n - 1))
  }

  function Absorb8(c: byte, b: byte): byte {
    Xor8(c, b);
    Shifts8(Xor(c, b), 8)
  }

  /** boost::crc_optimal<8, 0x07, 0, 0, false, false> over the two port bytes. */
  function MarkerByte(low: byte, high: byte): byte {
    Absorb8(Absorb8(0, low), high)
  }

  lemma Shift8Injective(c: byte, d: byte)
    requires Shift8(c) == Shift8(d)
    ensures c == d
  {
    hide Xor;
    var c2, d2 := 2 * c % 0x100, 2 * d % 0x100;
    XorLow(c2, 7);
    XorLow(d2, 7);
    XorComm(c2, 7);
    XorComm(d2, 7);
    if c >= 0x80 && d >= 0x80 {
      XorCancel(7, c2, d2);
    }
  }

  lemma {:induction false} Shifts8Injective(c: byte, d: byte, n: nat)
    requires Shifts8(c, n) == Shifts8(d, n)
    ensures c == d
  {
    hide Xor, Shift8;
    if n > 0 {
      Shift8Injective(Shifts8(c, n - 1), Shifts8(d, n - 1));
      Shifts8Injective(c, d, n - 1);
    }
  }

  lemma Absorb8Injective(c: byte, d: byte, x: byte, y: byte)
    requires Absorb8(c, x) == Absorb8(d, y)
    ensures c == d <==> x == y
  {
    hide Xor;
    Xor8(c, x);
    Xor8(d, y);
    Shifts8Injective(Xor(c, x), Xor(d, y), 8);
    if c == d {
      XorCancel(c, x, y);
    }
    if x == y {
      XorComm(c, x);
      XorComm(d, x);
      XorCancel(x, c, d);
    }
  }

  /** Damage to any single byte of a marker and its port is noticed. */
  lemma MarkerDetectsOneByte(marker: byte, low: byte, high: byte, marker': byte, low': byte, high': byte)
    requires marker == MarkerByte(low, high) && marker' == MarkerByte(low', high')
    requires
      || (marker == marker' && low == low')
      || (marker == marker' && high == high')
      || (low == low' && high == high')
    ensures marker == marker' && low == low' && high == high'
  {
    hide Absorb8;
    if marker == marker' {
      Absorb8Injective(Absorb8(0, low), Absorb8(0, low'), high, high');
      if high == high' {
        Absorb8Injective(0, 0, low, low');
      }
    }
  }

  /** One turn is one step of long division by x^8 + x^2 + x + 1. */
  lemma Shift8IsNext(c: byte)
    ensures Shift8(c) == Next(c, 0x107, 8)
  {
    hide Xor;
    PowersOfTwo();
    if c >= 0x80 {
      var low := 2 * c - 0x100;
      assert 2 * c % 0x100 == low;
      XorDisjoint(low, 1, 8);
      XorDisjoint(7, 1, 8);
      XorRegroup(low, 0x100, 7, 0x100);
      XorSelf(0x100);
      XorZero(Xor(low, 7));
    }
  }

  lemma {:induction false} Shifts8AreNext(c: byte, n: nat, j: nat)
    requires IsRemainder(c, n, 0x107, 8)
    ensures IsRemainder(Shifts8(c, j), Doubled(n, j), 0x107, 8)
  {
    hide IsRemainder, Shift8;
    if j > 0 {
      Shifts8AreNext(c, n, j - 1);
      Shift8IsNext(Shifts8(c, j - 1));
      MarkerDegree();
      NextIsRemainder(Shifts8(c, j - 1), Doubled(n, j - 1), 0x107, 8);
    }
  }

  lemma MarkerDegree()
    ensures HasDegree(0x107, 8)
  {
    PowersOfTwo();
    assert Doubled(1, 9) == 2 * Doubled(1, 8);
  }

  lemma Absorb8IsRemainder(c: byte, b: byte, n: nat)
    requires IsRemainder(c, 0x100 * n, 0x107, 8)
    ensures IsRemainder(Absorb8(c, b), 0x100 * (0x100 * n + b), 0x107, 8)
  {
    hide Xor, IsRemainder, Shifts8;
    PowersOfTwo();
    Xor8(c, b);
    AddedIsRemainder(c, 0x100 * n, b, 0x107, 8);
    XorDisjoint(b, n, 8);
    XorComm(b, 0x100 * n);
    assert Doubled(n, 8) == 0x100 * n;
    Shifts8AreNext(Xor(c, b), 0x100 * n + b, 8);
    assert Doubled(0x100 * n + b, 8) == 0x100 * (0x100 * n + b);
  }

  /**
   * What the marker is: the remainder, and the only one, of the two port bytes, low
   * byte first, shifted up by 8, on division by x^8 + x^2 + x + 1.
   */
  lemma MarkerIsRemainder(low: byte, high: byte, r: nat)
    ensures IsRemainder(r, 0x100 * (0x100 * low + high), 0x107, 8) <==> r == MarkerByte(low, high)
  {
    hide Xor, IsRemainder, Absorb8;
    NoRemainder();
    Absorb8IsRemainder(0, low, 0);
    assert 0x100 * (0x100 * 0 + low) == 0x100 * low;
    Absorb8IsRemainder(Absorb8(0, low), high, low);
    MarkerDegree();
    if IsRemainder(r, 0x100 * (0x100 * low + high), 0x107, 8) {
      RemainderIsUnique(r, MarkerByte(low, high), 0x100 * (0x100 * low + high), 0x107, 8);
    }
  }

  lemma NoRemainder()
    ensures IsRemainder(0, 0, 0x107, 8)
  {
    hide Xor;
    PowersOfTwo();
    TimesZero(0x107);
    XorZero(0);
    assert DividesTo(0, 0x107, 8, 0, 0);
  }

  // ------------------------------------------------------------------ tokens

  /** The three bytes put in front of a token: marker, port low, port high. */
  function TagOf(port: uint16): seq<byte> {
    [MarkerByte(Low(port), High(port)), Low(port), High(port)]
  }

  predicate HasTag(token: seq<byte>) {
    |token| >= 3 && token[0] == MarkerByte(token[1], token[2])
  }

  function TaggedPort(token: seq<byte>): uint16
    requires |token| >= 3
  {
    BigEndian(token[2], token[1])
  }

  lemma TagIsRecognised(port: uint16, token: seq<byte>)
    ensures HasTag(TagOf(port) + token) && TaggedPort(TagOf(port) + token) == port
  {
    hide MarkerByte;
  }

  /** The message with another token; everything else is kept. */
  function WithToken(msg: seq<byte>, token: seq<byte>): seq<byte>
    requires |msg| >= 1 && LooksLikeCoap(msg) && |token| <= TOKEN_MAX_LEN
  {
    [WithTokenLength(msg[0], |token|)] + msg[1..4] + token + Body(msg)
  }

  /** Replacing the token changes nothing else that a reader of the message sees. */
  lemma WithTokenKeeps(msg: seq<byte>, token: seq<byte>)
    requires |msg| >= 1 && LooksLikeCoap(msg) && |token| <= TOKEN_MAX_LEN
    ensures var out := WithToken(msg, token);
      && |out| == |msg| - GetTokenLength(msg) + |token|
      && LooksLikeCoap(out)
      && Token(out) == token
      && Body(out) == Body(msg)
      && GetCoapType(out) == GetCoapType(msg) && out[1] == msg[1] && GetMid(out) == GetMid(msg)
    ensures WithToken(msg, Token(msg)) == msg
  {
    var out := WithToken(msg, token);
    var n := |token|;
    assert out[0] == msg[0] / 0x10 * 0x10 + n;
    assert out[0] % 0x10 == n && out[0] / 0x10 == msg[0] / 0x10;
    assert out[1..4] == msg[1..4];
    assert out[1] == out[1..4][0] && out[2] == out[1..4][1] && out[3] == out[1..4][2];
    assert msg[1] == msg[1..4][0] && msg[2] == msg[1..4][1] && msg[3] == msg[1..4][2];
    assert msg == [msg[0]] + msg[1..4] + Token(msg) + Body(msg);
  }

  // --------------------------------------------------------------- MID map

  /** Nanoseconds of the steady clock. */
  const MID_TIMEOUT: int := 250 * 1_000_000_000

  datatype MappedMid = MappedMid(port: uint16, timeCreated: int)

  type Mids = map<uint16, MappedMid>

  function Tracked(mids: Mids, port: uint16, mid: uint16, now: int): Mids {
    mids[mid := MappedMid(port, now)]
  }

  predicate Expired(entry: MappedMid, now: int) {
    now - entry.timeCreated >= MID_TIMEOUT
  }

  function Swept(mids: Mids, now: int): Mids {
    map mid | mid in mids && !Expired(mids[mid], now) :: mids[mid]
  }

  // ------------------------------------------------------ the two directions

  datatype TrackerError = MaxLenTooSmall | InvalidCoap | NotForwardable

  /** Room and token length allow a tag. */
  predicate Taggable(msg: seq<byte>, maxLen: nat)
    requires |msg| >= 1 && LooksLikeCoap(msg)
  {
    IsRequest(msg) && GetTokenLength(msg) < 5 && maxLen - |msg| >= 3
  }

  /** Messages whose MID is remembered on the way to the serial port. */
  predicate RemembersMid(msg: seq<byte>, maxLen: nat)
    requires |msg| >= 1 && LooksLikeCoap(msg)
  {
    || (IsRequest(msg) && !Taggable(msg, maxLen))
    || ((IsRequest(msg) || IsResponse(msg)) && GetCoapType(msg) == CON)
    || IsEmpty(msg)
  }

  datatype Outbound = Outbound(mids: Mids, bytes: seq<byte>)

  /** udpToSerial: the message to send and the map afterwards. */
  function ToSerial(mids: Mids, port: uint16, msg: seq<byte>, maxLen: nat, now: int): Result<Outbound, TrackerError>
    requires |msg| >= 1
  {
    if maxLen < |msg| then Err(MaxLenTooSmall)
    else if !LooksLikeCoap(msg) then Err(InvalidCoap)
    else
      Ok(Outbound(
        if RemembersMid(msg, maxLen) then Tracked(mids, port, GetMid(msg), now) else mids,
        if Taggable(msg, maxLen) then WithToken(msg, TagOf(port) + Token(msg)) else msg))
  }

  datatype Inbound = Inbound(port: uint16, bytes: seq<byte>)

  function PortOfMid(mids: Mids, defaultPort: uint16, mid: uint16): uint16 {
    if mid in mids then mids[mid].port else defaultPort
  }

  /** serialToUdp: the port to deliver to and the message to deliver. */
  function ToUdp(mids: Mids, defaultPort: uint16, msg: seq<byte>): Result<Inbound, TrackerError>
    requires |msg| >= 1
  {
    if !LooksLikeCoap(msg) then Err(InvalidCoap)
    else if IsRequest(msg) then Ok(Inbound(defaultPort, msg))
    else if IsResponse(msg) && HasTag(Token(msg)) then
      Ok(Inbound(TaggedPort(Token(msg)), WithToken(msg, Token(msg)[3..])))
    else if IsResponse(msg) || IsEmpty(msg) then Ok(Inbound(PortOfMid(mids, defaultPort, GetMid(msg)), msg))
    else Err(NotForwardable)
  }

  // -------------------------------------------------------------- guarantees

  /**
   * Tagging preserves meaning: the decoder sees the same type, code, MID,
   * options and payload (or the same error), and the tag in front of the token.
   */
  lemma TaggingPreservesMeaning(mids: Mids, port: uint16, msg: seq<byte>, maxLen: nat, now: int)
    requires |msg| >= 1 && |msg| <= maxLen && LooksLikeCoap(msg) && Taggable(msg, maxLen)
    ensures ToSerial(mids, port, msg, maxLen, now).Ok?
    ensures var out := ToSerial(mids, port, msg, maxLen, now).value.bytes;
      && |out| == |msg| + 3 <= maxLen
      && LooksLikeCoap(out) && GetTokenLength(out) == GetTokenLength(msg) + 3 <= 7
      && Token(out) == TagOf(port) + Token(msg)
      && Body(out) == Body(msg)
      && Decode(out) == match Decode(msg)
                        case Err(e) => Err(e)
                        case Ok(m) => Ok(m.(token := TagOf(port) + m.token))
  {
    hide DecodeContent, MarkerByte;
    WithTokenKeeps(msg, TagOf(port) + Token(msg));
  }

  /**
   * Untagging inverts tagging: any response with a tagged token goes to the tag's
   * port, whatever the MID map holds, with the original token and nothing else
   * changed.
   */
  lemma TaggedResponseRouted(mids: Mids, defaultPort: uint16, port: uint16, token: seq<byte>, response: seq<byte>)
    requires |response| >= 1 && LooksLikeCoap(response) && IsResponse(response)
    requires Token(response) == TagOf(port) + token
    ensures ToUdp(mids, defaultPort, response) == Ok(Inbound(port, WithToken(response, token)))
    ensures var out := WithToken(response, token);
      && |out| == |response| - 3 && LooksLikeCoap(out) && Token(out) == token && Body(out) == Body(response)
      && GetCoapType(out) == GetCoapType(response) && out[1] == response[1] && GetMid(out) == GetMid(response)
  {
    hide MarkerByte;
    TagIsRecognised(port, token);
    assert (TagOf(port) + token)[3..] == token;
    WithTokenKeeps(response, token);
  }

  /** Tagging and untagging the same message restores it byte for byte. */
  lemma UntagRestores(port: uint16, msg: seq<byte>)
    requires |msg| >= 1 && LooksLikeCoap(msg) && GetTokenLength(msg) < 5
    ensures var tagged := WithToken(msg, TagOf(port) + Token(msg));
      && LooksLikeCoap(tagged) && HasTag(Token(tagged)) && TaggedPort(Token(tagged)) == port
      && WithToken(tagged, Token(tagged)[3..]) == msg
  {
    hide MarkerByte;
    var token := Token(msg);
    var tagged := WithToken(msg, TagOf(port) + token);
    WithTokenKeeps(msg, TagOf(port) + token);
    TagIsRecognised(port, token);
    assert (TagOf(port) + token)[3..] == token;
    WithTokenKeeps(msg, token);
    WithTokenKeeps(tagged, token);
    SameMessage(WithToken(tagged, token), msg);
  }

  /** A response whose token passes for a tag goes nowhere unchanged. */
  lemma TagShortens(mids: Mids, defaultPort: uint16, port: uint16, response: seq<byte>)
    requires |response| >= 1 && LooksLikeCoap(response) && IsResponse(response) && HasTag(Token(response))
    ensures ToUdp(mids, defaultPort, response) != Ok(Inbound(port, response))
  {
    hide MarkerByte;
    WithTokenKeeps(response, Token(response)[3..]);
    assert |WithToken(response, Token(response)[3..])| < |response|;
  }

  /**
   * A request that cannot be tagged is sent unchanged and its MID remembered. A
   * response that repeats its token then comes back unchanged to the client that
   * the map holds for the MID exactly when that token does not pass for a tag.
   */
  lemma UntaggedRequestRouted(mids: Mids, port: uint16, request: seq<byte>, maxLen: nat, now: int,
                              later: Mids, defaultPort: uint16, response: seq<byte>)
    requires |request| >= 1 && |request| <= maxLen && LooksLikeCoap(request) && IsRequest(request)
    requires !Taggable(request, maxLen)
    requires |response| >= 1 && LooksLikeCoap(response) && IsResponse(response)
    requires Token(response) == Token(request) && GetMid(response) == GetMid(request)
    requires GetMid(request) in later && later[GetMid(request)].port == port
    ensures ToSerial(mids, port, request, maxLen, now)
         == Ok(Outbound(mids[GetMid(request) := MappedMid(port, now)], request))
    ensures ToUdp(later, defaultPort, response) == Ok(Inbound(port, response)) <==> !HasTag(Token(request))
  {
    hide MarkerByte;
    if HasTag(Token(request)) {
      TagShortens(later, defaultPort, port, response);
    }
  }

  lemma {:induction false} Shifts8Zero(n: nat)
    ensures Shifts8(0, n) == 0
  {
    hide Xor;
    if n > 0 {
      Shifts8Zero(n - 1);
    }
  }

  /** Port 0 has marker 0, so three zero bytes pass for a tag. */
  lemma ZeroMarker()
    ensures MarkerByte(0, 0) == 0
  {
    assert Xor(0, 0) == 0;
    Shifts8Zero(8);
  }

  /** Three zero bytes pass for a tag of port 0. */
  lemma ZerosPassForTag(token: seq<byte>)
    requires |token| == 5 && forall i :: 0 <= i < 5 ==> token[i] == 0
    ensures HasTag(token) && TaggedPort(token) == 0
  {
    ZeroMarker();
    hide MarkerByte;
  }

  /** A message of version 1 with a token of five zero bytes and nothing behind it. */
  predicate HasFiveZeros(msg: seq<byte>) {
    |msg| == 9 && msg[0] == 0x45 && forall i :: 4 <= i < 9 ==> msg[i] == 0
  }

  lemma FiveZeros(msg: seq<byte>)
    requires HasFiveZeros(msg)
    ensures LooksLikeCoap(msg) && GetTokenLength(msg) == 5
    ensures |Token(msg)| == 5 && HasTag(Token(msg)) && TaggedPort(Token(msg)) == 0
  {
    ZerosPassForTag(Token(msg));
    hide HasTag, TaggedPort;
  }

  /** What serialToUdp leaves of a message whose token it takes for a tagged one. */
  function Untagged(msg: seq<byte>): seq<byte> {
    if msg == [] || !LooksLikeCoap(msg) || GetTokenLength(msg) < 3 then msg else WithToken(msg, Token(msg)[3..])
  }

  /**
   * A client whose own token passes for a tag: a GET with five zero token bytes
   * is too long to tag, so it is sent unchanged and its MID remembered; a response
   * that repeats its token goes to port 0 with the last two of its token bytes,
   * whatever port the map holds for the MID.
   */
  lemma LookalikeToken(mids: Mids, port: uint16, request: seq<byte>, maxLen: nat, now: int,
                       later: Mids, defaultPort: uint16, response: seq<byte>)
    requires HasFiveZeros(request) && request[1] == 0x01 && maxLen >= 9
    requires HasFiveZeros(response) && response[1] == 0x45
    ensures ToSerial(mids, port, request, maxLen, now)
         == Ok(Outbound(mids[GetMid(request) := MappedMid(port, now)], request))
    ensures ToUdp(later, defaultPort, response) == Ok(Inbound(0, Untagged(response)))
    ensures |Untagged(response)| == |response| - 3
  {
    LookalikeSent(mids, port, request, maxLen, now);
    LookalikeReturned(later, defaultPort, response);
    hide *;
  }

  lemma CodesOfExample(msg: seq<byte>)
    requires |msg| >= 2
    ensures msg[1] == 0x01 ==> IsRequest(msg)
    ensures msg[1] == 0x45 ==> IsResponse(msg) && !IsRequest(msg)
  {
  }

  lemma SentUnchanged(mids: Mids, port: uint16, request: seq<byte>, maxLen: nat, now: int)
    requires 4 <= |request| <= maxLen && LooksLikeCoap(request) && IsRequest(request) && GetTokenLength(request) >= 5
    ensures ToSerial(mids, port, request, maxLen, now)
         == Ok(Outbound(mids[GetMid(request) := MappedMid(port, now)], request))
  {
    hide LooksLikeCoap, IsRequest, GetTokenLength, GetMid, WithToken, TagOf, Token, IsResponse, IsEmpty, GetCoapType;
  }

  lemma LookalikeSent(mids: Mids, port: uint16, request: seq<byte>, maxLen: nat, now: int)
    requires HasFiveZeros(request) && request[1] == 0x01 && maxLen >= 9
    ensures ToSerial(mids, port, request, maxLen, now)
         == Ok(Outbound(mids[GetMid(request) := MappedMid(port, now)], request))
  {
    assert |request| == 9;
    hide *;
    FiveZeros(request);
    CodesOfExample(request);
    SentUnchanged(mids, port, request, maxLen, now);
  }

  lemma ReturnedUntagged(mids: Mids, defaultPort: uint16, response: seq<byte>)
    requires |response| >= 4 && LooksLikeCoap(response) && IsResponse(response) && !IsRequest(response)
    requires GetTokenLength(response) >= 3 && |Token(response)| == GetTokenLength(response) && HasTag(Token(response))
    ensures ToUdp(mids, defaultPort, response) == Ok(Inbound(TaggedPort(Token(response)), Untagged(response)))
    ensures |Untagged(response)| == |response| - 3
  {
    WithTokenKeeps(response, Token(response)[3..]);
    hide LooksLikeCoap, IsRequest, IsResponse, GetTokenLength, GetCoapType, GetMid;
    hide WithToken, Token, HasTag, TaggedPort;
  }

  lemma LookalikeReturned(mids: Mids, defaultPort: uint16, response: seq<byte>)
    requires HasFiveZeros(response) && response[1] == 0x45
    ensures ToUdp(mids, defaultPort, response) == Ok(Inbound(0, Untagged(response)))
    ensures |Untagged(response)| == |response| - 3
  {
    assert |response| == 9;
    hide *;
    FiveZeros(response);
    CodesOfExample(response);
    ReturnedUntagged(mids, defaultPort, response);
  }

  // ---------------------------------------------- what is tagged, byte by byte

  /**
   * A tag is its marker and the port, low byte first; a token has one exactly when
   * it starts with the tag of some port.
   */
  lemma TagLayout(port: uint16, token: seq<byte>)
    ensures TagOf(port) == [MarkerByte(port % 0x100, port / 0x100), port % 0x100, port / 0x100]
    ensures HasTag(token) <==> exists p: uint16 :: |token| >= 3 && token[..3] == TagOf(p)
    ensures |token| >= 3 && token[..3] == TagOf(port) ==> TaggedPort(token) == port
  {
    hide MarkerByte;
    if HasTag(token) {
      var p: uint16 := token[1] as int + 0x100 * (token[2] as int);
      assert Low(p) == token[1] && High(p) == token[2];
      assert token[..3] == [token[0], token[1], token[2]];
      assert token[..3] == TagOf(p);
    }
    if |token| >= 3 {
      assert token[0] == token[..3][0] && token[1] == token[..3][1] && token[2] == token[..3][2];
    }
  }

  /**
   * Exactly what goes on to the serial line: nothing if the message is no CoAP or
   * does not fit; with a tag in front of its token if it is a request with a token of
   * at most 4 bytes and room for 3 more; and every other message as it is.
   */
  lemma SentExactly(mids: Mids, port: uint16, msg: seq<byte>, maxLen: nat, now: int)
    requires |msg| >= 4
    ensures ToSerial(mids, port, msg, maxLen, now).Ok? <==> |msg| <= maxLen && LooksLikeCoap(msg)
    ensures ToSerial(mids, port, msg, maxLen, now).Ok? ==>
      var out := ToSerial(mids, port, msg, maxLen, now).value.bytes;
      if 1 <= msg[1] <= 31 && msg[0] % 0x10 <= 4 && |msg| + 3 <= maxLen then
        out == [msg[0] + 3] + msg[1..4] + TagOf(port) + msg[4..]
      else out == msg
  {
    HeaderLayout(msg);
    if LooksLikeCoap(msg) && GetTokenLength(msg) <= 4 {
      TaggedBytes(port, msg);
    }
    hide LooksLikeCoap, Token, WithToken, TagOf, Body;
  }

  lemma TaggedBytes(port: uint16, msg: seq<byte>)
    requires |msg| >= 4 && LooksLikeCoap(msg) && GetTokenLength(msg) <= 4
    ensures WithToken(msg, TagOf(port) + Token(msg)) == [msg[0] + 3] + msg[1..4] + TagOf(port) + msg[4..]
  {
    hide MarkerByte;
    assert WithTokenLength(msg[0], GetTokenLength(msg) + 3) == msg[0] + 3;
    assert msg[4..] == Token(msg) + Body(msg);
  }
}
