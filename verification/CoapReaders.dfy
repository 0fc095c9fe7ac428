/**
 * The two hand-written readers: parseObserveReply (src/coapHelpers.cpp), and
 * exactly when it agrees with RFC 7252, and extractUriPath (src/coapPortTracker.cpp).
 */
module CoapReaders {
  import opened Bytes
  import opened Coap
  import opened CoapRoundTrip

  // ----------------------------------------------------------- observe replies

  datatype CoapReply = CoapReply(mid: uint16, token: seq<byte>, payload: seq<byte>)

  /** The bytes the reply reader takes for the payload: it skips by the low nibble alone. */
  function SkipToPayload(s: seq<byte>): seq<byte> {
    if s == [] then []
    else if s[0] == PAYLOAD_MARKER then s[1..]
    else if 1 + s[0] % 0x10 >= |s| then []
    else SkipToPayload(s[1 + s[0] % 0x10..])
  }

  /** What is left of a buffer from an index that may lie past its end. */
  function From(s: seq<byte>, index: nat): seq<byte> {
    if index <= |s| then s[index..] else []
  }

  lemma SkipNext(buffer: seq<byte>, index: nat)
    requires index < |buffer| && buffer[index] != PAYLOAD_MARKER
    ensures SkipToPayload(From(buffer, index)) == SkipToPayload(From(buffer, index + 1 + buffer[index] % 0x10))
  {
    var s, next := buffer[index..], 1 + buffer[index] % 0x10;
    assert s != [] && s[0] == buffer[index];
    if next < |s| {
      assert SkipToPayload(s) == SkipToPayload(s[next..]);
      assert s[next..] == buffer[index + next..];
    } else {
      assert SkipToPayload(s) == [];
      assert From(buffer, index + next) == [];
    }
  }

  lemma SkipEnds(buffer: seq<byte>, index: nat)
    ensures index >= |buffer| ==> SkipToPayload(From(buffer, index)) == []
    ensures index < |buffer| && buffer[index] == PAYLOAD_MARKER ==>
      SkipToPayload(From(buffer, index)) == buffer[index + 1..]
  {
    if index < |buffer| {
      assert buffer[index..][1..] == buffer[index + 1..];
    }
  }

  /** For a buffer that is not CoAP the C++ leaves mid uninitialised. */
  method ParseObserveReply(buffer: seq<byte>) returns (reply: CoapReply)
    requires |buffer| >= 1
    ensures !LooksLikeCoap(buffer) ==> reply.token == [] && reply.payload == []
    ensures LooksLikeCoap(buffer) ==>
      reply == CoapReply(GetMid(buffer), Token(buffer), SkipToPayload(Body(buffer)))
  {
    hide SkipToPayload;
    var mid: uint16 := *;
    reply := CoapReply(mid, [], []);
    if !LooksLikeCoap(buffer) {
      return;
    }
    var tkl := GetTokenLength(buffer);
    reply := CoapReply(GetMid(buffer), buffer[4..4 + tkl], []);
    var index := 4 + tkl;
    while index < |buffer| && buffer[index] != PAYLOAD_MARKER
      invariant SkipToPayload(Body(buffer)) == SkipToPayload(From(buffer, index))
      decreases |buffer| - index
    {
      SkipNext(buffer, index);
      var optByte := buffer[index];
      index := index + 1;
      var optLen := optByte % 0x10;
      index := index + optLen;
    }
    SkipEnds(buffer, index);
    if index < |buffer| && buffer[index] == PAYLOAD_MARKER {
      index := index + 1;
      reply := CoapReply(reply.mid, reply.token, buffer[index..]);
    }
  }

  /**
   * Every option is at most limit above its predecessor and at most limit bytes
   * long; a limit of 12 means no extended nibble.
   */
  ghost predicate ShortSteps(options: seq<Opt>, last: nat, limit: nat) {
    options == [] ||
    (options[0].number <= last + limit && |options[0].value| <= limit &&
     ShortSteps(options[1..], options[0].number, limit))
  }

  lemma ReadExtendedSmall(nibble: nat, s: seq<byte>)
    requires ReadExtended(nibble, s).Ok? && ReadExtended(nibble, s).value.value <= 12
    ensures nibble < 13 && ReadExtended(nibble, s).value == Extended(nibble, 0)
  {
  }

  lemma ShortHeader(s: seq<byte>, h: OptionHeader)
    requires s != [] && ReadOptionHeader(s) == Ok(h) && h.delta <= 12 && h.length <= 12
    ensures h == OptionHeader(s[0] / 0x10, s[0] % 0x10, 1)
  {
    var delta := ReadExtended(s[0] / 0x10, s[1..]);
    ReadExtendedSmall(s[0] / 0x10, s[1..]);
    ReadExtendedSmall(s[0] % 0x10, s[1 + delta.value.used..]);
  }

  lemma {:induction false} SkippingFindsPayload(s: seq<byte>, last: nat)
    requires DecodeContent(s, last).Ok? && ShortSteps(DecodeContent(s, last).value.options, last, 12)
    ensures SkipToPayload(s) == DecodeContent(s, last).value.payload
    decreases |s|
  {
    if s != [] && s[0] != PAYLOAD_MARKER {
      var h := FirstOption(s, last);
      hide DecodeContent, ReadOptionHeader;
      ShortHeader(s, h);
      SkippingFindsPayload(s[h.used + h.length..], last + h.delta);
      if h.used + h.length == |s| {
        assert s[h.used + h.length..] == [];
      }
    }
  }

  /**
   * On a well-formed message whose options need no extended nibble the reply
   * reader returns the decoder's MID, token and payload, whatever bytes the
   * values and the payload hold.
   */
  lemma ReplyAgrees(buffer: seq<byte>)
    requires |buffer| >= 1 && Decode(buffer).Ok?
    requires ShortSteps(Decode(buffer).value.content.options, 0, 12)
    ensures var m := Decode(buffer).value;
      LooksLikeCoap(buffer) && CoapReply(GetMid(buffer), Token(buffer), SkipToPayload(Body(buffer)))
        == CoapReply(m.mid, m.token, m.content.payload)
  {
    SkippingFindsPayload(Body(buffer), 0);
  }

  /** Where skipping through option bytes by the low nibble alone first meets 0xFF or leaves them. */
  function Stop(options: seq<byte>): nat {
    if options == [] || options[0] == PAYLOAD_MARKER then 0
    else
      var next := 1 + options[0] % 0x10;
      next + if next <= |options| then Stop(options[next..]) else 0
  }

  /** The part of a body in front of the payload marker. */
  function OptionPart(s: seq<byte>, payload: seq<byte>): seq<byte> {
    if payload == [] || |s| <= |payload| then s else s[..|s| - |payload| - 1]
  }

  ghost predicate EndsWith(s: seq<byte>, payload: seq<byte>) {
    |payload| < |s| && s[|s| - |payload| - 1..] == [PAYLOAD_MARKER] + payload
  }

  lemma EndsWithLonger(head: seq<byte>, s: seq<byte>, payload: seq<byte>)
    ensures EndsWith(s, payload) ==> EndsWith(head + s, payload)
  {
    if EndsWith(s, payload) {
      var k := |s| - |payload| - 1;
      assert (head + s)[|head| + k..] == s[k..];
    }
  }

  lemma MarkerThenPayload(s: seq<byte>, last: nat)
    requires s != [] && s[0] == 0xFF && DecodeContent(s, last).Ok?
    ensures EndsWith(s, DecodeContent(s, last).value.payload)
  {
    assert s[0..] == [PAYLOAD_MARKER] + s[1..];
  }

  lemma NoPayloadInNothing(last: nat)
    ensures DecodeContent([], last) == Ok(Content([], []))
  {
  }

  /** The payload of a piece that starts with an option is that of what is behind the option. */
  lemma BehindOption(s: seq<byte>, last: nat) returns (used: nat, number: nat)
    requires DecodeContent(s, last).Ok? && s != [] && s[0] != 0xFF
    ensures 0 < used <= |s| && DecodeContent(s[used..], number).Ok?
    ensures DecodeContent(s[used..], number).value.payload == DecodeContent(s, last).value.payload
  {
    hide DecodeContent, ReadOptionHeader;
    var h := FirstOption(s, last);
    used, number := h.used + h.length, last + h.delta;
  }

  lemma {:induction false} PayloadIsLast(s: seq<byte>, last: nat)
    requires DecodeContent(s, last).Ok? && DecodeContent(s, last).value.payload != []
    ensures EndsWith(s, DecodeContent(s, last).value.payload)
    decreases |s|
  {
    NoPayloadInNothing(last);
    hide *;
    if s[0] == 0xFF {
      MarkerThenPayload(s, last);
    } else {
      var used, number := BehindOption(s, last);
      PayloadIsLast(s[used..], number);
      assert s == s[..used] + s[used..];
      EndsWithLonger(s[..used], s[used..], DecodeContent(s, last).value.payload);
    }
  }

  /** The reader never returns all of the bytes it was given. */
  lemma {:induction false} SkipIsShorter(s: seq<byte>)
    ensures s != [] ==> |SkipToPayload(s)| < |s|
    ensures SkipToPayload([]) == []
    decreases |s|
  {
    if s != [] && s[0] != PAYLOAD_MARKER && 1 + s[0] % 0x10 < |s| {
      SkipIsShorter(s[1 + s[0] % 0x10..]);
    }
  }

  lemma OneSkip(s: seq<byte>)
    requires s != []
    ensures SkipToPayload(s) == if s[0] == 0xFF then s[1..]
                                else if 1 + s[0] % 0x10 < |s| then SkipToPayload(s[1 + s[0] % 0x10..]) else []
    ensures Stop(s) == if s[0] == 0xFF then 0
                       else 1 + s[0] % 0x10 + if 1 + s[0] % 0x10 <= |s| then Stop(s[1 + s[0] % 0x10..]) else 0
    ensures Stop([]) == 0
  {
  }

  /** In front of a marker and a payload the reader returns the payload exactly when it stops at the marker. */
  lemma {:induction false} SkipsToMarker(options: seq<byte>, payload: seq<byte>)
    requires payload != []
    ensures SkipToPayload(options + ([0xFF] + payload)) == payload <==> Stop(options) == |options|
    decreases |options|
  {
    hide SkipToPayload, Stop;
    var s := options + ([0xFF] + payload);
    OneSkip(s);
    if options == [] {
      assert s[1..] == payload;
    } else {
      OneSkip(options);
      var next := 1 + options[0] % 0x10;
      if options[0] == 0xFF {
        assert |s[1..]| > |payload|;
      } else if next <= |options| {
        assert s[next..] == options[next..] + ([0xFF] + payload);
        SkipsToMarker(options[next..], payload);
      } else if next < |s| {
        SkipIsShorter(s[next..]);
      }
    }
  }

  /** Without a payload the reader returns nothing exactly when it meets no 0xFF before the last byte. */
  lemma {:induction false} SkipsToEnd(options: seq<byte>)
    ensures SkipToPayload(options) == [] <==> Stop(options) + 1 >= |options|
    decreases |options|
  {
    if options != [] && options[0] != PAYLOAD_MARKER {
      var next := 1 + options[0] % 0x10;
      if next <= |options| {
        SkipsToEnd(options[next..]);
        assert options[|options|..] == [];
      }
    }
  }

  /**
   * Skipping through the option bytes stops at the payload marker or, if there is no
   * payload, not before the last byte.
   */
  ghost predicate StopsAtPayload(s: seq<byte>, payload: seq<byte>) {
    var options := OptionPart(s, payload);
    if payload != [] then Stop(options) == |options| else Stop(options) + 1 >= |options|
  }

  /**
   * Exactly when the reply reader agrees with the decoder on a well-formed
   * message: skipping through its option bytes by the low nibble must stop at the
   * payload marker, or, if there is no payload, not before the last byte. What the
   * payload holds does not matter.
   */
  lemma ReplyAgreesExactly(buffer: seq<byte>)
    requires |buffer| >= 1 && Decode(buffer).Ok?
    ensures var m := Decode(buffer).value;
      && LooksLikeCoap(buffer)
      && var reply := CoapReply(GetMid(buffer), Token(buffer), SkipToPayload(Body(buffer)));
         (reply == CoapReply(m.mid, m.token, m.content.payload) <==> StopsAtPayload(Body(buffer), m.content.payload))
  {
    hide DecodeContent, SkipToPayload, Stop;
    var payload := Decode(buffer).value.content.payload;
    if payload != [] {
      var s := Body(buffer);
      PayloadIsLast(s, 0);
      assert s == OptionPart(s, payload) + s[|s| - |payload| - 1..];
      SkipsToMarker(OptionPart(Body(buffer), payload), payload);
    } else {
      SkipsToEnd(Body(buffer));
    }
  }

  /** With an extended length the reader can take a value byte for the payload marker. */
  lemma ReplyMisreadsExtendedLength(buffer: seq<byte>)
    requires buffer == [0x40, 0x45, 0, 1] + [0x0D, 0, 0, 0, 0, 0, 0, 0, 0, 0, 0, 0, 0, 0, 0xFF, 0xFF, 0x2A]
    ensures LooksLikeCoap(buffer) && Decode(buffer).Ok?
    ensures Decode(buffer).value.content.payload == [0x2A]
    ensures SkipToPayload(Body(buffer)) == [0xFF, 0x2A]
  {
    assert GetTokenLength(buffer) == 0;
    assert Body(buffer) == [0x0D, 0, 0, 0, 0, 0, 0, 0, 0, 0, 0, 0, 0, 0, 0xFF, 0xFF, 0x2A];
    hide DecodeContent, SkipToPayload, ReadOptionHeader;
    MisreadIsWellFormed(Body(buffer));
    MisreadSkips(Body(buffer));
  }

  lemma MisreadIsWellFormed(s: seq<byte>)
    requires |s| == 17 && s[0] == 0x0D && s[1] == 0 && s[15..] == [0xFF, 0x2A]
    ensures DecodeContent(s, 0).Ok? && DecodeContent(s, 0).value.payload == [0x2A]
  {
    assert ReadOptionHeader(s) == Ok(OptionHeader(0, 13, 2));
    assert s[15..][1..] == [0x2A];
    assert DecodeContent(s[15..], 0) == Ok(Content([], [0x2A]));
    hide ReadOptionHeader, DecodeContent;
    ContentStep(s, 0, OptionHeader(0, 13, 2));
  }

  lemma MisreadSkips(s: seq<byte>)
    requires |s| == 17 && s[0] == 0x0D && s[14] == PAYLOAD_MARKER
    ensures SkipToPayload(s) == s[15..]
  {
    assert s[14..][0] == PAYLOAD_MARKER;
    assert SkipToPayload(s[14..]) == s[14..][1..] == s[15..];
  }

  // ------------------------------------------------------------------ URI paths

  /** An option delta or length as the path reader's uint8_t variables hold it; None when it reads past the end. */
  function ReadByteExtended(nibble: nat, s: seq<byte>): (r: Option<Extended>)
    ensures r.Some? ==> r.value.used <= |s|
  {
    if nibble == 13 then
      if |s| < 1 then None else Some(Extended((13 + s[0] as int) % 0x100, 1))
    else if nibble == 14 then
      if |s| < 2 then None else Some(Extended((269 + BigEndian(s[0], s[1]) as int) % 0x100, 2))
    else Some(Extended(nibble, 0))
  }

  /** The header of an option as the path reader sees it. */
  function ReadByteHeader(s: seq<byte>): (r: Option<OptionHeader>)
    requires s != []
    ensures r.Some? ==> 0 < r.value.used <= |s|
  {
    match ReadByteExtended(s[0] / 0x10, s[1..])
    case None => None
    case Some(delta) =>
      match ReadByteExtended(s[0] % 0x10, s[1 + delta.used..])
      case None => None
      case Some(length) => Some(OptionHeader(delta.value, length.value, 1 + delta.used + length.used))
  }

  /** Segments read so far, in front of what the rest of the buffer gives. */
  function Collected(segments: seq<seq<byte>>, rest: Option<seq<seq<byte>>>): Option<seq<seq<byte>>> {
    match rest
    case None => None
    case Some(more) => Some(segments + more)
  }

  /** The segments the path reader collects from s; None when it would read outside the buffer. */
  function PathSegments(s: seq<byte>, last: uint16): Option<seq<seq<byte>>>
    decreases |s|
  {
    if s == [] || s[0] == PAYLOAD_MARKER then Some([])
    else
      match ReadByteHeader(s)
      case None => None
      case Some(h) =>
        var number := (last + h.delta) % 0x1_0000;
        var end := h.used + h.length;
        if number != URI_PATH then PathSegments(From(s, end), number)
        else if end > |s| then None
        else Collected([s[h.used..end]], PathSegments(s[end..], number))
  }

  function UriSegments(data: seq<byte>): Option<seq<seq<byte>>> {
    if |data| < 4 then Some([]) else PathSegments(From(data, 4 + GetTokenLength(data)), 0)
  }

  /** The reader's result: the segments joined by "/"; None where the C++ reads outside its buffer. */
  function UriPath(data: seq<byte>): Option<seq<byte>> {
    match UriSegments(data)
    case None => None
    case Some(segments) => Some(Join(segments))
  }

  lemma CollectedMore(a: seq<seq<byte>>, b: seq<seq<byte>>, rest: Option<seq<seq<byte>>>)
    ensures Collected(a, Collected(b, rest)) == Collected(a + b, rest)
    ensures Collected([], rest) == rest
    ensures Collected(a, None) == None
  {
    if rest.Some? {
      assert a + (b + rest.value) == (a + b) + rest.value;
      assert [] + rest.value == rest.value;
    }
  }

  /** The extension bytes at pos: the reader's 13 and 14 cases, truncated to uint8_t. */
  method ReadExtension(data: seq<byte>, pos: nat, nibble: nat) returns (r: Option<Extended>)
    requires pos <= |data|
    ensures r == ReadByteExtended(nibble, data[pos..])
  {
    if nibble == 13 {
      if pos >= |data| {
        return None;
      }
      r := Some(Extended((13 + data[pos] as int) % 0x100, 1));
    } else if nibble == 14 {
      if pos + 1 >= |data| {
        return None;
      }
      r := Some(Extended((269 + BigEndian(data[pos], data[pos + 1]) as int) % 0x100, 2));
    } else {
      r := Some(Extended(nibble, 0));
    }
  }

  method ReadHeader(data: seq<byte>, pos: nat) returns (r: Option<OptionHeader>)
    requires pos < |data|
    ensures r == ReadByteHeader(data[pos..])
  {
    hide ReadByteExtended;
    ghost var s := data[pos..];
    var next := pos + 1;
    assert s[1..] == data[next..];
    var delta := ReadExtension(data, next, data[pos] / 0x10);
    if delta.None? {
      return None;
    }
    next := next + delta.value.used;
    assert s[1 + delta.value.used..] == data[next..];
    var length := ReadExtension(data, next, data[pos] % 0x10);
    if length.None? {
      return None;
    }
    r := Some(OptionHeader(delta.value.value, length.value.value, 1 + delta.value.used + length.value.used));
  }

  /** One turn of the path reader's loop, at a position in the buffer. */
  lemma SegmentsAt(data: seq<byte>, pos: nat, last: uint16)
    requires pos < |data| && data[pos] != PAYLOAD_MARKER
    ensures ReadByteHeader(data[pos..]).None? ==> PathSegments(data[pos..], last) == None
    ensures ReadByteHeader(data[pos..]).Some? ==>
      var h := ReadByteHeader(data[pos..]).value;
      var number := (last + h.delta) % 0x1_0000;
      var at, end := pos + h.used, pos + h.used + h.length;
      PathSegments(data[pos..], last) ==
        if number != URI_PATH then PathSegments(From(data, end), number)
        else if end > |data| then None
        else Collected([data[at..end]], PathSegments(From(data, end), number))
  {
    hide ReadByteHeader, Collected;
    var s := data[pos..];
    var r := ReadByteHeader(s);
    if r.Some? {
      var end := r.value.used + r.value.length;
      assert From(s, end) == From(data, pos + end);
      if end <= |s| {
        assert s[r.value.used..end] == data[pos + r.value.used..pos + end];
      }
    }
  }

  method ExtractUriPath(data: seq<byte>) returns (uri: Option<seq<byte>>)
    ensures uri == UriPath(data)
  {
    if |data| < 4 {
      return Some([]);
    }
    var segments := CollectSegments(data, 4 + GetTokenLength(data));
    if segments.None? {
      return None;
    }
    var path := JoinAll(segments.value);
    uri := Some(path);
  }

  /** The option loop of extractUriPath. */
  method CollectSegments(data: seq<byte>, start: nat) returns (r: Option<seq<seq<byte>>>)
    ensures r == PathSegments(From(data, start), 0)
  {
    hide Collected, PathSegments, ReadByteHeader;
    var pos, lastNumber: uint16 := start, 0;
    var segments: seq<seq<byte>> := [];
    ghost var whole := PathSegments(From(data, start), 0);
    CollectedMore([], [], whole);
    while pos < |data| && data[pos] != PAYLOAD_MARKER
      invariant whole == Collected(segments, PathSegments(From(data, pos), lastNumber))
      decreases |data| - pos
    {
      SegmentsAt(data, pos, lastNumber);
      CollectedMore(segments, [], None);
      var header := ReadHeader(data, pos);
      if header.None? {
        return None;
      }
      pos := pos + header.value.used;
      lastNumber := (lastNumber + header.value.delta) % 0x1_0000;
      var end := pos + header.value.length;
      if lastNumber == URI_PATH {
        if end > |data| {
          return None;
        }
        CollectedMore(segments, [data[pos..end]], PathSegments(From(data, end), lastNumber));
        segments := segments + [data[pos..end]];
      }
      pos := end;
    }
    PathEnds(data, pos, lastNumber);
    CollectedNothing(segments);
    r := Some(segments);
  }

  lemma PathEnds(data: seq<byte>, pos: nat, last: uint16)
    requires pos >= |data| || data[pos] == PAYLOAD_MARKER
    ensures PathSegments(From(data, pos), last) == Some([])
  {
  }

  lemma CollectedNothing(segments: seq<seq<byte>>)
    ensures Collected(segments, Some([])) == Some(segments)
  {
    assert segments + [] == segments;
  }

  method JoinAll(segments: seq<seq<byte>>) returns (path: seq<byte>)
    ensures path == Join(segments)
  {
    path := [];
    for i := 0 to |segments|
      invariant path == Join(segments[..i])
    {
      assert segments[..i + 1][..i] == segments[..i];
      if i > 0 {
        path := path + [0x2F];
      }
      path := path + segments[i];
    }
    assert segments[..|segments|] == segments;
  }
}
