/** What buildMessage writes, the RFC 7252 decoder reads back: exactly when, and exactly what. */
module CoapRoundTrip {
  import opened Bytes
  import opened Coap
  import opened CoapWriter

  // ------------------------------------------------------------- one option

  lemma ExtendedBack(v: uint16, tail: seq<byte>)
    ensures ReadExtended(Nibble(v), Extension(v) + tail) == Ok(Extended(v, |Extension(v)|))
  {
  }

  /** A written header is never the payload marker and is read back whole, its length cut to 16 bits. */
  lemma HeaderBack(delta: uint16, length: nat, tail: seq<byte>)
    ensures HeaderBytes(delta, length)[0] != PAYLOAD_MARKER
    ensures ReadOptionHeader(HeaderBytes(delta, length) + tail)
         == Ok(OptionHeader(delta, length % 0x1_0000, |HeaderBytes(delta, length)|))
  {
    var length16 := length % 0x1_0000;
    var s := HeaderBytes(delta, length) + tail;
    var ext := Extension(length16) + tail;
    assert s[0] == 0x10 * Nibble(delta) + Nibble(length16);
    assert s[0] / 0x10 == Nibble(delta) && s[0] % 0x10 == Nibble(length16);
    hide Nibble;
    assert s[1..] == Extension(delta) + ext;
    ExtendedBack(delta, ext);
    assert s[1 + |Extension(delta)|..] == ext;
    ExtendedBack(length16, tail);
  }

  /** Options put in front of what was read behind them. */
  function Prefixed(options: seq<Opt>, rest: Result<Content, FormatError>): Result<Content, FormatError> {
    match rest
    case Err(e) => Err(e)
    case Ok(c) => Ok(Content(options + c.options, c.payload))
  }

  lemma PrefixedTwice(a: seq<Opt>, b: seq<Opt>, rest: Result<Content, FormatError>)
    ensures Prefixed(a, Prefixed(b, rest)) == Prefixed(a + b, rest)
    ensures Prefixed([], rest) == rest
  {
    if rest.Ok? {
      assert a + (b + rest.value.options) == (a + b) + rest.value.options;
      assert [] + rest.value.options == rest.value.options;
    }
  }

  /** One turn of the decoder, on a piece that starts with an option. */
  lemma ContentStep(s: seq<byte>, last: nat, h: OptionHeader)
    requires s != [] && s[0] != PAYLOAD_MARKER && ReadOptionHeader(s) == Ok(h)
    ensures h.used + h.length > |s| ==> DecodeContent(s, last) == Err(Truncated)
    ensures h.used + h.length <= |s| ==>
      DecodeContent(s, last) == Prefixed([Opt(last + h.delta, s[h.used..h.used + h.length])],
                                         DecodeContent(s[h.used + h.length..], last + h.delta))
  {
    hide ReadOptionHeader;
  }

  lemma OptionParts(delta: uint16, value: seq<byte>, tail: seq<byte>)
    ensures var head := HeaderBytes(delta, |value|);
      && OptionBytes(delta, value) + tail == head + (value + tail)
      && head != [] && head[0] != PAYLOAD_MARKER
      && ReadOptionHeader(head + (value + tail)) == Ok(OptionHeader(delta, |value| % 0x1_0000, |head|))
  {
    HeaderBack(delta, |value|, value + tail);
    hide ReadOptionHeader, Nibble, Extension;
    assert OptionBytes(delta, value) + tail == HeaderBytes(delta, |value|) + (value + tail);
  }

  /** A written option, read back in front of anything. */
  lemma OptionBack(delta: uint16, value: seq<byte>, tail: seq<byte>, last: nat)
    requires |value| <= 0xFFFF
    ensures DecodeContent(OptionBytes(delta, value) + tail, last)
         == Prefixed([Opt(last + delta, value)], DecodeContent(tail, last + delta))
  {
    hide *;
    OptionParts(delta, value, tail);
    var head := HeaderBytes(delta, |value|);
    var s := head + (value + tail);
    ContentStep(s, last, OptionHeader(delta, |value|, |head|));
    assert s[|head|..|head| + |value|] == value;
    assert s[|head| + |value|..] == tail;
  }

  /** An option whose value is longer than 65535 bytes is cut or refused. */
  lemma LongOptionCut(delta: uint16, value: seq<byte>, tail: seq<byte>, last: nat)
    requires |value| > 0xFFFF
    ensures var r := DecodeContent(OptionBytes(delta, value) + tail, last);
      r.Ok? ==> |r.value.options| > 0 && r.value.options[0].value != value
  {
    OptionParts(delta, value, tail);
    var head := HeaderBytes(delta, |value|);
    hide HeaderBytes, OptionBytes, ReadOptionHeader, DecodeContent;
    var s := head + (value + tail);
    ContentStep(s, last, OptionHeader(delta, |value| % 0x1_0000, |head|));
  }

  // ------------------------------------------------------------ option lists

  /** Numbers never decrease and fit 16 bits, so no delta underflows. */
  ghost predicate Ordered(options: seq<Opt>) {
    && (forall i :: 0 <= i < |options| ==> options[i].number < 0x1_0000)
    && (forall i, j :: 0 <= i < j < |options| ==> options[i].number <= options[j].number)
  }

  ghost predicate ValuesFit(options: seq<Opt>, limit: nat) {
    forall i :: 0 <= i < |options| ==> |options[i].value| <= limit
  }

  /** An ordered list of options is read back in front of anything. */
  lemma {:induction false} OptionsBack(options: seq<Opt>, tail: seq<byte>)
    requires Ordered(options) && ValuesFit(options, 0xFFFF)
    ensures DecodeContent(EncodeOptions(options) + tail, 0)
         == Prefixed(options, DecodeContent(tail, LastNumber(options)))
  {
    hide OptionBytes, DecodeContent, Prefixed;
    var behind := DecodeContent(tail, LastNumber(options));
    if options == [] {
      assert EncodeOptions(options) + tail == tail;
      PrefixedTwice([], [], behind);
    } else {
      var init, o := options[..|options| - 1], options[|options| - 1];
      var delta := Delta(o.number, LastNumber(init));
      var written := OptionBytes(delta, o.value);
      assert EncodeOptions(options) + tail == EncodeOptions(init) + (written + tail);
      OptionsBack(init, written + tail);
      OptionBack(delta, o.value, tail, LastNumber(init));
      assert LastNumber(init) + delta == o.number;
      PrefixedTwice(init, [o], behind);
      assert options == init + [o];
    }
  }

  lemma {:induction false} EncodeOptionsPrefix(options: seq<Opt>, k: nat) returns (rest: seq<byte>)
    requires k <= |options|
    ensures EncodeOptions(options) == EncodeOptions(options[..k]) + rest
  {
    hide OptionBytes, Delta;
    if k == |options| {
      assert options[..k] == options;
      rest := [];
    } else {
      var init, o := options[..|options| - 1], options[|options| - 1];
      var shorter := EncodeOptionsPrefix(init, k);
      assert init[..k] == options[..k];
      var written := OptionBytes(Delta(o.number, LastNumber(init)), o.value);
      rest := shorter + written;
      assert EncodeOptions(init) + written == EncodeOptions(options[..k]) + rest;
    }
  }

  lemma EncodeOptionsLast(options: seq<Opt>, o: Opt)
    ensures EncodeOptions(options + [o])
         == EncodeOptions(options) + OptionBytes(Delta(o.number, LastNumber(options)), o.value)
  {
    assert (options + [o])[..|options|] == options;
  }

  /** A value of more than 65535 bytes, anywhere in the list, is never read back. */
  lemma {:induction false} LongValueLost(options: seq<Opt>, tail: seq<byte>, k: nat)
    requires Ordered(options) && k < |options|
    requires ValuesFit(options[..k], 0xFFFF) && |options[k].value| > 0xFFFF
    ensures var r := DecodeContent(EncodeOptions(options) + tail, 0); r.Ok? ==> r.value.options != options
  {
    hide OptionBytes, Delta, DecodeContent, EncodeOptions;
    var init, o := options[..k], options[k];
    var delta := Delta(o.number, LastNumber(init));
    var rest := EncodeOptionsPrefix(options, k + 1);
    assert options[..k + 1] == init + [o];
    EncodeOptionsLast(init, o);
    var behind := OptionBytes(delta, o.value) + (rest + tail);
    assert EncodeOptions(options) + tail == EncodeOptions(init) + behind;
    OptionsBack(init, behind);
    LongOptionCut(delta, o.value, rest + tail, LastNumber(init));
    var all, r := DecodeContent(EncodeOptions(options) + tail, 0), DecodeContent(behind, LastNumber(init));
    assert all == Prefixed(init, r);
    if r.Ok? {
      var read := r.value.options;
      assert (init + read)[k] == read[0] != o;
    }
  }

  // ----------------------------------------------------------------- messages

  lemma OptionsOrdered(r: Request)
    ensures Ordered(Options(r))
  {
  }

  lemma UintValueShort(v: uint32)
    ensures |UintValue(v)| <= 4
  {
  }

  /** Every path segment and query fits 16 bits of length. */
  ghost predicate TextFits(r: Request, limit: nat) {
    && (forall i :: 0 <= i < |r.segments| ==> |r.segments[i]| <= limit)
    && (forall i :: 0 <= i < |r.queries| ==> |r.queries[i]| <= limit)
  }

  lemma TextIsValues(r: Request, limit: nat)
    requires limit >= 4
    ensures TextFits(r, limit) <==> ValuesFit(Options(r), limit)
  {
    if r.observe.Some? {
      UintValueShort(r.observe.value);
    }
    UintValueShort(r.contentFormat);
    var first := |ObserveOption(r)|;
    var second := first + |r.segments| + |FormatOption(r)|;
    if ValuesFit(Options(r), limit) {
      forall i | 0 <= i < |r.segments| ensures |r.segments[i]| <= limit {
        assert Options(r)[first + i] == Opt(URI_PATH, r.segments[i]);
      }
      forall i | 0 <= i < |r.queries| ensures |r.queries[i]| <= limit {
        assert Options(r)[second + i] == Opt(URI_QUERY, r.queries[i]);
      }
    }
  }

  function PayloadPart(r: Request): seq<byte> {
    if SentPayload(r) != [] then [PAYLOAD_MARKER] + SentPayload(r) else []
  }

  lemma PayloadBack(r: Request, last: nat)
    ensures DecodeContent(PayloadPart(r), last) == Ok(Content([], SentPayload(r)))
  {
  }

  /** Header fields of a built message. */
  lemma HeaderFields(r: Request)
    ensures var b := MessageBytes(r);
            && |b| >= 4 + |r.token|
            && GetTokenLength(b) == |r.token| % 0x10
            && (LooksLikeCoap(b) <==> |r.token| % 0x10 <= 8)
            && GetCoapType(b) == r.kind && b[1] == MethodCode(r.meth) && GetMid(b) == r.mid
    ensures |r.token| <= 8 ==>
              && Token(MessageBytes(r)) == r.token
              && Body(MessageBytes(r)) == EncodeOptions(Options(r)) + PayloadPart(r)
  {
    hide EncodeOptions, Options;
    var b := MessageBytes(r);
    var fixed := HeaderOf(r)[..4];
    assert HeaderOf(r) == fixed + r.token;
    assert b == HeaderOf(r) + (EncodeOptions(Options(r)) + PayloadPart(r));
    assert b[0] == 0x40 + 0x10 * TypeBits(r.kind) + |r.token| % 0x10;
    assert b[1] == MethodCode(r.meth) && b[2] == High(r.mid) && b[3] == Low(r.mid);
    if |r.token| <= 8 {
      assert b[4..4 + |r.token|] == HeaderOf(r)[4..] == r.token;
      assert b[4 + |r.token|..] == EncodeOptions(Options(r)) + PayloadPart(r);
    }
  }

  lemma ContentReadBack(r: Request)
    requires TextFits(r, 0xFFFF)
    ensures DecodeContent(EncodeOptions(Options(r)) + PayloadPart(r), 0) == Ok(Content(Options(r), SentPayload(r)))
  {
    OptionsOrdered(r);
    TextIsValues(r, 0xFFFF);
    hide EncodeOptions, Options, DecodeContent, PayloadPart;
    var options := Options(r);
    OptionsBack(options, PayloadPart(r));
    PayloadBack(r, LastNumber(options));
    assert options + [] == options;
  }

  lemma DecodeWhole(b: seq<byte>, r: Request)
    requires b != [] && LooksLikeCoap(b) && DecodeContent(Body(b), 0) == Ok(Content(Options(r), SentPayload(r)))
    requires GetCoapType(b) == r.kind && b[1] == MethodCode(r.meth) && GetMid(b) == r.mid && Token(b) == r.token
    ensures Decode(b) == Ok(Meaning(r))
  {
    hide DecodeContent, Body, Token, Options, SentPayload, GetCoapType, GetMid, MethodCode, LooksLikeCoap;
  }

  lemma SmallTokenIsCoap(r: Request)
    requires |r.token| <= 8
    ensures MessageBytes(r) != [] && LooksLikeCoap(MessageBytes(r))
  {
    hide MessageBytes, LooksLikeCoap;
    HeaderFields(r);
  }

  lemma GoodRequestReadBack(r: Request)
    requires |r.token| <= TOKEN_MAX_LEN && TextFits(r, 0xFFFF)
    ensures Decode(MessageBytes(r)) == Ok(Meaning(r))
  {
    assert |r.token| <= 8;
    hide *;
    HeaderFields(r);
    SmallTokenIsCoap(r);
    ContentReadBack(r);
    DecodeWhole(MessageBytes(r), r);
  }

  lemma BadRequestNotReadBack(r: Request)
    requires Decode(MessageBytes(r)) == Ok(Meaning(r))
    ensures |r.token| <= TOKEN_MAX_LEN && TextFits(r, 0xFFFF)
  {
    HeaderFields(r);
    OptionsOrdered(r);
    TextIsValues(r, 0xFFFF);
    hide MessageBytes, EncodeOptions, Options, DecodeContent;
    var options := Options(r);
    assert |r.token| <= 8;
    if !ValuesFit(options, 0xFFFF) {
      var k := FirstLong(options);
      LongValueLost(options, PayloadPart(r), k);
    }
  }

  /**
   * The round trip: the receiver sees exactly the request's type, code, MID,
   * token, ordered options and payload if and only if the token has at most 8
   * bytes and every segment and query at most 65535.
   */
  lemma {:induction false} MessageRoundTrip(r: Request)
    ensures Decode(MessageBytes(r)) == Ok(Meaning(r)) <==> |r.token| <= TOKEN_MAX_LEN && TextFits(r, 0xFFFF)
  {
    hide Decode, MessageBytes, Meaning, TextFits;
    if |r.token| <= TOKEN_MAX_LEN && TextFits(r, 0xFFFF) {
      GoodRequestReadBack(r);
    }
    if Decode(MessageBytes(r)) == Ok(Meaning(r)) {
      BadRequestNotReadBack(r);
    }
  }

  lemma {:induction false} FirstLong(options: seq<Opt>) returns (k: nat)
    requires !ValuesFit(options, 0xFFFF)
    ensures k < |options| && ValuesFit(options[..k], 0xFFFF) && |options[k].value| > 0xFFFF
  {
    var init := options[..|options| - 1];
    if ValuesFit(init, 0xFFFF) {
      k := |init|;
    } else {
      k := FirstLong(init);
      assert init[..k] == options[..k];
    }
  }

  // ------------------------------------------------------ the wire form is unique

  /** What a successful decoding of a piece that starts with an option says about that option. */
  lemma FirstOption(s: seq<byte>, last: nat) returns (h: OptionHeader)
    requires s != [] && s[0] != PAYLOAD_MARKER && DecodeContent(s, last).Ok?
    ensures ReadOptionHeader(s) == Ok(h) && h.used + h.length <= |s|
    ensures DecodeContent(s[h.used + h.length..], last + h.delta).Ok?
    ensures var c := DecodeContent(s, last).value;
            var rest := DecodeContent(s[h.used + h.length..], last + h.delta).value;
            && |c.options| > 0
            && c.options[0] == Opt(last + h.delta, s[h.used..h.used + h.length])
            && c.options[1..] == rest.options
            && c.payload == rest.payload
  {
    h := ReadOptionHeader(s).value;
    ContentStep(s, last, h);
  }

  lemma ExtendedUnique(nibble: nat, s: seq<byte>)
    requires ReadExtended(nibble, s).Ok? && ReadExtended(nibble, s).value.value < 0x1_0000
    ensures var r := ReadExtended(nibble, s).value;
      nibble == Nibble(r.value) && s[..r.used] == Extension(r.value) && r.used == |Extension(r.value)|
  {
  }

  lemma HeaderUnique(s: seq<byte>, h: OptionHeader)
    requires s != [] && ReadOptionHeader(s) == Ok(h) && h.delta < 0x1_0000 && h.length < 0x1_0000
    ensures s[..h.used] == HeaderBytes(h.delta, h.length)
  {
    hide ReadExtended, Nibble, Extension;
    var delta, length := HeaderParts(s, h);
    var mid := 1 + delta.used;
    ExtendedUnique(s[0] / 0x10, s[1..]);
    ExtendedUnique(s[0] % 0x10, s[mid..]);
    assert s[..h.used] == [s[0]] + s[1..][..delta.used] + s[mid..][..length.used];
    assert s[0] == 0x10 * (s[0] / 0x10) + s[0] % 0x10;
  }

  lemma HeaderParts(s: seq<byte>, h: OptionHeader) returns (delta: Extended, length: Extended)
    requires s != [] && ReadOptionHeader(s) == Ok(h)
    ensures ReadExtended(s[0] / 0x10, s[1..]) == Ok(delta) && 1 + delta.used <= |s|
    ensures ReadExtended(s[0] % 0x10, s[1 + delta.used..]) == Ok(length)
    ensures h == OptionHeader(delta.value, length.value, 1 + delta.used + length.used)
  {
    hide ReadExtended;
    delta := ReadExtended(s[0] / 0x10, s[1..]).value;
    length := ReadExtended(s[0] % 0x10, s[1 + delta.used..]).value;
  }

  /** Every number and every length of the content can be written. */
  ghost predicate Writable(c: Content) {
    (forall i :: 0 <= i < |c.options| ==> c.options[i].number < 0x1_0000) && ValuesFit(c.options, 0xFFFF)
  }

  lemma OptionBytesRead(s: seq<byte>, h: OptionHeader)
    requires s != [] && ReadOptionHeader(s) == Ok(h) && h.delta < 0x1_0000 && h.length < 0x1_0000
    requires h.used + h.length <= |s|
    ensures s == OptionBytes(h.delta, s[h.used..h.used + h.length]) + s[h.used + h.length..]
  {
    hide ReadOptionHeader, HeaderBytes;
    HeaderUnique(s, h);
    assert s == (s[..h.used] + s[h.used..h.used + h.length]) + s[h.used + h.length..];
  }

  /** A piece that decodes to a writable content with some options starts with the bytes of the first. */
  lemma SplitFirst(s: seq<byte>, last: nat) returns (rest: seq<byte>)
    requires DecodeContent(s, last).Ok? && DecodeContent(s, last).value.options != []
    requires Writable(DecodeContent(s, last).value)
    ensures var c := DecodeContent(s, last).value;
      var o := c.options[0];
      && last <= o.number && o.number - last < 0x1_0000
      && s == OptionBytes(o.number - last, o.value) + rest
      && |rest| < |s|
      && DecodeContent(rest, o.number) == Ok(Content(c.options[1..], c.payload))
  {
    SomeOptions(s, last);
    hide DecodeContent, ReadOptionHeader, OptionBytes;
    var c := DecodeContent(s, last).value;
    var h := FirstOption(s, last);
    assert c.options[0].number < 0x1_0000 && |c.options[0].value| <= 0xFFFF;
    OptionBytesRead(s, h);
    rest := s[h.used + h.length..];
    assert DecodeContent(rest, last + h.delta).value == Content(c.options[1..], c.payload);
  }

  lemma SomeOptions(s: seq<byte>, last: nat)
    requires DecodeContent(s, last).Ok? && DecodeContent(s, last).value.options != []
    ensures s != [] && s[0] != PAYLOAD_MARKER
  {
  }

  /** Two pieces that decode to the same content are the same bytes: the writer's form is the only one. */
  lemma {:induction false} ContentUnique(s: seq<byte>, t: seq<byte>, last: nat)
    requires DecodeContent(s, last).Ok? && DecodeContent(s, last) == DecodeContent(t, last)
    requires Writable(DecodeContent(s, last).value)
    ensures s == t
    decreases |s|
  {
    hide DecodeContent, OptionBytes;
    var c := DecodeContent(s, last).value;
    if c.options != [] {
      var a := SplitFirst(s, last);
      var b := SplitFirst(t, last);
      ContentUnique(a, b, c.options[0].number);
    } else {
      NoOptions(s, last);
      NoOptions(t, last);
    }
  }

  lemma NoOptions(s: seq<byte>, last: nat)
    requires DecodeContent(s, last).Ok? && DecodeContent(s, last).value.options == []
    ensures var payload := DecodeContent(s, last).value.payload;
      s == if payload == [] then [] else [PAYLOAD_MARKER] + payload
  {
    if s != [] && s[0] != PAYLOAD_MARKER {
      var h := FirstOption(s, last);
    }
  }

  /** The decoder is injective: messages that mean the same are the same bytes. */
  lemma DecodeInjective(a: seq<byte>, b: seq<byte>)
    requires Decode(a).Ok? && Decode(a) == Decode(b) && Writable(Decode(a).value.content)
    ensures a == b
  {
    hide DecodeContent;
    ContentUnique(Body(a), Body(b), 0);
    SameMessage(a, b);
  }

  /** A message is what buildMessage writes for a request exactly when it means what the request means. */
  lemma BuiltIffMeans(r: Request, b: seq<byte>)
    requires |r.token| <= TOKEN_MAX_LEN && TextFits(r, 0xFFFF)
    ensures b == MessageBytes(r) <==> Decode(b) == Ok(Meaning(r))
  {
    hide MessageBytes, Decode;
    MessageRoundTrip(r);
    if Decode(b) == Ok(Meaning(r)) {
      OptionsOrdered(r);
      TextIsValues(r, 0xFFFF);
      DecodeInjective(b, MessageBytes(r));
    }
  }

  // ------------------------------------------------------------- uint options

  function BigEndianValue(bytes: seq<byte>): nat {
    if bytes == [] then 0 else 0x100 * BigEndianValue(bytes[..|bytes| - 1]) + bytes[|bytes| - 1] as int
  }

  lemma LastDigit(bytes: seq<byte>, b: byte)
    ensures BigEndianValue(bytes + [b]) == 0x100 * BigEndianValue(bytes) + b as int
  {
    assert (bytes + [b])[..|bytes|] == bytes;
  }

  /** Behind digits that stand for what is left of v after n bytes, its lowest n bytes complete v. */
  lemma {:induction false} DigitsBack(v: uint32, n: nat, high: seq<byte>)
    requires BigEndianValue(high) == Shifted(v, n)
    ensures BigEndianValue(high + UintBytes(v, n)) == v
  {
    if n == 0 {
      assert high + UintBytes(v, 0) == high;
    } else {
      var x := Shifted(v, n - 1);
      var digit: byte := x % 0x100;
      assert Shifted(v, n) == x / 0x100 && UintBytes(v, n) == [digit] + UintBytes(v, n - 1);
      hide BigEndianValue, Shifted, UintBytes;
      LastDigit(high, digit);
      assert x == 0x100 * (x / 0x100) + x % 0x100;
      DigitsBack(v, n - 1, high + [digit]);
      assert high + ([digit] + UintBytes(v, n - 1)) == (high + [digit]) + UintBytes(v, n - 1);
    }
  }

  lemma NothingAbove(v: uint32)
    ensures Shifted(v, UintLength(v)) == 0
  {
    var s1, s2, s3 := Shifted(v, 1), Shifted(v, 2), Shifted(v, 3);
    assert s1 == Shifted(v, 0) / 0x100 && Shifted(v, 0) == v;
    assert s2 == s1 / 0x100;
    assert s3 == s2 / 0x100;
    assert Shifted(v, 4) == s3 / 0x100;
  }

  lemma {:induction false} UintBytesValue(v: uint32)
    ensures BigEndianValue(UintValue(v)) == v
  {
    var n := UintLength(v);
    NothingAbove(v);
    DigitsBack(v, n, []);
    assert [] + UintValue(v) == UintValue(v);
  }

  lemma {:induction false} BigEndianBound(bytes: seq<byte>)
    ensures |bytes| <= 1 ==> BigEndianValue(bytes) <= 0xFF
    ensures |bytes| <= 2 ==> BigEndianValue(bytes) <= 0xFFFF
    ensures |bytes| <= 3 ==> BigEndianValue(bytes) <= 0xFF_FFFF
    ensures |bytes| == 0 ==> BigEndianValue(bytes) == 0
  {
    if bytes != [] {
      BigEndianBound(bytes[..|bytes| - 1]);
    }
  }

  /** No shorter string of bytes has the same value (RFC 7252, section 3.2). */
  ghost predicate ShortestForm(value: seq<byte>) {
    forall bytes: seq<byte> :: BigEndianValue(bytes) == BigEndianValue(value) ==> |value| <= |bytes|
  }

  /**
   * The writer's encoding of an unsigned option value is the shortest exactly
   * outside 0x10000 to 0xFFFFFF, where four bytes stand for three.
   */
  lemma UintEncodingShortest(v: uint32)
    ensures ShortestForm(UintValue(v)) <==> !(0x1_0000 <= v <= 0xFF_FFFF)
  {
    UintBytesValue(v);
    hide BigEndianValue;
    if 0x1_0000 <= v <= 0xFF_FFFF {
      ThreeBytes(v);
      assert |UintValue(v)| == 4;
    } else {
      forall bytes: seq<byte> | BigEndianValue(bytes) == v ensures |UintValue(v)| <= |bytes| {
        BigEndianBound(bytes);
      }
    }
  }

  lemma ThreeBytes(v: uint32)
    requires v <= 0xFF_FFFF
    ensures BigEndianValue([v / 0x1_0000, v / 0x100 % 0x100, v % 0x100]) == v
  {
    var high, mid, low := v / 0x1_0000, v / 0x100 % 0x100, v % 0x100;
    assert [] + [high] == [high] && [high] + [mid] == [high, mid] && [high, mid] + [low] == [high, mid, low];
    LastDigit([], high);
    LastDigit([high], mid);
    LastDigit([high, mid], low);
    assert BigEndianValue([]) == 0;
  }

  /**
   * Every unsigned option of a built message, Observe and Content-Format, is in its
   * shortest form, whatever its 16-bit value.
   */
  lemma BuiltUintsShortest(r: Request, i: nat)
    requires i < |Options(r)| && Options(r)[i].number in {OBSERVE, CONTENT_FORMAT}
    ensures ShortestForm(Options(r)[i].value)
    ensures BigEndianValue(Options(r)[i].value)
         == if Options(r)[i].number == OBSERVE then r.observe.value else r.contentFormat
  {
    hide UintValue, BigEndianValue, ShortestForm;
    if r.observe.Some? {
      UintEncodingShortest(r.observe.value);
      UintBytesValue(r.observe.value);
    }
    UintEncodingShortest(r.contentFormat);
    UintBytesValue(r.contentFormat);
  }
}
