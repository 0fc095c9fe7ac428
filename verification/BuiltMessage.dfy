/**
 * What a message of the builder says, in the terms of the request and of RFC 7252:
 * its header byte by byte, and every option and the payload by number.
 */
module BuiltMessage {
  import opened Bytes
  import opened Coap
  import opened CoapWriter
  import opened CoapRoundTrip
  import opened PathAgreement

  /** The header of section 3: version and type, token length, code, message ID, token. */
  lemma HeaderWritten(r: Request)
    requires |r.token| <= 8
    ensures var b := MessageBytes(r);
      && |b| >= 4 + |r.token|
      && b[0] == 0x40 + (match r.kind case CON => 0 case NON => 0x10 case ACK => 0x20 case RST => 0x30) + |r.token|
      && b[1] == (match r.meth case GET => 0x01 case POST => 0x02)
      && 0x100 * (b[2] as int) + b[3] as int == r.mid
      && b[4..4 + |r.token|] == r.token
  {
    hide EncodeOptions, Options, SentPayload;
    var b := MessageBytes(r);
    var fixed := HeaderOf(r)[..4];
    assert HeaderOf(r) == fixed + r.token;
    assert b[..|HeaderOf(r)|] == HeaderOf(r);
    assert b[4..4 + |r.token|] == HeaderOf(r)[4..];
  }

  /** The four kinds of options of a request, and no other. */
  lemma NumbersWritten(r: Request)
    ensures forall o :: o in Options(r) ==> o.number in {6, 11, 12, 15}
  {
    hide UintValue;
  }

  lemma OptionsInFour(r: Request, number: nat)
    ensures ValuesOf(Options(r), number)
         == ValuesOf(ObserveOption(r), number) + ValuesOf(Repeated(11, r.segments), number)
          + ValuesOf(FormatOption(r), number) + ValuesOf(Repeated(15, r.queries), number)
  {
    hide UintValue, Repeated, ValuesOf;
    var a, b, c, d := ObserveOption(r), Repeated(11, r.segments), FormatOption(r), Repeated(15, r.queries);
    ValuesOfConcat(a, b, number);
    ValuesOfConcat(a + b, c, number);
    ValuesOfConcat(a + b + c, d, number);
  }

  lemma TextOptions(r: Request)
    ensures ValuesOf(Options(r), 11) == r.segments
    ensures ValuesOf(Options(r), 15) == r.queries
  {
    hide UintValue, Repeated;
    OptionsInFour(r, 11);
    OptionsInFour(r, 15);
    ValuesOfRepeated(11, r.segments, 11);
    ValuesOfRepeated(15, r.queries, 11);
    ValuesOfRepeated(11, r.segments, 15);
    ValuesOfRepeated(15, r.queries, 15);
    OtherNumber(ObserveOption(r), 11);
    OtherNumber(FormatOption(r), 11);
    OtherNumber(ObserveOption(r), 15);
    OtherNumber(FormatOption(r), 15);
    hide ValuesOf, Options;
    assert [] + r.segments + [] + [] == r.segments;
    assert [] + [] + [] + r.queries == r.queries;
  }

  /** The value of the only option among at most one, if it has the number asked for. */
  lemma OneValue(options: seq<Opt>, number: nat)
    requires |options| <= 1 && (options != [] ==> options[0].number == number)
    ensures ValuesOf(options, number) == if options == [] then [] else [options[0].value]
  {
  }

  lemma UintOptions(r: Request)
    ensures ValuesOf(Options(r), 6) == if r.observe == None then [] else [UintValue(r.observe.value)]
    ensures ValuesOf(Options(r), 12) == if r.contentFormat == 0xFFFF then [] else [UintValue(r.contentFormat)]
  {
    hide UintValue, Repeated;
    OptionsInFour(r, 6);
    OptionsInFour(r, 12);
    ValuesOfRepeated(11, r.segments, 6);
    ValuesOfRepeated(15, r.queries, 6);
    ValuesOfRepeated(11, r.segments, 12);
    ValuesOfRepeated(15, r.queries, 12);
    OtherNumber(FormatOption(r), 6);
    OtherNumber(ObserveOption(r), 12);
    OneValue(ObserveOption(r), 6);
    OneValue(FormatOption(r), 12);
    hide ValuesOf, Options;
  }

  /**
   * What the receiver of a built message reads: code 0.01 for GET and 0.02 for
   * POST; the payload of a POST, and none with a GET; the path segments as the
   * values of option 11 and the queries as those of option 15, in order; one option
   * 6 with the observe value exactly when there is one; one option 12 with the
   * format exactly when it is not 0xFFFF; and no other option.
   */
  lemma RequestReadBack(r: Request)
    requires |r.token| <= 8 && TextFits(r, 0xFFFF)
    ensures Decode(MessageBytes(r)).Ok?
    ensures var m := Decode(MessageBytes(r)).value;
      && m.code == (if r.meth == GET then 0x01 else 0x02)
      && m.kind == r.kind && m.mid == r.mid && m.token == r.token
      && m.content.payload == (if r.meth == POST then r.payload else [])
    ensures var options := Decode(MessageBytes(r)).value.content.options;
      && ValuesOf(options, 11) == r.segments
      && ValuesOf(options, 15) == r.queries
      && |ValuesOf(options, 6)| == (if r.observe == None then 0 else 1)
      && (r.observe.Some? ==> BigEndianValue(ValuesOf(options, 6)[0]) == r.observe.value)
      && |ValuesOf(options, 12)| == (if r.contentFormat == 0xFFFF then 0 else 1)
      && (r.contentFormat != 0xFFFF ==> BigEndianValue(ValuesOf(options, 12)[0]) == r.contentFormat)
      && (forall o :: o in options ==> o.number in {6, 11, 12, 15})
  {
    MeaningFields(r);
    hide MessageBytes, Meaning, Decode, TextFits, UintValue, Options, ValuesOf, BigEndianValue;
    GoodRequestReadBack(r);
    NumbersWritten(r);
    TextOptions(r);
    UintOptions(r);
    if r.observe.Some? {
      UintBytesValue(r.observe.value);
    }
    UintBytesValue(r.contentFormat);
  }

  lemma MeaningFields(r: Request)
    ensures Meaning(r).code == (if r.meth == GET then 0x01 else 0x02)
    ensures Meaning(r).kind == r.kind && Meaning(r).mid == r.mid && Meaning(r).token == r.token
    ensures Meaning(r).content == Content(Options(r), if r.meth == POST then r.payload else [])
  {
    hide Options;
  }

  // ------------------------------------------------- the wire form of an option

  /** One whole option in front of nothing. */
  lemma LoneOption(s: seq<byte>, h: OptionHeader)
    requires s != [] && s[0] != PAYLOAD_MARKER && ReadOptionHeader(s) == Ok(h) && h.used + h.length == |s|
    ensures DecodeContent(s, 0) == Ok(Content([Opt(h.delta, s[h.used..])], []))
  {
    hide ReadOptionHeader;
    ContentStep(s, 0, h);
    EmptyContent(h.delta);
    assert s[h.used..h.used + h.length] == s[h.used..] && s[h.used + h.length..] == [];
    hide DecodeContent;
    assert [Opt(h.delta, s[h.used..])] + [] == [Opt(h.delta, s[h.used..])];
  }

  lemma ShortLength(v: seq<byte>, s: seq<byte>)
    requires |v| < 13 && s == [|v|] + v
    ensures DecodeContent(s, 0) == Ok(Content([Opt(0, v)], []))
  {
    hide DecodeContent;
    assert s[1..] == v;
    assert ReadOptionHeader(s) == Ok(OptionHeader(0, |v|, 1));
    hide ReadOptionHeader;
    LoneOption(s, OptionHeader(0, |v|, 1));
  }

  lemma MiddleLength(v: seq<byte>, s: seq<byte>)
    requires 13 <= |v| < 269 && s == [0x0D, |v| - 13] + v
    ensures DecodeContent(s, 0) == Ok(Content([Opt(0, v)], []))
  {
    hide DecodeContent;
    assert s[2..] == v && s[1..][0] == |v| - 13;
    assert ReadOptionHeader(s) == Ok(OptionHeader(0, |v|, 2));
    hide ReadOptionHeader;
    LoneOption(s, OptionHeader(0, |v|, 2));
  }

  lemma LongLength(v: seq<byte>, s: seq<byte>, high: byte, low: byte)
    requires |v| == 269 + 0x100 * (high as int) + low as int && s == [0x0E, high, low] + v
    ensures DecodeContent(s, 0) == Ok(Content([Opt(0, v)], []))
  {
    hide DecodeContent;
    assert s[3..] == v && s[1..][0] == high && s[1..][1] == low;
    assert ReadOptionHeader(s) == Ok(OptionHeader(0, |v|, 3));
    hide ReadOptionHeader;
    LoneOption(s, OptionHeader(0, |v|, 3));
  }

  /**
   * A value of any length has the one form that section 3.1 gives it: length in the
   * nibble, in one more byte, or in two.
   */
  lemma LengthForms(v: seq<byte>, high: byte, low: byte)
    ensures |v| < 13 ==> DecodeContent([|v|] + v, 0) == Ok(Content([Opt(0, v)], []))
    ensures 13 <= |v| < 269 ==> DecodeContent([0x0D, |v| - 13] + v, 0) == Ok(Content([Opt(0, v)], []))
    ensures |v| == 269 + 0x100 * (high as int) + low as int ==>
      DecodeContent([0x0E, high, low] + v, 0) == Ok(Content([Opt(0, v)], []))
  {
    hide *;
    if |v| < 13 {
      ShortLength(v, [|v|] + v);
    } else if |v| < 269 {
      MiddleLength(v, [0x0D, |v| - 13] + v);
    }
    if |v| == 269 + 0x100 * (high as int) + low as int {
      LongLength(v, [0x0E, high, low] + v, high, low);
    }
  }

  /** The same for the step to an option's number. */
  lemma DeltaForms(n: nat)
    ensures n < 13 ==> DecodeContent([0x10 * n], 0) == Ok(Content([Opt(n, [])], []))
    ensures 13 <= n < 269 ==> DecodeContent([0xD0, n - 13], 0) == Ok(Content([Opt(n, [])], []))
    ensures 269 <= n < 269 + 0x1_0000 ==>
      DecodeContent([0xE0, (n - 269) / 0x100, (n - 269) % 0x100], 0) == Ok(Content([Opt(n, [])], []))
  {
    hide DecodeContent;
    if n < 13 {
      var s: seq<byte> := [0x10 * n];
      assert ReadOptionHeader(s) == Ok(OptionHeader(n, 0, 1));
      LoneOption(s, OptionHeader(n, 0, 1));
    } else if n < 269 {
      var s: seq<byte> := [0xD0, n - 13];
      assert s[1..][0] == n - 13 && ReadOptionHeader(s) == Ok(OptionHeader(n, 0, 2));
      LoneOption(s, OptionHeader(n, 0, 2));
    } else if n < 269 + 0x1_0000 {
      var s: seq<byte> := [0xE0, (n - 269) / 0x100, (n - 269) % 0x100];
      assert s[1..][0] == (n - 269) / 0x100 && s[1..][1] == (n - 269) % 0x100;
      assert ReadOptionHeader(s) == Ok(OptionHeader(n, 0, 3));
      LoneOption(s, OptionHeader(n, 0, 3));
    }
  }
}
