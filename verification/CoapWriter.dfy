/** The message builder of src/coapHelpers.cpp: options by delta, and whole messages. */
module CoapWriter {
  import opened Bytes
  import opened Coap

  // ------------------------------------------------------------ option bytes

  /** encodeExtended: the nibble for a delta or a length. */
  function Nibble(v: uint16): (n: nat)
    ensures n <= 14
  {
    if v < 13 then v else if v < 269 then 13 else 14
  }

  function Extension(v: uint16): seq<byte> {
    if v < 13 then []
    else if v < 269 then [v - 13]
    else [(v - 269) / 0x100, (v - 269) % 0x100]
  }

  /** Header of an option, as the writer emits it: the length is cut to 16 bits. */
  function HeaderBytes(delta: uint16, length: nat): seq<byte> {
    var length16 := length % 0x1_0000;
    [0x10 * Nibble(delta) + Nibble(length16)] + Extension(delta) + Extension(length16)
  }

  function OptionBytes(delta: uint16, value: seq<byte>): seq<byte> {
    HeaderBytes(delta, |value|) + value
  }

  function Delta(number: nat, last: nat): uint16 {
    (number - last) % 0x1_0000
  }

  /** The extension bytes for a delta or a length, cut to bytes as the vector stores them. */
  method PutExtension(out: seq<byte>, nibble: nat, v: nat) returns (out': seq<byte>)
    requires nibble == Nibble(v % 0x1_0000)
    ensures out' == out + Extension(v % 0x1_0000)
  {
    CutLength(v);
    out' := out;
    if nibble == 13 {
      out' := out' + [(v - 13) % 0x100];
    } else if nibble == 14 {
      out' := out' + [(v - 269) / 0x100 % 0x100];
      out' := out' + [(v - 269) % 0x100];
    }
  }

  method EncodeOption(out: seq<byte>, number: uint16, value: seq<byte>, lastNumber: uint16)
    returns (out': seq<byte>, lastNumber': uint16)
    ensures lastNumber' == number
    ensures out' == out + OptionBytes(Delta(number, lastNumber), value)
  {
    hide Nibble, Extension, Shifted;
    var delta: uint16 := (number - lastNumber) % 0x1_0000;
    lastNumber' := number;
    var deltaNibble := Nibble(delta);
    var lenNibble := Nibble(|value| % 0x1_0000);
    out' := out + [deltaNibble * 0x10 + lenNibble];
    out' := PutExtension(out', deltaNibble, delta);
    out' := PutExtension(out', lenNibble, |value|);
    assert out' == out + HeaderBytes(delta, |value|);
    out' := out' + value;
  }

  /** The extension bytes taken from a length of any size are those of its lowest 16 bits. */
  lemma CutLength(n: nat)
    ensures var m := n % 0x1_0000;
            && (13 <= m < 269 ==> n >= 13 && (n - 13) % 0x100 == m - 13)
            && (269 <= m ==> n >= 269 && (n - 269) / 0x100 % 0x100 == (m - 269) / 0x100
                                      && (n - 269) % 0x100 == (m - 269) % 0x100)
  {
    var q, m := n / 0x1_0000, n % 0x1_0000;
    assert n == q * 0x1_0000 + m;
    if 269 <= m {
      assert (n - 269) / 0x100 == q * 0x100 + (m - 269) / 0x100;
    }
  }

  /** The shortest of 0, 1, 2 and 4 bytes that hold value. */
  function UintLength(value: uint32): nat {
    if value > 0xFFFF then 4 else if value > 0xFF then 2 else if value > 0 then 1 else 0
  }

  function Shifted(value: uint32, i: nat): (r: nat)
    ensures r <= value
  {
    if i == 0 then value else Shifted(value, i - 1) / 0x100
  }

  /** The lowest n bytes of value, most significant first. */
  function UintBytes(value: uint32, n: nat): (r: seq<byte>)
    ensures |r| == n
  {
    if n == 0 then [] else [Shifted(value, n - 1) % 0x100] + UintBytes(value, n - 1)
  }

  function UintValue(value: uint32): seq<byte> {
    UintBytes(value, UintLength(value))
  }

  method EncodeUintOption(out: seq<byte>, number: uint16, value: uint32, lastNumber: uint16)
    returns (out': seq<byte>, lastNumber': uint16)
    ensures lastNumber' == number
    ensures out' == out + OptionBytes(Delta(number, lastNumber), UintValue(value))
  {
    hide Nibble, Extension, Shifted;
    var delta: uint16 := (number - lastNumber) % 0x1_0000;
    lastNumber' := number;
    var len := 0;
    if value > 0xFFFF {
      len := 4;
    } else if value > 0xFF {
      len := 2;
    } else if value > 0 {
      len := 1;
    }
    var deltaNibble, lenNibble := Nibble(delta), Nibble(len);
    out' := out + [deltaNibble * 0x10 + lenNibble];
    out' := PutExtension(out', deltaNibble, delta);
    out' := PutExtension(out', lenNibble, len);
    ghost var head := out';
    assert len == |UintValue(value)|;
    assert head == out + HeaderBytes(delta, |UintValue(value)|);
    for i := len downto 0
      invariant out' + UintBytes(value, i) == head + UintValue(value)
    {
      out' := out' + [Shifted(value, i) % 0x100];
    }
    assert out' == head + UintValue(value);
  }

  // ------------------------------------------------------------ whole messages

  datatype Method = GET | POST

  function MethodCode(m: Method): byte {
    match m case GET => 0x01 case POST => 0x02
  }

  /** The arguments of buildMessage. */
  datatype Request = Request(
    kind: CoapType, meth: Method, mid: uint16,
    segments: seq<seq<byte>>, queries: seq<seq<byte>>,
    payload: seq<byte>, token: seq<byte>,
    contentFormat: uint16, observe: Option<uint16>)

  const FORMAT_NONE: uint16 := 0xFFFF

  function Repeated(number: nat, values: seq<seq<byte>>): (r: seq<Opt>)
    ensures |r| == |values|
    ensures forall i :: 0 <= i < |r| ==> r[i] == Opt(number, values[i])
  {
    seq(|values|, i requires 0 <= i < |values| => Opt(number, values[i]))
  }

  function ObserveOption(r: Request): seq<Opt> {
    if r.observe.Some? then [Opt(OBSERVE, UintValue(r.observe.value))] else []
  }

  function FormatOption(r: Request): seq<Opt> {
    if r.contentFormat != FORMAT_NONE then [Opt(CONTENT_FORMAT, UintValue(r.contentFormat))] else []
  }

  /** The options a request carries, in the order of their numbers. */
  function Options(r: Request): seq<Opt> {
    ObserveOption(r) + Repeated(URI_PATH, r.segments) + FormatOption(r) + Repeated(URI_QUERY, r.queries)
  }

  /** The payload a request carries: only POST sends one. */
  function SentPayload(r: Request): seq<byte> {
    if r.meth == POST then r.payload else []
  }

  /** What section 3 of RFC 7252 says the receiver of the request should see. */
  function Meaning(r: Request): Message {
    Message(r.kind, MethodCode(r.meth), r.mid, r.token, Content(Options(r), SentPayload(r)))
  }

  function LastNumber(options: seq<Opt>): nat {
    if options == [] then 0 else options[|options| - 1].number
  }

  /** The bytes that the writer's loop leaves behind for a list of options. */
  function EncodeOptions(options: seq<Opt>): seq<byte> {
    if options == [] then []
    else
      var init, o := options[..|options| - 1], options[|options| - 1];
      EncodeOptions(init) + OptionBytes(Delta(o.number, LastNumber(init)), o.value)
  }

  /** The writer has put the given options behind head. */
  ghost predicate Written(head: seq<byte>, options: seq<Opt>, msg: seq<byte>, last: uint16) {
    && msg == head + EncodeOptions(options)
    && last == LastNumber(options)
  }

  lemma WrittenNone(head: seq<byte>)
    ensures Written(head, [], head, 0)
  {
  }

  lemma WrittenNext(head: seq<byte>, options: seq<Opt>, msg: seq<byte>, last: uint16, o: Opt)
    requires Written(head, options, msg, last) && o.number < 0x1_0000
    ensures Written(head, options + [o], msg + OptionBytes(Delta(o.number, last), o.value), o.number)
  {
    assert (options + [o])[..|options|] == options;
  }

  lemma WrittenAll(head: seq<byte>, options: seq<Opt>, msg: seq<byte>, last: uint16)
    requires Written(head, options, msg, last)
    ensures msg == head + EncodeOptions(options)
  {
  }

  lemma RepeatedNext(number: nat, values: seq<seq<byte>>, i: nat)
    requires i < |values|
    ensures Repeated(number, values[..i + 1]) == Repeated(number, values[..i]) + [Opt(number, values[i])]
  {
  }

  /** Header and token. */
  function HeaderOf(r: Request): seq<byte> {
    [0x40 + 0x10 * TypeBits(r.kind) + |r.token| % 0x10, MethodCode(r.meth), High(r.mid), Low(r.mid)] + r.token
  }

  function MessageBytes(r: Request): seq<byte> {
    HeaderOf(r) + EncodeOptions(Options(r))
    + (if SentPayload(r) != [] then [PAYLOAD_MARKER] + SentPayload(r) else [])
  }

  method BuildMessage(r: Request) returns (msg: seq<byte>)
    ensures msg == MessageBytes(r)
  {
    msg := [0x40 + 0x10 * TypeBits(r.kind) + |r.token| % 0x10];
    msg := msg + [MethodCode(r.meth)];
    msg := msg + [r.mid / 0x100 % 0x100];
    msg := msg + [r.mid % 0x100];
    msg := msg + r.token;
    ghost var head := HeaderOf(r);
    assert msg == head;
    msg := AddOptions(r, msg);
    if r.meth == POST && r.payload != [] {
      msg := msg + [PAYLOAD_MARKER];
      msg := msg + r.payload;
    }
  }

  /** The options part of buildMessage. */
  method AddOptions(r: Request, head: seq<byte>) returns (msg: seq<byte>)
    ensures msg == head + EncodeOptions(Options(r))
  {
    hide OptionBytes, Delta, UintBytes, UintLength, Written, EncodeOptions;
    msg := head;
    var lastOpt: uint16 := 0;
    WrittenNone(head);
    ghost var sent: seq<Opt> := [];

    if r.observe.Some? {
      WrittenNext(head, sent, msg, lastOpt, Opt(OBSERVE, UintValue(r.observe.value)));
      msg, lastOpt := EncodeUintOption(msg, OBSERVE, r.observe.value, lastOpt);
      sent := sent + [Opt(OBSERVE, UintValue(r.observe.value))];
    }
    assert sent == ObserveOption(r);

    for i := 0 to |r.segments|
      invariant sent == ObserveOption(r) + Repeated(URI_PATH, r.segments[..i])
      invariant Written(head, sent, msg, lastOpt)
    {
      WrittenNext(head, sent, msg, lastOpt, Opt(URI_PATH, r.segments[i]));
      RepeatedNext(URI_PATH, r.segments, i);
      msg, lastOpt := EncodeOption(msg, URI_PATH, r.segments[i], lastOpt);
      sent := sent + [Opt(URI_PATH, r.segments[i])];
    }
    assert r.segments[..|r.segments|] == r.segments;

    if r.contentFormat != FORMAT_NONE {
      WrittenNext(head, sent, msg, lastOpt, Opt(CONTENT_FORMAT, UintValue(r.contentFormat)));
      msg, lastOpt := EncodeUintOption(msg, CONTENT_FORMAT, r.contentFormat, lastOpt);
      sent := sent + [Opt(CONTENT_FORMAT, UintValue(r.contentFormat))];
    }

    ghost var before := sent;
    assert before == ObserveOption(r) + Repeated(URI_PATH, r.segments) + FormatOption(r);
    for i := 0 to |r.queries|
      invariant sent == before + Repeated(URI_QUERY, r.queries[..i])
      invariant Written(head, sent, msg, lastOpt)
    {
      WrittenNext(head, sent, msg, lastOpt, Opt(URI_QUERY, r.queries[i]));
      RepeatedNext(URI_QUERY, r.queries, i);
      msg, lastOpt := EncodeOption(msg, URI_QUERY, r.queries[i], lastOpt);
      sent := sent + [Opt(URI_QUERY, r.queries[i])];
    }
    assert r.queries[..|r.queries|] == r.queries;
    assert sent == Options(r);
    WrittenAll(head, sent, msg, lastOpt);
  }
}
