/**
 * SLIP framing as RFC 1055 describes it (section "Protocol"), and the receiver
 * of src/slip.cpp as a function on values: one step per byte, a bounded buffer,
 * and a list of messages handed to recv_message.
 */
module Slip {
  import opened Bytes

  const END: byte := 0xC0
  const ESC: byte := 0xDB
  const ESC_END: byte := 0xDC
  const ESC_ESC: byte := 0xDD

  /** FORT_AGENT_BUFFER_UNIT_SZ: the size of every fixed buffer in the agent. */
  const UNIT: nat := 512

  // ---------------------------------------------------------------- encoding

  function EscapeByte(b: byte): seq<byte> {
    if b == END then [ESC, ESC_END]
    else if b == ESC then [ESC, ESC_ESC]
    else [b]
  }

  /** The bytes between the two END markers of a frame. */
  function Escape(m: seq<byte>): seq<byte> {
    if m == [] then []
    else Escape(m[..|m| - 1]) + EscapeByte(m[|m| - 1])
  }

  /** A whole frame: END, the escaped message, END. */
  function Frame(m: seq<byte>): seq<byte> {
    [END] + Escape(m) + [END]
  }

  /** The bytes of m that need an escape. */
  function Specials(m: seq<byte>): nat {
    if m == [] then 0
    else Specials(m[..|m| - 1]) + if m[|m| - 1] == END || m[|m| - 1] == ESC then 1 else 0
  }

  /**
   * RFC 1055's receiving rule for the bytes between two ENDs; None when an ESC is
   * not followed by one of its two codes.
   */
  function Unescape(p: seq<byte>): Option<seq<byte>> {
    if p == [] then Some([])
    else if p[0] == END then None
    else if p[0] == ESC then
      if |p| < 2 || (p[1] != ESC_END && p[1] != ESC_ESC) then None
      else
        match Unescape(p[2..])
        case None => None
        case Some(m) => Some([if p[1] == ESC_END then END else ESC] + m)
    else
      match Unescape(p[1..])
      case None => None
      case Some(m) => Some([p[0]] + m)
  }

  lemma {:induction false} EscapeConcat(a: seq<byte>, b: seq<byte>)
    ensures Escape(a + b) == Escape(a) + Escape(b)
    decreases |b|
  {
    hide EscapeByte;
    if b == [] {
      assert a + b == a;
    } else {
      var b' := b[..|b| - 1];
      assert (a + b)[..|a + b| - 1] == a + b';
      EscapeConcat(a, b');
    }
  }

  /** A frame carries END only as its first and its last byte, and its length is exact. */
  lemma {:induction false} FrameShape(m: seq<byte>)
    ensures |Frame(m)| == |m| + 2 + Specials(m)
    ensures forall i :: 0 <= i < |Frame(m)| ==> (Frame(m)[i] == END <==> i == 0 || i == |Frame(m)| - 1)
  {
    EscapeShape(m);
  }

  lemma {:induction false} EscapeShape(m: seq<byte>)
    ensures |Escape(m)| == |m| + Specials(m)
    ensures END !in Escape(m)
  {
    if m != [] {
      EscapeShape(m[..|m| - 1]);
    }
  }

  lemma UnescapeNext(b: byte, p: seq<byte>)
    ensures Unescape(EscapeByte(b) + p) ==
      match Unescape(p)
      case None => None
      case Some(m) => Some([b] + m)
  {
    var s := EscapeByte(b) + p;
    assert s[|EscapeByte(b)|..] == p;
  }

  lemma EscapeFirst(m: seq<byte>)
    requires m != []
    ensures Escape(m) == EscapeByte(m[0]) + Escape(m[1..])
  {
    hide Escape;
    assert m == [m[0]] + m[1..];
    EscapeConcat([m[0]], m[1..]);
    EscapeOne(m[0]);
  }

  lemma EscapeOne(b: byte)
    ensures Escape([b]) == EscapeByte(b)
  {
    assert [b][..0] == [];
  }

  lemma {:induction false} UnescapeEscape(m: seq<byte>)
    ensures Unescape(Escape(m)) == Some(m)
  {
    if m != [] {
      hide Escape, EscapeByte, Unescape;
      EscapeFirst(m);
      UnescapeEscape(m[1..]);
      UnescapeNext(m[0], Escape(m[1..]));
      assert m == [m[0]] + m[1..];
    }
  }

  /** Escaping is canonical: a piece un-escapes to m exactly when it is the escaped form of m. */
  lemma {:induction false} UnescapeIffEscaped(p: seq<byte>, m: seq<byte>)
    ensures Unescape(p) == Some(m) <==> p == Escape(m)
    decreases |p|
  {
    if p == Escape(m) {
      UnescapeEscape(m);
    }
    if Unescape(p) == Some(m) && p != [] {
      var used := if p[0] == ESC then 2 else 1;
      UnescapeIffEscaped(p[used..], m[1..]);
      EscapeFirst(m);
      hide Escape;
      assert EscapeByte(m[0]) == p[..used];
      assert p == p[..used] + p[used..];
    }
  }

  // --------------------------------------------------------------- receiving

  /** The receiver: its state, and the bytes buffered so far. */
  datatype Rx = Rx(escaped: bool, data: seq<byte>)

  const INITIAL: Rx := Rx(false, [])

  datatype SlipError = NoError | BufferOverflow | UnknownEscapedByte

  /** One byte consumed: the new receiver, the messages handed on (at most one), the returned code. */
  datatype RxStep = RxStep(rx: Rx, delivered: seq<seq<byte>>, error: SlipError)

  function PutByte(rx: Rx, b: byte, cap: nat): RxStep {
    if |rx.data| >= cap then RxStep(INITIAL, [], BufferOverflow)
    else RxStep(Rx(false, rx.data + [b]), [], NoError)
  }

  function ReadByte(rx: Rx, b: byte, cap: nat): RxStep {
    if !rx.escaped then
      if b == END then RxStep(INITIAL, if |rx.data| >= 2 then [rx.data] else [], NoError)
      else if b == ESC then RxStep(rx.(escaped := true), [], NoError)
      else PutByte(rx, b, cap)
    else
      if b == ESC_END then PutByte(rx, END, cap)
      else if b == ESC_ESC then PutByte(rx, ESC, cap)
      else RxStep(INITIAL, [], UnknownEscapedByte)
  }

  datatype Outcome = Outcome(rx: Rx, delivered: seq<seq<byte>>)

  /** A whole stream consumed from receiver rx. */
  function Feed(rx: Rx, s: seq<byte>, cap: nat): Outcome
    decreases |s|
  {
    if s == [] then Outcome(rx, [])
    else
      var before := Feed(rx, s[..|s| - 1], cap);
      var step := ReadByte(before.rx, s[|s| - 1], cap);
      Outcome(step.rx, before.delivered + step.delivered)
  }

  /** What consuming byte number at of the stream hands on, from a fresh receiver. */
  function DeliveredAt(s: seq<byte>, at: nat, cap: nat): seq<seq<byte>>
    requires at < |s|
  {
    ReadByte(Feed(INITIAL, s[..at], cap).rx, s[at], cap).delivered
  }

  lemma {:induction false} FeedConcat(rx: Rx, a: seq<byte>, b: seq<byte>, cap: nat)
    ensures var first := Feed(rx, a, cap);
            var second := Feed(first.rx, b, cap);
            Feed(rx, a + b, cap) == Outcome(second.rx, first.delivered + second.delivered)
    decreases |b|
  {
    hide ReadByte;
    if b == [] {
      assert a + b == a;
    } else {
      var b' := b[..|b| - 1];
      assert (a + b)[..|a + b| - 1] == a + b';
      FeedConcat(rx, a, b', cap);
    }
  }

  lemma FeedOne(rx: Rx, b: byte, cap: nat)
    ensures Feed(rx, [b], cap) == Outcome(ReadByte(rx, b, cap).rx, ReadByte(rx, b, cap).delivered)
  {
    assert [b][..0] == [];
  }

  lemma FeedNothing(rx: Rx, cap: nat)
    ensures Feed(rx, [], cap) == Outcome(rx, [])
  {
  }

  lemma FeedNext(rx: Rx, s: seq<byte>, n: nat, cap: nat)
    requires n < |s|
    ensures var before := Feed(rx, s[..n], cap);
            var step := ReadByte(before.rx, s[n], cap);
            Feed(rx, s[..n + 1], cap) == Outcome(step.rx, before.delivered + step.delivered)
  {
    assert s[..n + 1][..n] == s[..n];
  }

  /** How much of an n-byte message the bounded buffer holds: each overflow discards cap + 1 bytes. */
  function KeptLength(n: nat, cap: nat): (k: nat)
    ensures k <= cap && k <= n
  {
    if n <= cap then n else KeptLength(n - cap - 1, cap)
  }

  /** The part of a message that the buffer holds at the end. */
  function Kept(m: seq<byte>, cap: nat): seq<byte> {
    m[|m| - KeptLength(|m|, cap)..]
  }

  lemma {:induction false} KeptLengthNext(n: nat, cap: nat)
    ensures KeptLength(n + 1, cap) == if KeptLength(n, cap) == cap then 0 else KeptLength(n, cap) + 1
  {
    if n > cap {
      KeptLengthNext(n - cap - 1, cap);
    }
  }

  lemma KeptNext(m: seq<byte>, b: byte, cap: nat)
    ensures Kept(m + [b], cap) == if |Kept(m, cap)| >= cap then [] else Kept(m, cap) + [b]
  {
    KeptLengthNext(|m|, cap);
  }

  /** One escaped byte, read by a receiver between escapes, is put into the buffer. */
  lemma FeedEscapedByte(held: seq<byte>, b: byte, cap: nat)
    ensures Feed(Rx(false, held), EscapeByte(b), cap) == Outcome(PutByte(Rx(false, held), b, cap).rx, [])
  {
    var rx := Rx(false, held);
    FeedOne(rx, b, cap);
    FeedOne(rx, ESC, cap);
    if b == END || b == ESC {
      assert EscapeByte(b)[..1] == [ESC];
    }
  }

  lemma {:induction false} FeedEscaped(m: seq<byte>, cap: nat)
    ensures Feed(INITIAL, Escape(m), cap) == Outcome(Rx(false, Kept(m, cap)), [])
  {
    if m != [] {
      var m', b := m[..|m| - 1], m[|m| - 1];
      assert m == m' + [b];
      FeedEscaped(m', cap);
      EscapedNext(m', b, cap);
      KeptNext(m', b, cap);
    } else {
      assert Kept(m, cap) == [];
    }
  }

  lemma EscapedNext(m: seq<byte>, b: byte, cap: nat)
    ensures var held := Feed(INITIAL, Escape(m), cap);
            !held.rx.escaped ==>
              Feed(INITIAL, Escape(m + [b]), cap) == Outcome(PutByte(held.rx, b, cap).rx, held.delivered)
  {
    assert (m + [b])[..|m|] == m;
    FeedConcat(INITIAL, Escape(m), EscapeByte(b), cap);
    var held := Feed(INITIAL, Escape(m), cap);
    FeedEscapedByte(held.rx.data, b, cap);
  }

  /** END always empties the receiver: delivering what it held, or dropping it after a lone ESC. */
  lemma EndResets(rx: Rx, cap: nat)
    ensures ReadByte(rx, END, cap).rx == INITIAL
    ensures ReadByte(rx, END, cap).delivered == if !rx.escaped && |rx.data| >= 2 then [rx.data] else []
  {
  }

  /** What a frame contributes when it arrives from any receiver state whatever. */
  lemma {:induction false} FrameFromAnyState(rx: Rx, m: seq<byte>, cap: nat)
    ensures Feed(rx, Frame(m), cap)
         == Outcome(INITIAL, Feed(rx, [END], cap).delivered + if |Kept(m, cap)| >= 2 then [Kept(m, cap)] else [])
    ensures Feed(rx, [END] + Escape(m), cap).rx == Rx(false, Kept(m, cap))
  {
    hide Escape, Feed;
    FeedOne(rx, END, cap);
    FeedEscaped(m, cap);
    FeedConcat(rx, [END], Escape(m), cap);
    FeedConcat(rx, [END] + Escape(m), [END], cap);
    FeedOne(Rx(false, Kept(m, cap)), END, cap);
  }

  /** A frame hands on exactly its message when, and only when, the message has 2 to cap bytes. */
  lemma FrameDeliversExactly(m: seq<byte>, cap: nat)
    ensures Feed(INITIAL, Frame(m), cap).rx == INITIAL
    ensures Feed(INITIAL, Frame(m), cap).delivered == [m] <==> 2 <= |m| <= cap
  {
    FrameFromAnyState(INITIAL, m, cap);
    FeedOne(INITIAL, END, cap);
    var kept := Kept(m, cap);
    assert |m| > cap ==> |kept| != |m|;
    assert [kept][0] == kept;
    if |kept| >= 2 {
      assert Feed(INITIAL, Frame(m), cap).delivered == [kept];
    } else {
      assert Feed(INITIAL, Frame(m), cap).delivered == [];
    }
  }

  lemma RemainderOfLess(n: nat, d: nat)
    requires 0 < d <= n
    ensures (n - d) % d == n % d
  {
    var q, r := (n - d) / d, (n - d) % d;
    assert n - d == d * q + r;
    assert n == d * (q + 1) + r;
    RemainderUnique(n, d, q + 1, r);
  }

  lemma RemainderUnique(n: nat, d: nat, q: nat, r: nat)
    requires r < d && n == d * q + r
    ensures n % d == r
  {
    SameQuotient(d, n / d, n % d, q, r);
  }

  lemma SameQuotient(d: nat, p: nat, a: nat, q: nat, r: nat)
    requires a < d && r < d && d * p + a == d * q + r
    ensures a == r
  {
    Distributes(d, p, q);
    Distributes(d, q, p);
  }

  lemma {:induction false} Distributes(d: nat, p: nat, q: nat)
    ensures p < q ==> d * p + d <= d * q
    decreases q
  {
    if p < q {
      assert d * q == d * (q - 1) + d;
      Distributes(d, p, q - 1);
    }
  }

  lemma {:induction false} KeptLengthIs(n: nat, cap: nat)
    ensures KeptLength(n, cap) == n % (cap + 1)
  {
    if n > cap {
      KeptLengthIs(n - cap - 1, cap);
      RemainderOfLess(n, cap + 1);
    } else {
      RemainderUnique(n, cap + 1, 0, n);
    }
  }

  /**
   * What the frame of a message of any length hands on: each overflow discards
   * cap + 1 bytes, and what is left at the end is a message of its own if it has
   * at least 2 bytes, or else vanishes.
   */
  lemma FrameHandsOn(m: seq<byte>, cap: nat)
    ensures |m| % (cap + 1) <= |m|
    ensures Feed(INITIAL, Frame(m), cap).delivered
         == if |m| % (cap + 1) < 2 then [] else [m[|m| - |m| % (cap + 1)..]]
  {
    KeptLengthIs(|m|, cap);
    FrameFromAnyState(INITIAL, m, cap);
    FeedOne(INITIAL, END, cap);
    hide Feed, Frame, KeptLength;
  }

  /** Of 513 or 514 bytes the agent's receiver hands on nothing; of 515 it hands on the last two as a message. */
  lemma OverlongMessages(m: seq<byte>)
    requires UNIT < |m| <= UNIT + 3
    ensures Feed(INITIAL, Frame(m), UNIT).delivered == if |m| == UNIT + 3 then [m[UNIT + 1..]] else []
  {
    hide Feed, Frame;
    FrameHandsOn(m, UNIT);
  }

  /** The bytes of RFC 1055: END is 0xC0, ESC 0xDB, and behind an ESC 0xDC stands for END and 0xDD for ESC. */
  lemma WireBytes(b: byte, m: seq<byte>)
    ensures Escape([b]) == if b == 0xC0 then [0xDB, 0xDC] else if b == 0xDB then [0xDB, 0xDD] else [b]
    ensures Frame(m) == [0xC0] + Escape(m) + [0xC0]
    ensures Feed(INITIAL, Frame(m), UNIT).delivered == [m] <==> 2 <= |m| <= 512
  {
    EscapeOne(b);
    hide Escape;
    FrameDeliversExactly(m, UNIT);
  }

  /**
   * The code of a step: overflow for a byte too many, unknown for a byte that may
   * not follow ESC; both throw away what was held.
   */
  lemma CodesExactly(rx: Rx, b: byte, cap: nat)
    ensures var step := ReadByte(rx, b, cap);
      && (step.error == UnknownEscapedByte <==> rx.escaped && b != 0xDC && b != 0xDD)
      && (step.error == BufferOverflow <==>
            |rx.data| >= cap && if rx.escaped then b == 0xDC || b == 0xDD else b != 0xC0 && b != 0xDB)
      && (step.error != NoError ==> step.rx == INITIAL && step.delivered == [])
      && (step.error == NoError && !(b == 0xC0 && !rx.escaped) ==> rx.data <= step.rx.data)
  {
  }

  function Frames(ms: seq<seq<byte>>): seq<byte> {
    if ms == [] then [] else Frames(ms[..|ms| - 1]) + Frame(ms[|ms| - 1])
  }

  /** A message the agent can receive over SLIP. */
  predicate Fits(m: seq<byte>, cap: nat) {
    2 <= |m| <= cap
  }

  /**
   * Self-synchronisation: after any garbage, from any receiver state, a run of
   * frames delivers what the garbage and one END deliver, then every message.
   */
  lemma {:induction false} Resynchronises(rx: Rx, garbage: seq<byte>, ms: seq<seq<byte>>, cap: nat)
    requires ms != []
    requires forall i :: 0 <= i < |ms| ==> Fits(ms[i], cap)
    ensures Feed(rx, garbage + Frames(ms), cap)
         == Outcome(INITIAL, Feed(rx, garbage + [END], cap).delivered + ms)
  {
    hide Feed, Frame, Escape;
    var init, last := ms[..|ms| - 1], ms[|ms| - 1];
    var prefix := garbage + Frames(init);
    assert garbage + Frames(ms) == prefix + Frame(last);
    FrameAfter(rx, prefix, last, cap);
    var woken := Feed(rx, garbage + [END], cap).delivered;
    if init == [] {
      assert prefix == garbage && ms == [last];
    } else {
      Resynchronises(rx, garbage, init, cap);
      EndAfterFrames(rx, prefix, cap);
      assert (woken + init) + [last] == woken + ms;
    }
  }

  lemma EndAfterFrames(rx: Rx, prefix: seq<byte>, cap: nat)
    requires Feed(rx, prefix, cap).rx == INITIAL
    ensures Feed(rx, prefix + [END], cap).delivered == Feed(rx, prefix, cap).delivered
  {
    FeedConcat(rx, prefix, [END], cap);
    FeedOne(INITIAL, END, cap);
  }

  /** A frame behind any prefix acts as one END and then hands on its message. */
  lemma FrameAfter(rx: Rx, prefix: seq<byte>, m: seq<byte>, cap: nat)
    requires Fits(m, cap)
    ensures Feed(rx, prefix + Frame(m), cap)
         == Outcome(INITIAL, Feed(rx, prefix + [END], cap).delivered + [m])
  {
    hide Feed, Frame, Escape;
    var mid := Feed(rx, prefix, cap);
    FeedConcat(rx, prefix, Frame(m), cap);
    FeedConcat(rx, prefix, [END], cap);
    FrameFromAnyState(mid.rx, m, cap);
    var first := Feed(mid.rx, [END], cap).delivered;
    assert mid.delivered + (first + [m]) == (mid.delivered + first) + [m];
  }

  /** Wherever a frame stands in a stream, its closing END hands on its message. */
  lemma FrameDeliveredInStream(s: seq<byte>, start: nat, m: seq<byte>, cap: nat)
    requires Fits(m, cap)
    requires start + |Frame(m)| <= |s| && s[start..start + |Frame(m)|] == Frame(m)
    ensures DeliveredAt(s, start + |Frame(m)| - 1, cap) == [m]
  {
    hide Escape, Feed, ReadByte, Kept;
    var at := start + |Frame(m)| - 1;
    var body := [END] + Escape(m);
    assert Frame(m) == body + [END];
    assert s[start..at] == Frame(m)[..|body|] == body;
    assert s[at] == s[start..at + 1][|body|] == END;
    assert s[..at] == s[..start] + body;
    FeedConcat(INITIAL, s[..start], body, cap);
    FrameFromAnyState(Feed(INITIAL, s[..start], cap).rx, m, cap);
    KeptWhole(m, cap);
    EndResets(Rx(false, m), cap);
  }

  lemma KeptWhole(m: seq<byte>, cap: nat)
    requires |m| <= cap
    ensures Kept(m, cap) == m
  {
  }

  /** The receiver holds the un-escaping of the last bytes of the stream, and never more than cap bytes. */
  lemma {:induction false} ReceiverInvariant(s: seq<byte>, cap: nat) returns (start: nat)
    ensures start <= |s|
    ensures HoldsSuffix(Feed(INITIAL, s, cap).rx, s[start..], cap)
  {
    hide Escape, ReadByte;
    HoldsNothing(cap);
    if s == [] {
      start := 0;
    } else {
      var s', b := s[..|s| - 1], s[|s| - 1];
      var start' := ReceiverInvariant(s', cap);
      var rx := Feed(INITIAL, s', cap).rx;
      assert s[start'..] == s'[start'..] + [b];
      HoldsSuffixNext(rx, s'[start'..], b, cap);
      start := if ReadByte(rx, b, cap).rx == INITIAL then |s| else start';
    }
  }

  lemma HoldsNothing(cap: nat)
    ensures HoldsSuffix(INITIAL, [], cap)
  {
  }

  ghost predicate HoldsSuffix(rx: Rx, suffix: seq<byte>, cap: nat) {
    && |rx.data| <= cap
    && suffix == Escape(rx.data) + if rx.escaped then [ESC] else []
  }

  lemma HoldsSuffixNext(rx: Rx, suffix: seq<byte>, b: byte, cap: nat)
    requires HoldsSuffix(rx, suffix, cap)
    ensures var next := ReadByte(rx, b, cap).rx;
            HoldsSuffix(next, if next == INITIAL then [] else suffix + [b], cap)
  {
    var next := ReadByte(rx, b, cap).rx;
    if next != INITIAL && !next.escaped {
      assert next.data[..|next.data| - 1] == rx.data;
      var c := next.data[|next.data| - 1];
      assert Escape(next.data) == Escape(rx.data) + EscapeByte(c);
      assert EscapeByte(c) == if rx.escaped then [ESC, b] else [b];
    }
  }

  /** Whatever the stream, the receive buffer never holds more than its capacity. */
  lemma BufferNeverOverflows(s: seq<byte>, cap: nat)
    ensures |Feed(INITIAL, s, cap).rx.data| <= cap
  {
    var start := ReceiverInvariant(s, cap);
  }

  /**
   * Soundness on arbitrary input: whatever is handed on at some byte has 2 to
   * cap bytes, that byte is END, and the message is the RFC 1055 un-escaping of
   * an END-free run of the stream that ends just before it.
   */
  lemma DeliveriesAreSound(s: seq<byte>, at: nat, cap: nat)
    requires at < |s|
    ensures |DeliveredAt(s, at, cap)| <= 1
    ensures forall m :: m in DeliveredAt(s, at, cap) ==>
              && s[at] == END && Fits(m, cap)
              && exists start :: 0 <= start <= at && END !in s[start..at] && Unescape(s[start..at]) == Some(m)
  {
    hide Feed, Escape, Unescape;
    var start := ReceiverInvariant(s[..at], cap);
    var rx := Feed(INITIAL, s[..at], cap).rx;
    if DeliveredAt(s, at, cap) != [] {
      assert s[start..at] == s[..at][start..] == Escape(rx.data);
      UnescapeIffEscaped(s[start..at], rx.data);
      EscapeShape(rx.data);
      assert DeliveredAt(s, at, cap) == [rx.data];
    }
  }

  /** The deliveries of positions 0 to n, in order. */
  function DeliveredUpTo(s: seq<byte>, n: nat, cap: nat): seq<seq<byte>>
    requires n <= |s|
  {
    if n == 0 then [] else DeliveredUpTo(s, n - 1, cap) + DeliveredAt(s, n - 1, cap)
  }

  /** Nothing else is ever handed on: a stream's deliveries are those of its positions, in order. */
  lemma {:induction false} DeliveriesByPosition(s: seq<byte>, n: nat, cap: nat)
    requires n <= |s|
    ensures Feed(INITIAL, s[..n], cap).delivered == DeliveredUpTo(s, n, cap)
  {
    if n > 0 {
      DeliveriesByPosition(s, n - 1, cap);
      assert s[..n][..n - 1] == s[..n - 1];
    }
  }
}
