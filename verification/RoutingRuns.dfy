/**
 * Runs of the bridge: a request of any client can be asked and answered, and the
 * MID map of a run is that of the tracks, sweeps and clears in it.
 */
module RoutingRuns {
  import opened Bytes
  import opened Slip
  import opened Coap
  import opened CoapReaders
  import opened Tracker
  import opened Forwarding
  import opened Routing
  import SQ = SerialQueue
  import MH = MidHistory

  lemma RunOne(defaultPort: uint16, events: seq<Event>, e: Event)
    requires Run(defaultPort, events).Some? && Enabled(Run(defaultPort, events).value, e)
    ensures Run(defaultPort, events + [e]) == Some(Step(Run(defaultPort, events).value, e))
  {
    hide Enabled, Step;
    assert (events + [e])[..|events|] == events;
  }

  // ------------------------------------------------- a request and its answer

  lemma PrefixIsQuiet(s: seq<byte>, k: nat)
    requires k <= |s| && Feed(INITIAL, s, UNIT).delivered == []
    ensures Feed(INITIAL, s[..k], UNIT).delivered == []
  {
    hide Feed;
    FeedConcat(INITIAL, s[..k], s[k..], UNIT);
    assert s == s[..k] + s[k..];
  }

  /** Nothing is handed on before the closing END of a frame. */
  lemma QuietUntilEnd(m: seq<byte>, k: nat)
    requires k < |Frame(m)|
    ensures Feed(INITIAL, Frame(m)[..k], UNIT).delivered == []
  {
    hide Feed, Escape, Kept;
    var body := [END] + Escape(m);
    assert Frame(m)[..|body|] == body && Frame(m)[..k] == body[..k];
    FeedEscaped(m, UNIT);
    FeedOne(INITIAL, END, UNIT);
    FeedConcat(INITIAL, [END], Escape(m), UNIT);
    PrefixIsQuiet(body, k);
  }

  function Reads(k: nat): seq<Event> {
    if k == 0 then [] else Reads(k - 1) + [Read]
  }

  /** Reading a frame up to its closing END moves nothing but the receiver. */
  lemma {:induction false} ReadsUpToEnd(defaultPort: uint16, events: seq<Event>, m: seq<byte>, k: nat)
    requires Run(defaultPort, events).Some? && k < |Frame(m)|
    requires var n := Run(defaultPort, events).value; n.back == Frame(m) && n.heard == 0 && n.rx == INITIAL
    ensures var n := Run(defaultPort, events).value;
      Run(defaultPort, events + Reads(k)) == Some(n.(heard := k, rx := Feed(INITIAL, Frame(m)[..k], UNIT).rx))
  {
    hide Run, Frame, ReadByte, Feed, Forward, ToUdp;
    var f := Frame(m);
    if k == 0 {
      FeedNothing(INITIAL, UNIT);
      assert events + Reads(0) == events && f[..0] == [];
    } else {
      ReadsUpToEnd(defaultPort, events, m, k - 1);
      RunOne(defaultPort, events + Reads(k - 1), Read);
      assert events + Reads(k) == events + Reads(k - 1) + [Read];
      FeedNext(INITIAL, f, k - 1, UNIT);
      QuietUntilEnd(m, k);
    }
  }

  /** A request that the bridge can put on an empty line, as it logs it. */
  ghost predicate Sendable(r: Request, maxLen: nat)
    ensures Sendable(r, maxLen) ==> |r.msg| >= 1 && LooksLikeCoap(r.msg) && (r.tagged ==> GetTokenLength(r.msg) < 5)
  {
    && 1 <= |r.msg| <= maxLen && LooksLikeCoap(r.msg) && IsRequest(r.msg)
    && r.tagged == Taggable(r.msg, maxLen) && r.start == 0
    && |Frame(OnWire(r))| <= UNIT
  }

  lemma SendableIsQueued(r: Request, maxLen: nat)
    requires Sendable(r, maxLen)
    ensures IsQueuedRequest(r) && 0 < |OnWire(r)| && |OnWire(r)| + 2 <= |Frame(OnWire(r))|
    ensures ToSerial(map[], r.port, r.msg, maxLen, 0).Ok?
  {
    QueuedWhole(r);
    FrameShape(OnWire(r));
    hide Frame, Specials, OnWire, WithToken, TagOf;
  }

  /** The map after a first request. */
  function FirstMids(r: Request, maxLen: nat, now: int): Mids
    requires |r.msg| >= 1 && LooksLikeCoap(r.msg)
  {
    if RemembersMid(r.msg, maxLen) then Tracked(map[], r.port, GetMid(r.msg), now) else map[]
  }

  lemma FirstClientStep(defaultPort: uint16, r: Request, maxLen: nat, now: int, e: Event)
    requires Sendable(r, maxLen) && e == Client(r.port, r.msg, maxLen, now, |Frame(OnWire(r))|)
    ensures var n, f := Start(defaultPort), Frame(OnWire(r));
      && Enabled(n, e)
      && Step(n, e) == n.(mids := FirstMids(r, maxLen, now), tx := SQ.Queue(f, |f|, [], f), requests := [r])
  {
    SendableIsQueued(r, maxLen);
    hide Frame, WithToken, TagOf, RemembersMid, Tracked;
    var f := Frame(OnWire(r));
    assert [] + f[..|f|] == f && [] + [r] == [r];
  }

  /** The request of any client is queued as the first and only frame on the line, and written. */
  lemma Asked(defaultPort: uint16, r: Request, maxLen: nat, now: int) returns (events: seq<Event>)
    requires Sendable(r, maxLen)
    ensures var n, f := Start(defaultPort), Frame(OnWire(r));
      Run(defaultPort, events)
      == Some(n.(mids := FirstMids(r, maxLen, now), tx := SQ.Queue([], 0, f, f), requests := [r]))
  {
    hide Frame, OnWire, FirstMids, Sendable;
    var f := Frame(OnWire(r));
    FrameEnds(OnWire(r));
    var send := Client(r.port, r.msg, maxLen, now, |f|);
    FirstClientStep(defaultPort, r, maxLen, now, send);
    RunOne(defaultPort, [], send);
    assert [] + [send] == [send];
    RunOne(defaultPort, [send], Written(|f|, 0));
    events := [send] + [Written(|f|, 0)];
    assert [] + f[..|f|] == f && f[|f|..] == [];
  }

  /** A response that repeats the token of a request as the peer saw it, of a size that SLIP carries. */
  ghost predicate Answering(response: seq<byte>, r: Request)
    requires |r.msg| >= 1 && LooksLikeCoap(r.msg)
  {
    && |response| >= 1 && LooksLikeCoap(response) && IsResponse(response) && |response| <= UNIT
    && Token(response) == WireToken(r)
  }

  lemma AnswerEnabled(n: Net, r: Request, response: seq<byte>)
    requires IsQueuedRequest(r) && r.start == 0
    requires LineSide(n) && n.requests == [r] && n.tx.confirmed == Frame(OnWire(r))
    requires Answering(response, r)
    ensures Enabled(n, Answers(0, response))
  {
    WireTokenIs(r);
    hide Frame, OnWire, WireToken, DeliveredAt;
    PeerHearsRequest(n, 0);
  }

  lemma Answered(defaultPort: uint16, r: Request, maxLen: nat, now: int, response: seq<byte>)
    returns (events: seq<Event>)
    requires Sendable(r, maxLen) && Answering(response, r)
    ensures Run(defaultPort, events).Some?
    ensures var n := Run(defaultPort, events).value;
      && n.requests == [r] && n.answers == [Answer(0, response, 0)] && n.mids == FirstMids(r, maxLen, now)
      && n.back == Frame(response) && n.heard == 0 && n.rx == INITIAL && n.deliveries == []
  {
    SendableIsQueued(r, maxLen);
    var asked := Asked(defaultPort, r, maxLen, now);
    RunKeeps(defaultPort, asked);
    assert r.start == 0;
    hide Run, Frame, OnWire, LineSide, PeerSide, IsQueuedRequest, Answering, FirstMids, Sendable;
    AnswerEnabled(Run(defaultPort, asked).value, r, response);
    hide Enabled;
    RunOne(defaultPort, asked, Answers(0, response));
    events := asked + [Answers(0, response)];
    assert [] + Frame(response) == Frame(response);
  }

  /** Reading one whole frame sends out what the tracker makes of its message. */
  lemma ReadFrame(defaultPort: uint16, before: seq<Event>, m: seq<byte>) returns (events: seq<Event>)
    requires Run(defaultPort, before).Some? && |m| >= 1 && Fits(m, UNIT)
    requires var n := Run(defaultPort, before).value; n.back == Frame(m) && n.heard == 0 && n.rx == INITIAL
    ensures Run(defaultPort, events).Some?
    ensures var n, end := Run(defaultPort, before).value, Run(defaultPort, events).value;
      var to := Forward(ToUdp(n.mids, n.defaultPort, m));
      && end == n.(rx := end.rx, heard := |n.back|, deliveries := end.deliveries)
      && end.deliveries == n.deliveries + if to.Dropped? then [] else [Delivery(|Frame(m)| - 1, to)]
  {
    FrameEnds(m);
    hide Run, Frame, Feed, Forward, ToUdp, ReadStep;
    var last := |Frame(m)| - 1;
    ReadsUpToEnd(defaultPort, before, m, last);
    var quiet := before + Reads(last);
    var end := Run(defaultPort, quiet).value;
    assert end.back[0..0 + |Frame(m)|] == Frame(m);
    FrameForwarded(end, 0, m);
    RunOne(defaultPort, quiet, Read);
    events := quiet + [Read];
  }

  /**
   * Any request that can be tagged and whose tagged frame fits the command buffer
   * can be answered: this run asks it and reads the whole answer. What goes out is
   * one message, the answer with the client's own token for the client's port, or
   * its payload for the JAUS side if that port is a JAUS port.
   */
  lemma AnswerReachesClient(defaultPort: uint16, r: Request, maxLen: nat, now: int, response: seq<byte>)
    returns (events: seq<Event>)
    requires Sendable(r, maxLen) && r.tagged && Answering(response, r)
    ensures Run(defaultPort, events).Some?
    ensures var n := Run(defaultPort, events).value;
      && n.requests == [r] && n.answers == [Answer(0, response, 0)] && n.heard == |n.back|
      && n.deliveries == [Delivery(|Frame(response)| - 1,
                                   if IsJausPort(r.port) then ToJaus(r.port, SkipToPayload(Body(response)))
                                   else ToRemote(r.port, WithToken(response, Token(r.msg))))]
  {
    var before := Answered(defaultPort, r, maxLen, now, response);
    hide Run, Frame, WithToken, TagOf, SkipToPayload, Forward, ToUdp, Body, IsJausPort, LooksLikeCoap;
    events := ReadFrame(defaultPort, before, response);
    var n := Run(defaultPort, before).value;
    TaggedResponseForwarded(n.mids, n.defaultPort, r.port, Token(r.msg), response);
  }

  /**
   * So can a request that cannot be tagged, if its own token does not pass for a
   * tag and the answer repeats its MID: the answer goes out unchanged, by way of
   * the MID map.
   */
  lemma UntaggedAnswerReachesClient(defaultPort: uint16, r: Request, maxLen: nat, now: int, response: seq<byte>)
    returns (events: seq<Event>)
    requires Sendable(r, maxLen) && !r.tagged && Answering(response, r)
    requires GetMid(response) == GetMid(r.msg) && !HasTag(Token(r.msg))
    ensures Run(defaultPort, events).Some?
    ensures var n := Run(defaultPort, events).value;
      && n.requests == [r] && n.answers == [Answer(0, response, 0)] && n.heard == |n.back|
      && n.deliveries == [Delivery(|Frame(response)| - 1,
                                   if IsJausPort(r.port) then ToJaus(r.port, SkipToPayload(Body(response)))
                                   else ToRemote(r.port, response))]
  {
    var before := Answered(defaultPort, r, maxLen, now, response);
    UntaggedLookup(defaultPort, r, maxLen, now, response);
    hide Run, Frame, SkipToPayload, ToUdp, Body, IsJausPort, LooksLikeCoap, FirstMids, Sendable, Answering;
    events := ReadFrame(defaultPort, before, response);
    StartPort(defaultPort, before);
  }

  lemma UntaggedLookup(defaultPort: uint16, r: Request, maxLen: nat, now: int, response: seq<byte>)
    requires Sendable(r, maxLen) && !r.tagged && Answering(response, r)
    requires GetMid(response) == GetMid(r.msg) && !HasTag(Token(r.msg))
    ensures ToUdp(FirstMids(r, maxLen, now), defaultPort, response) == Ok(Inbound(r.port, response))
  {
    hide HasTag, Frame, GetMid;
  }

  lemma {:induction false} StartPort(defaultPort: uint16, events: seq<Event>)
    requires Run(defaultPort, events).Some?
    ensures Run(defaultPort, events).value.defaultPort == defaultPort
  {
    hide Enabled, ToSerial, ToUdp, Forward, ReadByte, Frame, SQ.Step;
    if events != [] {
      StartPort(defaultPort, events[..|events| - 1]);
    }
  }

  /** A GET from UDP port 901, answered: the remote host is sent nothing at all. */
  lemma JausPortClientUnserved(defaultPort: uint16, now: int) returns (events: seq<Event>)
    ensures Run(defaultPort, events).Some?
    ensures var n := Run(defaultPort, events).value;
      && n.requests == [Request(901, [0x40, 0x01, 0, 1], 0, true)] && |n.answers| == 1 && n.heard == |n.back|
      && forall d :: d in n.deliveries ==> !d.to.ToRemote?
  {
    var request := Request(901, [0x40, 0x01, 0, 1], 0, true);
    var response := JausExample(request);
    hide Run, Frame, WithToken, SkipToPayload, Body, Answering, LooksLikeCoap, Token, Sendable;
    events := AnswerReachesClient(defaultPort, request, 7, now, response);
  }

  /** A message of four bytes without a token, of version 1. */
  lemma BareHeader(msg: seq<byte>)
    requires |msg| == 4 && msg[0] == 0x40
    ensures LooksLikeCoap(msg) && GetTokenLength(msg) == 0 && Token(msg) == []
  {
  }

  lemma TaggedBare(msg: seq<byte>, tag: seq<byte>)
    requires |msg| == 4 && msg[0] == 0x40 && |tag| == 3
    ensures LooksLikeCoap(msg) && LooksLikeCoap(WithToken(msg, tag))
    ensures |WithToken(msg, tag)| == 7 && Token(WithToken(msg, tag)) == tag && WithToken(msg, tag)[1] == msg[1]
  {
    BareHeader(msg);
    WithTokenKeeps(msg, tag);
    hide *;
  }

  lemma JausExample(r: Request) returns (response: seq<byte>)
    requires r.tagged && r.start == 0 && r.port == 901
    requires |r.msg| == 4 && r.msg[0] == 0x40 && r.msg[1] == 0x01
    ensures Sendable(r, 7) && Answering(response, r)
  {
    BareHeader(r.msg);
    TagLength(r.port);
    hide LooksLikeCoap, Token, GetTokenLength, Frame, WithToken, TagOf;
    var tag := TagOf(r.port) + Token(r.msg);
    TaggedBare(r.msg, tag);
    FrameIsShort(WithToken(r.msg, tag));
    var plain: seq<byte> := [0x40, 0x45, 0, 1];
    TaggedBare(plain, tag);
    response := WithToken(plain, tag);
  }

  lemma TagLength(port: uint16)
    ensures |TagOf(port)| == 3
  {
  }

  lemma {:induction false} FrameIsShort(m: seq<byte>)
    ensures |Frame(m)| <= 2 * |m| + 2
  {
    if m != [] {
      FrameIsShort(m[..|m| - 1]);
    }
  }

  // ------------------------------------------------------------- the MID map

  /** The tracks, sweeps and clears of a run, in the terms of its MID history. */
  function MidEvents(events: seq<Event>): seq<MH.Event> {
    if events == [] then [] else MidEvents(events[..|events| - 1]) + MidEvent(events[|events| - 1])
  }

  function MidEvent(e: Event): seq<MH.Event> {
    match e
    case Client(port, msg, maxLen, now, _) =>
      if 1 <= |msg| <= maxLen && LooksLikeCoap(msg) && RemembersMid(msg, maxLen)
      then [MH.Track(port, GetMid(msg), now)] else []
    case Sweep(now) => [MH.Sweep(now)]
    case ClearMids(now) => [MH.Clear(now)]
    case _ => []
  }

  lemma MidStep(n: Net, e: Event)
    requires Enabled(n, e)
    ensures Step(n, e).mids == if MidEvent(e) == [] then n.mids else MH.Step(n.mids, MidEvent(e)[0])
    ensures |MidEvent(e)| <= 1
  {
    hide MarkerByte, WithToken, Frame, RemembersMid, Forward, ReadByte, Tracked, Swept, TagOf, SQ.Step, SQ.Enabled;
  }

  lemma HistoryGrows(h: seq<MH.Event>, e: MH.Event)
    ensures MH.Run(h + [e]) == MH.Step(MH.Run(h), e)
  {
    assert (h + [e])[..|h|] == h;
  }

  /** The map that the running bridge holds is exactly the one its history gives. */
  lemma {:induction false} MapIsHistory(defaultPort: uint16, events: seq<Event>)
    requires Run(defaultPort, events).Some?
    ensures Run(defaultPort, events).value.mids == MH.Run(MidEvents(events))
  {
    hide Enabled, Step, MidEvent, MH.Step;
    if events != [] {
      var init, e := events[..|events| - 1], events[|events| - 1];
      MapIsHistory(defaultPort, init);
      MidStep(Run(defaultPort, init).value, e);
      var h := MidEvents(init);
      if MidEvent(e) != [] {
        HistoryGrows(h, MidEvent(e)[0]);
        assert MidEvent(e) == [MidEvent(e)[0]];
      } else {
        assert h + [] == h;
      }
    }
  }

  /**
   * The fallback in the running bridge: when the agent reads the closing END of a
   * response whose MID was last tracked for a port less than 250 seconds before
   * now, the response goes to that port, unchanged, if and only if its token does
   * not pass for a tag and the port is not a JAUS port.
   */
  lemma FallbackEndToEnd(defaultPort: uint16, events: seq<Event>, start: nat, response: seq<byte>, i: nat, now: int)
    requires Run(defaultPort, events).Some?
    requires |response| >= 1 && LooksLikeCoap(response) && IsResponse(response) && Fits(response, UNIT)
    requires var n := Run(defaultPort, events).value;
      n.heard < |n.back| && FrameAt(n.back, start, response) && start + |Frame(response)| - 1 == n.heard
    requires var h := MidEvents(events);
      && MH.Timed(h) && MH.IsCurrentTrack(h, GetMid(response), i)
      && (forall j :: 0 <= j < |h| ==> h[j].at <= now) && now - h[i].at < MID_TIMEOUT
    ensures var n := Run(defaultPort, events).value;
      var port := MidEvents(events)[i].port;
      && (ReadStep(n).deliveries == n.deliveries + [Delivery(n.heard, ToRemote(port, response))]
          <==> !HasTag(Token(response)) && !IsJausPort(port))
  {
    RunKeeps(defaultPort, events);
    MapIsHistory(defaultPort, events);
    hide Run, Frame, FrameAt, MH.Run, MH.Timed, HasTag, MidEvents, IsJausPort, ToUdp, Forward, ReadStep;
    var n := Run(defaultPort, events).value;
    FrameForwarded(n, start, response);
    var h := MidEvents(events);
    MH.FallbackRouting(h, i, now, n.defaultPort, response);
    ForwardedToRemote(ToUdp(n.mids, n.defaultPort, response), h[i].port, response);
    SameSuffix(n.deliveries, Forward(ToUdp(n.mids, n.defaultPort, response)), n.heard, h[i].port, response);
  }

  lemma SameSuffix(before: seq<Delivery>, to: Forwarded, at: nat, port: uint16, bytes: seq<byte>)
    ensures before + (if to.Dropped? then [] else [Delivery(at, to)]) == before + [Delivery(at, ToRemote(port, bytes))]
            <==> to == ToRemote(port, bytes)
  {
    var left := before + if to.Dropped? then [] else [Delivery(at, to)];
    var right := before + [Delivery(at, ToRemote(port, bytes))];
    assert right[|before|] == Delivery(at, ToRemote(port, bytes));
    if left == right {
      assert left[|before|] == right[|before|];
    }
  }

  /**
   * A request that cannot be tagged, with a frame that fits, is queued whole and
   * unchanged, and its MID is tracked for its port.
   */
  lemma UntaggedRequestQueued(n: Net, port: uint16, msg: seq<byte>, maxLen: nat, now: int, region: nat)
    requires Inv(n) && 1 <= |msg| <= maxLen && LooksLikeCoap(msg) && IsRequest(msg) && !Taggable(msg, maxLen)
    requires |Frame(msg)| <= SQ.Free(n.tx)
    requires Enabled(n, Client(port, msg, maxLen, now, region))
    ensures var e := Client(port, msg, maxLen, now, region);
      && Step(n, e).tx.accepted == n.tx.accepted + Frame(msg)
      && Step(n, e).requests == n.requests + [Request(port, msg, |n.tx.accepted|, false)]
      && Step(n, e).mids == Tracked(n.mids, port, GetMid(msg), now)
      && MidEvent(e) == [MH.Track(port, GetMid(msg), now)]
  {
    hide Frame, MarkerByte, WithToken;
    FrameIsLonger(msg);
    SendGrows(n.tx, msg, region);
  }

  /** Event i of the MID history is a track of an untagged request. */
  ghost predicate TrackedAt(h: seq<MH.Event>, r: Request, i: nat)
    requires |r.msg| >= 4
  {
    i < |h| && h[i].Track? && h[i].port == r.port && h[i].mid == GetMid(r.msg)
  }

  ghost predicate UntaggedAreTracked(requests: seq<Request>, h: seq<MH.Event>) {
    forall k :: 0 <= k < |requests| && !requests[k].tagged ==>
      |requests[k].msg| >= 4 && exists i :: TrackedAt(h, requests[k], i)
  }

  lemma TracksGrow(requests: seq<Request>, h: seq<MH.Event>, more: seq<MH.Event>)
    requires UntaggedAreTracked(requests, h)
    ensures UntaggedAreTracked(requests, h + more)
  {
    forall k | 0 <= k < |requests| && !requests[k].tagged
      ensures |requests[k].msg| >= 4 && exists i :: TrackedAt(h + more, requests[k], i)
    {
      var i :| TrackedAt(h, requests[k], i);
      assert TrackedAt(h + more, requests[k], i);
    }
  }

  /** What a step adds to the log of requests: nothing, or a request that is tagged or whose MID the step tracks. */
  lemma RequestLogged(n: Net, e: Event)
    requires Enabled(n, e)
    ensures Step(n, e).requests == n.requests
      || exists r :: Step(n, e).requests == n.requests + [r]
           && (r.tagged || (|r.msg| >= 4 && TrackedAt(MidEvent(e), r, 0)))
  {
    hide MarkerByte, WithToken, Frame, Forward, ReadByte, Tracked, Swept, TagOf, Taggable;
    hide SQ.Step, SQ.Enabled, SQ.Queues;
    if Step(n, e).requests != n.requests {
      var r := Request(e.port, e.msg, |n.tx.accepted|, Taggable(e.msg, e.maxLen));
      assert Step(n, e).requests == n.requests + [r];
    }
  }

  /** Over every run, each untagged request that was queued whole has a track of its MID for its port. */
  lemma {:induction false} UntaggedTracked(defaultPort: uint16, events: seq<Event>)
    requires Run(defaultPort, events).Some?
    ensures UntaggedAreTracked(Run(defaultPort, events).value.requests, MidEvents(events))
  {
    hide Enabled, Step, MidEvent, TrackedAt, UntaggedAreTracked;
    if events == [] {
      NoneTracked();
    } else {
      var init, e := events[..|events| - 1], events[|events| - 1];
      UntaggedTracked(defaultPort, init);
      var before, after := Run(defaultPort, init).value, Run(defaultPort, events).value;
      RequestLogged(before, e);
      TracksGrow(before.requests, MidEvents(init), MidEvent(e));
      TrackAdded(before.requests, after.requests, MidEvents(init), MidEvent(e));
    }
  }

  lemma NoneTracked()
    ensures UntaggedAreTracked([], [])
  {
  }

  lemma TrackAdded(before: seq<Request>, after: seq<Request>, h: seq<MH.Event>, added: seq<MH.Event>)
    requires UntaggedAreTracked(before, h + added)
    requires after == before
      || exists r :: after == before + [r] && (r.tagged || (|r.msg| >= 4 && TrackedAt(added, r, 0)))
    ensures UntaggedAreTracked(after, h + added)
  {
    if after != before {
      var r :| after == before + [r] && (r.tagged || (|r.msg| >= 4 && TrackedAt(added, r, 0)));
      if !r.tagged {
        assert TrackedAt(h + added, r, |h|);
      }
    }
  }

  /**
   * End-to-end routing of untagged requests. In every run, when the agent reads the
   * closing END of an answer that repeats the MID of its request, last tracked less
   * than 250 seconds before now, the answer goes unchanged to the client if and
   * only if that last track is the client's, the client's token does not pass for
   * a tag, and its port is not a JAUS port.
   */
  lemma UntaggedEndToEnd(defaultPort: uint16, events: seq<Event>, j: nat, i: nat, now: int)
    requires Run(defaultPort, events).Some?
    requires var n := Run(defaultPort, events).value;
      && j < |n.answers| && n.answers[j].request < |n.requests| && !ToTagged(n, n.answers[j])
      && EndOf(n.answers[j]) == n.heard < |n.back|
      && |n.answers[j].msg| >= 4 && |n.requests[n.answers[j].request].msg| >= 4
      && GetMid(n.answers[j].msg) == GetMid(n.requests[n.answers[j].request].msg)
    requires var h := MidEvents(events);
      && MH.Timed(h) && MH.IsCurrentTrack(h, GetMid(Run(defaultPort, events).value.answers[j].msg), i)
      && (forall j :: 0 <= j < |h| ==> h[j].at <= now) && now - h[i].at < MID_TIMEOUT
    ensures var n := Run(defaultPort, events).value;
      var a := n.answers[j];
      var r := n.requests[a.request];
      && IsAnswerTo(a, r)
      && (ReadStep(n).deliveries == n.deliveries + [Delivery(n.heard, ToRemote(r.port, a.msg))]
          <==> MidEvents(events)[i].port == r.port && !HasTag(Token(r.msg)) && !IsJausPort(r.port))
  {
    RunKeeps(defaultPort, events);
    MapIsHistory(defaultPort, events);
    var n, h := Run(defaultPort, events).value, MidEvents(events);
    var a := n.answers[j];
    var r := n.requests[a.request];
    assert IsAnswerTo(a, r) && FrameAt(n.back, a.start, a.msg);
    hide Run, Frame, FrameAt, MH.Run, MH.Timed, HasTag, MidEvents, IsJausPort, ToUdp, Forward, ReadStep;
    hide AnswersDelivered, DeliveriesInOrder, LineSide;
    FrameForwarded(n, a.start, a.msg);
    MH.FallbackRouting(h, i, now, n.defaultPort, a.msg);
    if HasTag(Token(a.msg)) {
      TagShortens(n.mids, n.defaultPort, r.port, a.msg);
    }
    ForwardedToRemote(ToUdp(n.mids, n.defaultPort, a.msg), r.port, a.msg);
    SameSuffix(n.deliveries, Forward(ToUdp(n.mids, n.defaultPort, a.msg)), n.heard, r.port, a.msg);
  }

  lemma FrameIsLonger(m: seq<byte>)
    ensures |m| + 2 <= |Frame(m)|
  {
    FrameShape(m);
  }
}
