/**
 * Where everything that comes in from the serial line goes, told from the history
 * of the run: Empty messages, untagged responses, requests, and the rest.
 */
module InboundRouting {
  import opened Bytes
  import opened Slip
  import opened Coap
  import opened CoapReaders
  import opened Tracker
  import opened Forwarding
  import opened Routing
  import opened RoutingRuns
  import SQ = SerialQueue
  import MH = MidHistory

  /** The byte that the agent reads next is the closing END of the frame of a CoAP message. */
  ghost predicate Arrives(n: Net, start: nat, msg: seq<byte>) {
    && 4 <= |msg| <= 512 && LooksLikeCoap(msg)
    && n.heard < |n.back| && FrameAt(n.back, start, msg) && start + |Frame(msg)| - 1 == n.heard
  }

  /**
   * Reading it sends the unchanged message to a port of the remote host, or its
   * payload to the JAUS side, and nothing else.
   */
  ghost predicate GoesTo(n: Net, port: uint16, msg: seq<byte>)
    requires |msg| >= 1 && LooksLikeCoap(msg) && n.heard < |n.back|
  {
    ReadStep(n).deliveries == n.deliveries +
      [Delivery(n.heard, if 900 < port < 945 then ToJaus(port, SkipToPayload(Body(msg))) else ToRemote(port, msg))]
  }

  function MidOf(msg: seq<byte>): uint16
    requires |msg| >= 4
  {
    0x100 * (msg[2] as int) + msg[3] as int
  }

  /** Event i is the latest track of the MID, nothing was cleared since, and it is less than 250 seconds old. */
  ghost predicate YoungTrack(h: seq<MH.Event>, mid: uint16, i: nat, now: int) {
    && MH.Timed(h) && MH.IsCurrentTrack(h, mid, i)
    && (forall j :: 0 <= j < |h| ==> h[j].at <= now)
    && now - h[i].at < 250_000_000_000
  }

  /** The MID was never tracked since the last clear, or a sweep came when its track was at least 250 seconds old. */
  ghost predicate NoTrack(h: seq<MH.Event>, mid: uint16) {
    forall i: nat :: MH.IsCurrentTrack(h, mid, i) ==>
      exists j :: i < j < |h| && h[j].Sweep? && h[j].at - h[i].at >= 250_000_000_000
  }

  lemma Sent(n: Net, start: nat, msg: seq<byte>, port: uint16)
    requires ReceiverInStep(n) && Arrives(n, start, msg)
    requires ToUdp(n.mids, n.defaultPort, msg) == Ok(Inbound(port, msg))
    ensures GoesTo(n, port, msg)
  {
    FrameForwarded(n, start, msg);
    hide Frame, FrameAt, ReadStep, ToUdp, SkipToPayload, Body, ReceiverInStep, LooksLikeCoap;
  }

  lemma Reachable(defaultPort: uint16, events: seq<Event>)
    requires Run(defaultPort, events).Some?
    ensures var n := Run(defaultPort, events).value;
      ReceiverInStep(n) && n.defaultPort == defaultPort && n.mids == MH.Run(MidEvents(events))
  {
    hide Run, LineSide, AnswersInOutput, AnswersDelivered, DeliveriesInOrder, ReceiverInStep;
    RunKeeps(defaultPort, events);
    StartPort(defaultPort, events);
    MapIsHistory(defaultPort, events);
  }

  /** An Empty message, or a response whose token does not pass for a tag, follows the MID map. */
  lemma FollowsMap(mids: Mids, defaultPort: uint16, msg: seq<byte>)
    requires |msg| >= 4 && LooksLikeCoap(msg)
    requires msg[1] == 0 || (0x40 <= msg[1] <= 0xBF && !HasTag(Token(msg)))
    ensures ToUdp(mids, defaultPort, msg)
         == Ok(Inbound(if MidOf(msg) in mids then mids[MidOf(msg)].port else defaultPort, msg))
  {
    HeaderLayout(msg);
    hide HasTag, Token, Body, LooksLikeCoap, GetCoapType;
  }

  lemma YoungLookup(h: seq<MH.Event>, mid: uint16, i: nat, now: int)
    requires YoungTrack(h, mid, i, now)
    ensures mid in MH.Run(h) && MH.Run(h)[mid].port == h[i].port
  {
    hide MH.Run, MH.Timed, MH.IsCurrentTrack;
    MH.YoungEntryKept(h, mid, i, now);
  }

  lemma NoLookup(h: seq<MH.Event>, mid: uint16)
    requires NoTrack(h, mid)
    ensures mid !in MH.Run(h)
  {
    hide MH.Run, MH.IsCurrentTrack;
    MH.LookupIsHistory(h, mid);
  }

  /**
   * Over every run: an Empty message whose MID was last tracked less than 250
   * seconds ago goes to the port it was tracked for, unchanged, if and only if that
   * is no JAUS port. So does a response whose token does not pass for a tag.
   */
  lemma UnmarkedGoesToTracked(defaultPort: uint16, events: seq<Event>, start: nat, msg: seq<byte>, i: nat, now: int)
    requires Run(defaultPort, events).Some? && Arrives(Run(defaultPort, events).value, start, msg)
    requires msg[1] == 0 || (0x40 <= msg[1] <= 0xBF && !HasTag(Token(msg)))
    requires YoungTrack(MidEvents(events), MidOf(msg), i, now)
    ensures var n := Run(defaultPort, events).value;
      var port := MidEvents(events)[i].port;
      && GoesTo(n, port, msg)
      && (ReadStep(n).deliveries == n.deliveries + [Delivery(n.heard, ToRemote(port, msg))] <==> !(900 < port < 945))
  {
    hide Run, MidEvents, MH.Run, FrameAt, ReceiverInStep, ReadStep, ToUdp, HasTag, Token, LooksLikeCoap, Body;
    Reachable(defaultPort, events);
    var n, h := Run(defaultPort, events).value, MidEvents(events);
    YoungLookup(h, MidOf(msg), i, now);
    FollowsMap(n.mids, defaultPort, msg);
    Sent(n, start, msg, h[i].port);
    hide Arrives, YoungTrack, MidOf;
    var jaus := ToJaus(h[i].port, SkipToPayload(Body(msg)));
    OtherSuffix(n.deliveries, Delivery(n.heard, jaus), Delivery(n.heard, ToRemote(h[i].port, msg)));
  }

  lemma OtherSuffix(ds: seq<Delivery>, d: Delivery, e: Delivery)
    requires d != e
    ensures ds + [d] != ds + [e]
  {
    assert (ds + [d])[|ds|] == d && (ds + [e])[|ds|] == e;
  }

  /** Over every run: without a track such a message goes to the default port. */
  lemma UnmarkedGoesToDefault(defaultPort: uint16, events: seq<Event>, start: nat, msg: seq<byte>)
    requires Run(defaultPort, events).Some? && Arrives(Run(defaultPort, events).value, start, msg)
    requires msg[1] == 0 || (0x40 <= msg[1] <= 0xBF && !HasTag(Token(msg)))
    requires NoTrack(MidEvents(events), MidOf(msg))
    ensures GoesTo(Run(defaultPort, events).value, defaultPort, msg)
  {
    hide Run, MidEvents, MH.Run, FrameAt, ReceiverInStep, ReadStep, ToUdp, HasTag, Token, LooksLikeCoap, Body, GoesTo;
    Reachable(defaultPort, events);
    var n := Run(defaultPort, events).value;
    NoLookup(MidEvents(events), MidOf(msg));
    FollowsMap(n.mids, defaultPort, msg);
    Sent(n, start, msg, defaultPort);
  }

  /** Over every run: a request from the serial side always goes to the default port, whatever its token and MID. */
  lemma RequestGoesToDefault(defaultPort: uint16, events: seq<Event>, start: nat, msg: seq<byte>)
    requires Run(defaultPort, events).Some? && Arrives(Run(defaultPort, events).value, start, msg)
    requires 1 <= msg[1] <= 31
    ensures GoesTo(Run(defaultPort, events).value, defaultPort, msg)
  {
    HeaderLayout(msg);
    hide Run, FrameAt, ReceiverInStep, ReadStep, HasTag, Token, LooksLikeCoap, Body, GetMid, GetCoapType, GoesTo;
    Reachable(defaultPort, events);
    Sent(Run(defaultPort, events).value, start, msg, defaultPort);
  }

  /** Over every run: a message with any other code, of class 1, 6 or 7, goes nowhere. */
  lemma ReservedGoesNowhere(defaultPort: uint16, events: seq<Event>, start: nat, msg: seq<byte>)
    requires Run(defaultPort, events).Some? && Arrives(Run(defaultPort, events).value, start, msg)
    requires 0x20 <= msg[1] <= 0x3F || msg[1] >= 0xC0
    ensures var n := Run(defaultPort, events).value; ReadStep(n).deliveries == n.deliveries
  {
    HeaderLayout(msg);
    hide Run, FrameAt, ReceiverInStep, ReadStep, HasTag, Token, LooksLikeCoap, Body, GetMid, GetCoapType;
    Reachable(defaultPort, events);
    var n := Run(defaultPort, events).value;
    assert ToUdp(n.mids, n.defaultPort, msg) == Err(NotForwardable);
    hide ToUdp;
    FrameForwarded(n, start, msg);
  }

  // ------------------------------------------------------ what makes a track

  /**
   * Of the messages on their way to the serial side that are CoAP and have room, the
   * MIDs of these are remembered: of requests that cannot be tagged, for a token of
   * 5 bytes or more or less than 3 bytes of room; of confirmable requests and
   * responses; and of Empty messages.
   */
  ghost predicate Remembered(msg: seq<byte>, maxLen: nat)
    requires |msg| >= 4
  {
    && |msg| <= maxLen && LooksLikeCoap(msg)
    && (|| (1 <= msg[1] <= 31 && (msg[0] % 0x10 >= 5 || maxLen - |msg| < 3))
        || ((1 <= msg[1] <= 31 || 0x40 <= msg[1] <= 0xBF) && msg[0] < 0x50)
        || msg[1] == 0)
  }

  lemma TracksExactly(e: Event)
    requires e.Client? && |e.msg| >= 4
    ensures MidEvent(e) == if Remembered(e.msg, e.maxLen) then [MH.Track(e.port, MidOf(e.msg), e.now)] else []
  {
    HeaderLayout(e.msg);
    hide LooksLikeCoap, Token, Body;
  }

  /** A first message from a client, and the frame of an Empty message from the serial side behind it. */
  lemma FirstThenFrame(defaultPort: uint16, e: Event, ack: seq<byte>) returns (events: seq<Event>)
    requires e.Client? && |e.msg| >= 4 && Enabled(Start(defaultPort), e)
    ensures Run(defaultPort, events).Some? && MidEvents(events) == MidEvent(e)
    ensures var n := Run(defaultPort, events).value;
      n.back == Frame(ack) && n.heard == 0 && n.rx == INITIAL && n.deliveries == []
  {
    hide Enabled, MidEvent, Frame;
    RunOne(defaultPort, [], e);
    assert [] + [e] == [e];
    ClientTouchesNothing(Start(defaultPort), e);
    var noise := Noise(Frame(ack));
    assert Enabled(Run(defaultPort, [e]).value, noise) by { NoiseEnabled(Run(defaultPort, [e]).value, Frame(ack)); }
    RunOne(defaultPort, [e], noise);
    events := [e] + [noise];
    assert events[..1] == [e] && [e][..0] == [];
    NoMidInNoise(Frame(ack));
    assert MidEvents([e]) == [] + MidEvent(e);
    assert MidEvents(events) == MidEvents(events[..1]) + MidEvent(noise);
    assert [] + Frame(ack) == Frame(ack);
  }

  lemma NoiseEnabled(n: Net, bytes: seq<byte>)
    ensures Enabled(n, Noise(bytes))
  {
  }

  lemma NoMidInNoise(bytes: seq<byte>)
    ensures MidEvent(Noise(bytes)) == []
  {
  }

  lemma ClientTouchesNothing(n: Net, e: Event)
    requires e.Client? && Enabled(n, e)
    ensures var next := Step(n, e);
      next.back == n.back && next.heard == n.heard && next.rx == n.rx && next.deliveries == n.deliveries
  {
    hide ToSerial, Frame, SQ.Step, Taggable;
  }

  /**
   * What tracking is for: after a first message from a client, an Empty message with
   * its MID, an acknowledgement or a reset, goes back to the client exactly when the
   * message is one whose MID is remembered, and to the default port otherwise.
   */
  lemma AckRouted(defaultPort: uint16, e: Event, ack: seq<byte>) returns (events: seq<Event>)
    requires e.Client? && |e.msg| >= 4 && Enabled(Start(defaultPort), e)
    requires 4 <= |ack| <= 512 && LooksLikeCoap(ack) && ack[1] == 0 && MidOf(ack) == MidOf(e.msg)
    ensures Run(defaultPort, events).Some? && Arrives(Run(defaultPort, events).value, 0, ack)
    ensures GoesTo(Run(defaultPort, events).value, if Remembered(e.msg, e.maxLen) then e.port else defaultPort, ack)
  {
    var before := FirstThenFrame(defaultPort, e, ack);
    hide Run, Enabled, Frame, LooksLikeCoap, Feed, MidEvent;
    FrameEnds(ack);
    var last := |Frame(ack)| - 1;
    ReadsUpToEnd(defaultPort, before, ack, last);
    events := before + Reads(last);
    ReadsHaveNoMid(before, last);
    var n := Run(defaultPort, events).value;
    assert n.back[0..0 + |Frame(ack)|] == Frame(ack);
    TracksExactly(e);
    var h := MidEvents(events);
    hide MidEvents, MidOf, Remembered, GoesTo, Arrives;
    assert Arrives(n, 0, ack) by { ArrivesAtEnd(n, ack); }
    if Remembered(e.msg, e.maxLen) {
      assert h == [MH.Track(e.port, MidOf(ack), e.now)];
      OneTrack(h, MidOf(ack), e.now);
      UnmarkedGoesToTracked(defaultPort, events, 0, ack, 0, e.now);
    } else {
      NoEvents(h, MidOf(ack));
      UnmarkedGoesToDefault(defaultPort, events, 0, ack);
    }
  }

  lemma ArrivesAtEnd(n: Net, msg: seq<byte>)
    requires 4 <= |msg| <= 512 && LooksLikeCoap(msg) && n.back == Frame(msg) && n.heard == |Frame(msg)| - 1
    ensures Arrives(n, 0, msg)
  {
    hide Frame, LooksLikeCoap;
    assert n.back[0..0 + |Frame(msg)|] == Frame(msg);
  }

  lemma OneTrack(h: seq<MH.Event>, mid: uint16, now: int)
    requires |h| == 1 && h[0].Track? && h[0].mid == mid && h[0].at == now
    ensures YoungTrack(h, mid, 0, now)
  {
  }

  lemma NoEvents(h: seq<MH.Event>, mid: uint16)
    requires h == []
    ensures NoTrack(h, mid)
  {
  }

  lemma NoMidInRead()
    ensures MidEvent(Read) == []
  {
  }

  lemma {:induction false} ReadsHaveNoMid(events: seq<Event>, k: nat)
    ensures MidEvents(events + Reads(k)) == MidEvents(events)
  {
    hide MidEvent;
    if k == 0 {
      assert events + Reads(0) == events;
    } else {
      ReadsHaveNoMid(events, k - 1);
      NoMidInRead();
      var longer := events + Reads(k);
      assert longer[..|longer| - 1] == events + Reads(k - 1);
      assert longer[|longer| - 1] == Read;
    }
  }
}
