/**
 * The whole bridge as one state machine (readme.md:103-108): any number of UDP
 * clients, the port tracker, SLIP framing, the transmit queue, a serial peer
 * that answers requests and may send anything else, and the agent's receiver.
 */
module Routing {
  import opened Bytes
  import opened Slip
  import opened Coap
  import opened Tracker
  import opened Forwarding
  import opened CoapReaders
  import SQ = SerialQueue

  /** A client's request whose frame was queued whole, where the frame starts on the line, and whether it was tagged. */
  datatype Request = Request(port: uint16, msg: seq<byte>, start: nat, tagged: bool)

  /** The peer's response to a request it has heard, and where its frame starts in the peer's output. */
  datatype Answer = Answer(request: nat, msg: seq<byte>, start: nat)

  /** What was sent to the remote host or given to the JAUS bridge, and the position of the byte that completed it. */
  datatype Delivery = Delivery(at: nat, to: Forwarded)

  datatype Net = Net(
    defaultPort: uint16,
    mids: Mids,
    tx: SQ.Queue,
    requests: seq<Request>,
    back: seq<byte>,
    answers: seq<Answer>,
    heard: nat,
    rx: Rx,
    deliveries: seq<Delivery>)

  function Start(defaultPort: uint16): Net {
    Net(defaultPort, map[], SQ.EMPTY, [], [], [], 0, INITIAL, [])
  }

  datatype Event =
    | Client(port: uint16, msg: seq<byte>, maxLen: nat, now: int, region: nat)
    | Written(n: nat, region: nat)
    | WriteError
    | Sweep(now: int)
    | ClearMids(now: int)
    | Answers(request: nat, msg: seq<byte>)
    | Noise(bytes: seq<byte>)
    | Read

  /** What goes on the line for a request: the tagged message, or its own bytes. */
  function OnWire(r: Request): seq<byte>
    requires |r.msg| >= 1 && LooksLikeCoap(r.msg) && (r.tagged ==> GetTokenLength(r.msg) < 5)
  {
    if r.tagged then WithToken(r.msg, TagOf(r.port) + Token(r.msg)) else r.msg
  }

  /** The token that the peer sees. */
  function WireToken(r: Request): seq<byte>
    requires |r.msg| >= 1 && LooksLikeCoap(r.msg)
  {
    if r.tagged then TagOf(r.port) + Token(r.msg) else Token(r.msg)
  }

  ghost predicate IsQueuedRequest(r: Request)
    ensures IsQueuedRequest(r) ==>
      |r.msg| >= 1 && LooksLikeCoap(r.msg) && (r.tagged ==> GetTokenLength(r.msg) < 5)
  {
    && |r.msg| >= 1 && LooksLikeCoap(r.msg) && IsRequest(r.msg) && (r.tagged ==> GetTokenLength(r.msg) < 5)
    && Fits(OnWire(r), UNIT)
  }

  ghost predicate FrameAt(s: seq<byte>, start: nat, m: seq<byte>) {
    start + |Frame(m)| <= |s| && s[start..start + |Frame(m)|] == Frame(m)
  }

  /** The message the peer's receiver is handed when the frame of request i ends. */
  ghost function PeerHears(n: Net, i: nat): seq<seq<byte>>
    requires i < |n.requests| && IsQueuedRequest(n.requests[i])
    requires n.requests[i].start + |Frame(OnWire(n.requests[i]))| <= |n.tx.confirmed|
  {
    FrameEnds(OnWire(n.requests[i]));
    DeliveredAt(n.tx.confirmed, n.requests[i].start + |Frame(OnWire(n.requests[i]))| - 1, UNIT)
  }

  lemma FrameEnds(m: seq<byte>)
    ensures |Frame(m)| >= 2
  {
  }

  ghost predicate Enabled(n: Net, e: Event) {
    match e
    case Client(port, msg, maxLen, now, region) =>
      && |msg| >= 1
      && var r := ToSerial(n.mids, port, msg, maxLen, now);
         r.Ok? ==> SQ.Enabled(n.tx, SQ.Send(r.value.bytes, region))
    case Written(k, region) => SQ.Enabled(n.tx, SQ.Complete(k, region))
    case WriteError => SQ.Enabled(n.tx, SQ.Fail)
    case Answers(i, msg) =>
      // the peer has heard request i and repeats the token of the message it heard
      && i < |n.requests| && IsQueuedRequest(n.requests[i])
      && n.requests[i].start + |Frame(OnWire(n.requests[i]))| <= |n.tx.confirmed|
      && |msg| >= 1 && LooksLikeCoap(msg) && IsResponse(msg) && |msg| <= UNIT
      && (forall m :: m in PeerHears(n, i) ==> |m| >= 1 && LooksLikeCoap(m) && Token(msg) == Token(m))
    case Read => n.heard < |n.back|
    case _ => true
  }

  function ClientStep(n: Net, port: uint16, msg: seq<byte>, maxLen: nat, now: int, region: nat): Net
    requires |msg| >= 1
  {
    match ToSerial(n.mids, port, msg, maxLen, now)
    case Err(_) => n
    case Ok(out) =>
      var whole := SQ.Queues(n.tx, out.bytes) && |Frame(out.bytes)| <= SQ.Free(n.tx);
      n.(mids := out.mids,
         tx := SQ.Step(n.tx, SQ.Send(out.bytes, region)),
         requests := if whole && IsRequest(msg)
                     then n.requests + [Request(port, msg, |n.tx.accepted|, Taggable(msg, maxLen))] else n.requests)
  }

  function ReadStep(n: Net): Net
    requires n.heard < |n.back|
  {
    var step := ReadByte(n.rx, n.back[n.heard], UNIT);
    var next := n.(rx := step.rx, heard := n.heard + 1);
    if step.delivered == [] || step.delivered[0] == [] then next
    else
      var to := Forward(ToUdp(n.mids, n.defaultPort, step.delivered[0]));
      if to.Dropped? then next else next.(deliveries := n.deliveries + [Delivery(n.heard, to)])
  }

  ghost function Step(n: Net, e: Event): Net
    requires Enabled(n, e)
  {
    match e
    case Client(port, msg, maxLen, now, region) => ClientStep(n, port, msg, maxLen, now, region)
    case Written(k, region) => n.(tx := SQ.Step(n.tx, SQ.Complete(k, region)))
    case WriteError => n.(tx := SQ.Step(n.tx, SQ.Fail))
    case Sweep(now) => n.(mids := Swept(n.mids, now))
    case ClearMids(_) => n.(mids := map[])
    case Answers(i, msg) => n.(back := n.back + Frame(msg), answers := n.answers + [Answer(i, msg, |n.back|)])
    case Noise(bytes) => n.(back := n.back + bytes)
    case Read => ReadStep(n)
  }

  /** The state after a run; None if some event was not possible. */
  ghost function Run(defaultPort: uint16, events: seq<Event>): Option<Net> {
    if events == [] then Some(Start(defaultPort))
    else
      match Run(defaultPort, events[..|events| - 1])
      case None => None
      case Some(n) =>
        var e := events[|events| - 1];
        if Enabled(n, e) then Some(Step(n, e)) else None
  }

  // -------------------------------------------------------------- invariants

  ghost predicate RequestsOnLine(n: Net) {
    forall i :: 0 <= i < |n.requests| ==>
      IsQueuedRequest(n.requests[i]) && FrameAt(n.tx.accepted, n.requests[i].start, OnWire(n.requests[i]))
  }

  ghost predicate IsAnswerTo(a: Answer, r: Request) {
    && |a.msg| >= 1 && LooksLikeCoap(a.msg) && IsResponse(a.msg) && Fits(a.msg, UNIT)
    && |r.msg| >= 1 && LooksLikeCoap(r.msg)
    && Token(a.msg) == WireToken(r)
  }

  /** The answer is to a tagged request. */
  ghost predicate ToTagged(n: Net, a: Answer) {
    a.request < |n.requests| && n.requests[a.request].tagged
  }

  ghost predicate AnswersInOutput(n: Net) {
    forall j :: 0 <= j < |n.answers| ==>
      && n.answers[j].request < |n.requests|
      && IsAnswerTo(n.answers[j], n.requests[n.answers[j].request])
      && FrameAt(n.back, n.answers[j].start, n.answers[j].msg)
  }

  ghost predicate ReceiverInStep(n: Net) {
    n.heard <= |n.back| && n.rx == Feed(INITIAL, n.back[..n.heard], UNIT).rx
  }

  /** Where an answer's frame ends in the peer's output. */
  ghost function EndOf(a: Answer): nat {
    FrameEnds(a.msg);
    a.start + |Frame(a.msg)| - 1
  }

  /**
   * What must become of answer a to a tagged request r: the answer for the client's
   * port, or its payload for the JAUS side.
   */
  ghost function Due(a: Answer, r: Request): Delivery
    requires IsAnswerTo(a, r)
  {
    Delivery(EndOf(a), if IsJausPort(r.port) then ToJaus(r.port, SkipToPayload(Body(a.msg)))
                       else ToRemote(r.port, WithToken(a.msg, Token(r.msg))))
  }

  ghost predicate AnswersDelivered(n: Net)
    requires AnswersInOutput(n)
  {
    forall j :: 0 <= j < |n.answers| && EndOf(n.answers[j]) < n.heard && ToTagged(n, n.answers[j]) ==>
      Due(n.answers[j], n.requests[n.answers[j].request]) in n.deliveries
  }

  ghost predicate DeliveriesInOrder(n: Net) {
    && (forall d :: 0 <= d < |n.deliveries| ==> n.deliveries[d].at < n.heard)
    && (forall c, d :: 0 <= c < d < |n.deliveries| ==> n.deliveries[c].at < n.deliveries[d].at)
  }

  ghost predicate LineSide(n: Net) {
    SQ.Conserved(n.tx) && RequestsOnLine(n)
  }

  ghost predicate PeerSide(n: Net) {
    AnswersInOutput(n) && ReceiverInStep(n) && AnswersDelivered(n) && DeliveriesInOrder(n)
  }

  ghost predicate Inv(n: Net) {
    LineSide(n) && PeerSide(n)
  }

  lemma FrameAtExtends(s: seq<byte>, more: seq<byte>, start: nat, m: seq<byte>)
    ensures FrameAt(s, start, m) ==> FrameAt(s + more, start, m)
    ensures FrameAt(s + Frame(m) + more, |s|, m)
  {
    hide Frame;
    if FrameAt(s, start, m) {
      assert (s + more)[start..start + |Frame(m)|] == s[start..start + |Frame(m)|];
    }
  }

  /** Once request i is entirely on the line the peer hears it exactly as it was queued: tagged, or unchanged. */
  lemma PeerHearsRequest(n: Net, i: nat)
    requires LineSide(n) && i < |n.requests|
    requires n.requests[i].start + |Frame(OnWire(n.requests[i]))| <= |n.tx.confirmed|
    ensures PeerHears(n, i) == [OnWire(n.requests[i])]
  {
    hide Frame, DeliveredAt, WithToken;
    var m, start := OnWire(n.requests[i]), n.requests[i].start;
    assert n.tx.accepted == n.tx.confirmed + n.tx.contents;
    assert n.tx.confirmed[start..start + |Frame(m)|] == n.tx.accepted[start..start + |Frame(m)|];
    FrameDeliveredInStream(n.tx.confirmed, start, m, UNIT);
  }

  // ------------------------------------------------------ the transmit side

  /** Queueing more, with no new request, keeps every request's frame in place. */
  lemma LineGrows(n: Net, tx: SQ.Queue)
    requires LineSide(n) && SQ.Conserved(tx) && n.tx.accepted <= tx.accepted
    ensures LineSide(n.(tx := tx))
  {
    hide Frame, OnWire, IsQueuedRequest;
    var more := tx.accepted[|n.tx.accepted|..];
    assert tx.accepted == n.tx.accepted + more;
    forall i | 0 <= i < |n.requests|
      ensures IsQueuedRequest(n.requests[i]) && FrameAt(tx.accepted, n.requests[i].start, OnWire(n.requests[i]))
    {
      FrameAtExtends(n.tx.accepted, more, n.requests[i].start, OnWire(n.requests[i]));
    }
  }

  lemma SendGrows(tx: SQ.Queue, bytes: seq<byte>, region: nat)
    requires SQ.Conserved(tx) && SQ.Enabled(tx, SQ.Send(bytes, region))
    ensures var after := SQ.Step(tx, SQ.Send(bytes, region));
      && SQ.Conserved(after) && tx.accepted <= after.accepted
      && (SQ.Queues(tx, bytes) && |Frame(bytes)| <= SQ.Free(tx) ==> after.accepted == tx.accepted + Frame(bytes))
  {
    hide Frame;
    SQ.StepConserves(tx, SQ.Send(bytes, region));
    if SQ.Queues(tx, bytes) {
      SQ.WholeFrameQueued(tx, bytes, region);
    }
  }

  lemma RequestAdded(n: Net, r: Request, tx: SQ.Queue)
    requires LineSide(n) && SQ.Conserved(tx) && IsQueuedRequest(r)
    requires r.start == |n.tx.accepted| && tx.accepted == n.tx.accepted + Frame(OnWire(r))
    ensures LineSide(n.(tx := tx, requests := n.requests + [r]))
  {
    LineGrows(n, tx);
    hide Frame, OnWire, IsQueuedRequest;
    FrameAtExtends(n.tx.accepted, [], 0, OnWire(r));
    assert n.tx.accepted + Frame(OnWire(r)) + [] == tx.accepted;
  }

  lemma QueuedWhole(r: Request)
    requires |r.msg| >= 1 && LooksLikeCoap(r.msg) && IsRequest(r.msg) && (r.tagged ==> GetTokenLength(r.msg) < 5)
    requires |Frame(OnWire(r))| <= UNIT
    ensures IsQueuedRequest(r)
  {
    FrameShape(OnWire(r));
    if r.tagged {
      WithTokenKeeps(r.msg, TagOf(r.port) + Token(r.msg));
    }
    hide Frame, Specials, WithToken, TagOf;
  }

  lemma WireTokenIs(r: Request)
    requires IsQueuedRequest(r)
    ensures LooksLikeCoap(OnWire(r)) && Token(OnWire(r)) == WireToken(r)
  {
    hide WithToken, MarkerByte;
    if r.tagged {
      WithTokenKeeps(r.msg, TagOf(r.port) + Token(r.msg));
    }
  }

  lemma ClientKeepsLine(n: Net, e: Event)
    requires LineSide(n) && e.Client? && Enabled(n, e)
    ensures LineSide(Step(n, e))
  {
    hide Frame, WithToken, TagOf, RequestsOnLine;
    var r := ToSerial(n.mids, e.port, e.msg, e.maxLen, e.now);
    if r.Ok? {
      var bytes := r.value.bytes;
      var tx := SQ.Step(n.tx, SQ.Send(bytes, e.region));
      SendGrows(n.tx, bytes, e.region);
      var whole := SQ.Queues(n.tx, bytes) && |Frame(bytes)| <= SQ.Free(n.tx);
      if whole && IsRequest(e.msg) {
        var request := Request(e.port, e.msg, |n.tx.accepted|, Taggable(e.msg, e.maxLen));
        assert bytes == OnWire(request);
        QueuedWhole(request);
        RequestAdded(n, request, tx);
        SameLine(n.(tx := tx, requests := n.requests + [request]), Step(n, e));
      } else {
        LineGrows(n, tx);
        SameLine(n.(tx := tx), Step(n, e));
      }
    }
  }

  lemma SameLine(n: Net, n': Net)
    requires LineSide(n) && n'.tx == n.tx && n'.requests == n.requests
    ensures LineSide(n')
  {
    hide FrameAt, IsQueuedRequest, OnWire;
  }

  lemma WriteKeepsLine(n: Net, e: Event)
    requires LineSide(n) && (e.Written? || e.WriteError?) && Enabled(n, e)
    ensures LineSide(Step(n, e))
  {
    var q := if e.Written? then SQ.Complete(e.n, e.region) else SQ.Fail;
    SQ.StepConserves(n.tx, q);
    LineGrows(n, SQ.Step(n.tx, q));
  }

  // --------------------------------------------------------- the receive side

  lemma PeerSideStays(n: Net, n': Net)
    requires PeerSide(n) && n.requests <= n'.requests
    requires n'.back == n.back && n'.answers == n.answers
    requires n'.heard == n.heard && n'.rx == n.rx && n'.deliveries == n.deliveries
    ensures PeerSide(n')
  {
    hide IsAnswerTo, FrameAt, Due, EndOf, Feed;
    forall j | 0 <= j < |n.answers|
      ensures n'.requests[n.answers[j].request] == n.requests[n.answers[j].request]
    {
    }
  }

  /** More output from the peer moves nothing that was already there. */
  lemma OutputGrows(n: Net, more: seq<byte>)
    requires PeerSide(n)
    ensures PeerSide(n.(back := n.back + more))
  {
    hide IsAnswerTo, Due, EndOf, Feed, FrameAt;
    forall j | 0 <= j < |n.answers|
      ensures FrameAt(n.back + more, n.answers[j].start, n.answers[j].msg)
    {
      FrameAtExtends(n.back, more, n.answers[j].start, n.answers[j].msg);
    }
    assert (n.back + more)[..n.heard] == n.back[..n.heard];
  }

  lemma AnswerMatches(a: Answer, r: Request)
    requires IsQueuedRequest(r)
    requires |a.msg| >= 1 && LooksLikeCoap(a.msg) && IsResponse(a.msg) && |a.msg| <= UNIT
    requires |OnWire(r)| >= 1 && LooksLikeCoap(OnWire(r)) && Token(a.msg) == Token(OnWire(r))
    ensures IsAnswerTo(a, r)
  {
    WireTokenIs(r);
    hide OnWire, WireToken;
  }

  lemma AnswerAdded(n: Net, e: Event)
    requires Inv(n) && e.Answers? && Enabled(n, e)
    ensures PeerSide(Step(n, e))
  {
    var i, msg := e.request, e.msg;
    var a := Answer(i, msg, |n.back|);
    PeerHearsRequest(n, i);
    assert OnWire(n.requests[i]) in PeerHears(n, i);
    AnswerMatches(a, n.requests[i]);
    hide Inv, LineSide, PeerSide, FrameAt, PeerHears, Frame, OnWire, IsAnswerTo, IsQueuedRequest;
    OutputGrows(n, Frame(msg));
    FrameAtExtends(n.back, [], 0, msg);
    assert n.back + Frame(msg) + [] == n.back + Frame(msg);
    NewAnswer(n.(back := n.back + Frame(msg)), a);
  }

  /** An answer that lies wholly in the output not yet heard can be added to the log. */
  lemma NewAnswer(n: Net, a: Answer)
    requires PeerSide(n) && n.heard <= a.start
    requires a.request < |n.requests| && IsAnswerTo(a, n.requests[a.request]) && FrameAt(n.back, a.start, a.msg)
    ensures PeerSide(n.(answers := n.answers + [a]))
  {
    hide IsAnswerTo, Due, Feed, FrameAt, Frame;
    FrameEnds(a.msg);
  }

  lemma AnswerForwarded(n: Net, a: Answer, r: Request)
    requires IsAnswerTo(a, r) && r.tagged
    ensures Delivery(EndOf(a), Forward(ToUdp(n.mids, n.defaultPort, a.msg))) == Due(a, r)
  {
    hide EndOf, Forward, ToUdp, SkipToPayload, WithToken, MarkerByte, IsJausPort;
    TaggedResponseForwarded(n.mids, n.defaultPort, r.port, Token(r.msg), a.msg);
  }

  /** The closing END of any frame in the peer's output hands on its message. */
  lemma FrameHandedOn(n: Net, start: nat, m: seq<byte>)
    requires ReceiverInStep(n) && n.heard < |n.back|
    requires Fits(m, UNIT) && FrameAt(n.back, start, m) && start + |Frame(m)| - 1 == n.heard
    ensures ReadByte(n.rx, n.back[n.heard], UNIT).delivered == [m]
  {
    hide Frame, Feed, ReadByte, Fits;
    FrameDeliveredInStream(n.back, start, m, UNIT);
  }

  /** What the closing END of a frame in the peer's output sends out. */
  lemma FrameForwarded(n: Net, start: nat, m: seq<byte>)
    requires ReceiverInStep(n) && n.heard < |n.back| && |m| >= 1
    requires Fits(m, UNIT) && FrameAt(n.back, start, m) && start + |Frame(m)| - 1 == n.heard
    ensures var to := Forward(ToUdp(n.mids, n.defaultPort, m));
      && ReadStep(n).deliveries == n.deliveries + (if to.Dropped? then [] else [Delivery(n.heard, to)])
      && ReadStep(n) == n.(rx := ReadStep(n).rx, heard := n.heard + 1, deliveries := ReadStep(n).deliveries)
  {
    FrameHandedOn(n, start, m);
    hide Frame, ReadByte, Forward, ToUdp, FrameAt, ReceiverInStep;
  }

  /**
   * At the end of an answer's frame the agent has the answer, and the tracker finds
   * its port in whatever state it is.
   */
  lemma AnswerArrives(n: Net, j: nat)
    requires PeerSide(n) && j < |n.answers| && n.heard < |n.back|
    requires EndOf(n.answers[j]) == n.heard && ToTagged(n, n.answers[j])
    ensures var a := n.answers[j];
      && ReadByte(n.rx, n.back[n.heard], UNIT).delivered == [a.msg]
      && IsAnswerTo(a, n.requests[a.request])
      && Delivery(n.heard, Forward(ToUdp(n.mids, n.defaultPort, a.msg))) == Due(a, n.requests[a.request])
  {
    var a := n.answers[j];
    assert IsAnswerTo(a, n.requests[a.request]) && FrameAt(n.back, a.start, a.msg);
    hide Feed, ReadByte, Frame, Forward, ToUdp, Due, FrameAt, AnswersInOutput, AnswersDelivered, DeliveriesInOrder;
    AnswerForwarded(n, a, n.requests[a.request]);
    FrameHandedOn(n, a.start, a.msg);
  }

  lemma ReadKeepsReceiver(n: Net)
    requires ReceiverInStep(n) && n.heard < |n.back|
    ensures ReceiverInStep(ReadStep(n))
  {
    hide ReadByte, ToUdp, Forward;
    var heard := n.back[..n.heard + 1];
    assert heard[..n.heard] == n.back[..n.heard] && heard[n.heard] == n.back[n.heard];
  }

  lemma ReadKeepsAnswers(n: Net)
    requires PeerSide(n) && n.heard < |n.back|
    ensures AnswersInOutput(ReadStep(n)) && AnswersDelivered(ReadStep(n)) && DeliveriesInOrder(ReadStep(n))
  {
    var next := ReadStep(n);
    hide IsAnswerTo, FrameAt, ToUdp, Forward, ReadByte, Feed;
    assert n.deliveries <= next.deliveries;
    forall j | 0 <= j < |n.answers| && EndOf(n.answers[j]) < next.heard && ToTagged(n, n.answers[j])
      ensures Due(n.answers[j], n.requests[n.answers[j].request]) in next.deliveries
    {
      var a, r := n.answers[j], n.requests[n.answers[j].request];
      if EndOf(a) == n.heard {
        AnswerArrives(n, j);
        assert IsAnswerTo(a, r) && |a.msg| >= 1;
        assert next.deliveries == n.deliveries + [Due(a, r)];
      } else {
        assert Due(a, r) in n.deliveries;
      }
    }
  }

  lemma StepKeeps(n: Net, e: Event)
    requires Inv(n) && Enabled(n, e)
    ensures Inv(Step(n, e))
  {
    var next := Step(n, e);
    match e
    case Client(_, _, _, _, _) =>
      ClientKeepsLine(n, e);
      PeerSideStays(n, next);
    case Written(_, _) =>
      WriteKeepsLine(n, e);
      PeerSideStays(n, next);
    case WriteError =>
      WriteKeepsLine(n, e);
      PeerSideStays(n, next);
    case Sweep(_) =>
      SameLine(n, next);
      PeerSideStays(n, next);
    case ClearMids(_) =>
      SameLine(n, next);
      PeerSideStays(n, next);
    case Answers(_, _) =>
      SameLine(n, next);
      AnswerAdded(n, e);
    case Noise(bytes) =>
      SameLine(n, next);
      OutputGrows(n, bytes);
    case Read =>
      SameLine(n, next);
      ReadKeepsReceiver(n);
      ReadKeepsAnswers(n);
  }

  lemma {:induction false} RunKeeps(defaultPort: uint16, events: seq<Event>)
    ensures Run(defaultPort, events).Some? ==> Inv(Run(defaultPort, events).value)
  {
    hide Inv, Enabled, Step;
    if events == [] {
      StartIsFine(defaultPort);
    } else {
      var init, e := events[..|events| - 1], events[|events| - 1];
      RunKeeps(defaultPort, init);
      var before := Run(defaultPort, init);
      if before.Some? && Enabled(before.value, e) {
        StepKeeps(before.value, e);
      }
    }
  }

  lemma StartIsFine(defaultPort: uint16)
    ensures Inv(Start(defaultPort))
  {
  }

  lemma DueIs(a: Answer, r: Request)
    requires IsAnswerTo(a, r)
    ensures Due(a, r).at == EndOf(a)
    ensures Due(a, r).to == ToRemote(r.port, WithToken(a.msg, Token(r.msg))) <==> !IsJausPort(r.port)
    ensures Due(a, r).to == ToJaus(r.port, SkipToPayload(Body(a.msg))) <==> IsJausPort(r.port)
  {
    hide EndOf, WithToken, SkipToPayload, IsJausPort;
  }

  /** Exactly one message went out for the byte at this position. */
  ghost predicate OnlyOneAt(deliveries: seq<Delivery>, at: nat) {
    exists d :: 0 <= d < |deliveries| && IsOnlyAt(deliveries, at, d)
  }

  ghost predicate IsOnlyAt(deliveries: seq<Delivery>, at: nat, d: nat)
    requires d < |deliveries|
  {
    deliveries[d].at == at && forall c :: 0 <= c < |deliveries| && c != d ==> deliveries[c].at != at
  }

  lemma InOrderIsUnique(n: Net, due: Delivery)
    requires DeliveriesInOrder(n) && due in n.deliveries
    ensures OnlyOneAt(n.deliveries, due.at)
    ensures forall other :: other in n.deliveries && other.at == due.at ==> other == due
  {
    var ds := n.deliveries;
    var d :| 0 <= d < |ds| && ds[d] == due;
    forall c | 0 <= c < |ds| && c != d ensures ds[c].at != due.at {
      assert if c < d then ds[c].at < ds[d].at else ds[d].at < ds[c].at;
    }
    hide DeliveriesInOrder;
    assert IsOnlyAt(ds, due.at, d);
  }

  /**
   * End-to-end routing. Over every interleaving of clients, writes, write
   * errors, sweeps, clears, answers and noise: once the agent has read the frame
   * of an answer to a tagged request, exactly one message has gone out for it. It is the answer with
   * the client's own token in place of the tagged one and nothing else changed,
   * sent to the port of the client whose request was answered, if and only if
   * that port is outside the JAUS range; within it the JAUS side gets the payload
   * and the remote host gets nothing.
   */
  lemma EndToEnd(defaultPort: uint16, events: seq<Event>, j: nat)
    requires Run(defaultPort, events).Some?
    requires var n := Run(defaultPort, events).value;
      j < |n.answers| && EndOf(n.answers[j]) < n.heard && ToTagged(n, n.answers[j])
    ensures var n := Run(defaultPort, events).value;
      var a := n.answers[j];
      && a.request < |n.requests|
      && var r := n.requests[a.request];
      && IsAnswerTo(a, r)
      && (Delivery(EndOf(a), ToRemote(r.port, WithToken(a.msg, Token(r.msg)))) in n.deliveries <==> !IsJausPort(r.port))
      && (Delivery(EndOf(a), ToJaus(r.port, SkipToPayload(Body(a.msg)))) in n.deliveries <==> IsJausPort(r.port))
      && OnlyOneAt(n.deliveries, EndOf(a))
  {
    hide Run, IsAnswerTo, Due, EndOf, FrameAt, OnlyOneAt, DeliveriesInOrder, WithToken, SkipToPayload, Body, IsJausPort;
    RunKeeps(defaultPort, events);
    var n := Run(defaultPort, events).value;
    var a := n.answers[j];
    var r := n.requests[a.request];
    DueIs(a, r);
    InOrderIsUnique(n, Due(a, r));
  }

  /**
   * In every reachable state a request whose frame is entirely on the line has been
   * heard by the peer, tagged or, if it could not be tagged, unchanged; so it can be answered.
   */
  lemma RequestsAreHeard(defaultPort: uint16, events: seq<Event>, i: nat)
    requires Run(defaultPort, events).Some?
    requires var n := Run(defaultPort, events).value;
      && i < |n.requests| && IsQueuedRequest(n.requests[i])
      && n.requests[i].start + |Frame(OnWire(n.requests[i]))| <= |n.tx.confirmed|
    ensures var n := Run(defaultPort, events).value;
      var r := n.requests[i];
      PeerHears(n, i) == [if r.tagged then WithToken(r.msg, TagOf(r.port) + Token(r.msg)) else r.msg]
  {
    hide Run, PeerHears, Frame, WithToken;
    RunKeeps(defaultPort, events);
    PeerHearsRequest(Run(defaultPort, events).value, i);
  }

  /**
   * A request with a token of at most 4 bytes, room for 3 more and a frame that
   * fits the free space is tagged, framed and queued whole, whatever the state.
   */
  lemma EligibleRequestQueued(n: Net, port: uint16, msg: seq<byte>, maxLen: nat, now: int, region: nat)
    requires Inv(n) && |msg| >= 1 && LooksLikeCoap(msg) && IsRequest(msg)
    requires GetTokenLength(msg) <= 4 && |msg| + 3 <= maxLen
    requires var tagged := WithToken(msg, TagOf(port) + Token(msg));
      |tagged| <= SQ.Free(n.tx) && |Frame(tagged)| <= SQ.Free(n.tx)
    requires Enabled(n, Client(port, msg, maxLen, now, region))
    ensures var next := Step(n, Client(port, msg, maxLen, now, region));
      var tagged := WithToken(msg, TagOf(port) + Token(msg));
      && next.requests == n.requests + [Request(port, msg, |n.tx.accepted|, true)]
      && next.tx.accepted == n.tx.accepted + Frame(tagged)
  {
    hide Frame, MarkerByte;
    var tagged := WithToken(msg, TagOf(port) + Token(msg));
    WithTokenKeeps(msg, TagOf(port) + Token(msg));
    SendGrows(n.tx, tagged, region);
  }
}
