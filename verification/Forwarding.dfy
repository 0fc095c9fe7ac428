/** Where src/uartCoapBridge.cpp sends a message that came in from the serial port. */
module Forwarding {
  import opened Bytes
  import opened Coap
  import opened CoapReaders
  import opened Tracker

  /** JausPort::START and JausPort::END. */
  const JAUS_START: uint16 := 900
  const JAUS_END: uint16 := 945

  predicate IsJausPort(port: uint16) {
    JAUS_START < port < JAUS_END
  }

  /** A datagram for the remote host, a payload for the JAUS bridge, or nothing. */
  datatype Forwarded =
    | ToRemote(port: uint16, bytes: seq<byte>)
    | ToJaus(port: uint16, payload: seq<byte>)
    | Dropped

  /** serialDataReceived, given what the tracker made of the message. */
  function Forward(r: Result<Inbound, TrackerError>): Forwarded {
    match r
    case Err(_) => Dropped
    case Ok(to) =>
      if IsJausPort(to.port) then
        ToJaus(to.port, if to.bytes != [] && LooksLikeCoap(to.bytes) then SkipToPayload(Body(to.bytes)) else [])
      else ToRemote(to.port, to.bytes)
  }

  lemma ForwardedIsCoap(mids: Mids, defaultPort: uint16, msg: seq<byte>)
    requires msg != [] && ToUdp(mids, defaultPort, msg).Ok?
    ensures var out := ToUdp(mids, defaultPort, msg).value.bytes; out != [] && LooksLikeCoap(out)
  {
    hide MarkerByte;
    if IsResponse(msg) && HasTag(Token(msg)) {
      WithTokenKeeps(msg, Token(msg)[3..]);
    }
  }

  lemma ForwardedToRemote(r: Result<Inbound, TrackerError>, port: uint16, bytes: seq<byte>)
    ensures Forward(r) == ToRemote(port, bytes) <==> r == Ok(Inbound(port, bytes)) && !IsJausPort(port)
  {
    hide SkipToPayload, IsJausPort;
  }

  /**
   * What becomes of a response with a tagged token, whatever the MID map holds:
   * the remote host gets it on the tag's port, with the original token; on a port
   * of the JAUS range the JAUS side gets the bytes behind the marker and the
   * remote host nothing.
   */
  lemma TaggedResponseForwarded(mids: Mids, defaultPort: uint16, port: uint16, token: seq<byte>, response: seq<byte>)
    requires |response| >= 1 && LooksLikeCoap(response) && IsResponse(response)
    requires Token(response) == TagOf(port) + token
    ensures Forward(ToUdp(mids, defaultPort, response))
         == if IsJausPort(port) then ToJaus(port, SkipToPayload(Body(response)))
            else ToRemote(port, WithToken(response, token))
  {
    hide MarkerByte, SkipToPayload, WithToken;
    TaggedResponseRouted(mids, defaultPort, port, token, response);
  }

  /**
   * A reply to one of the agent's own requests reaches the JAUS side with the
   * payload that the RFC 7252 decoder sees exactly when skipping its option bytes
   * by the low nibble stops at the marker; short option steps are enough.
   */
  lemma JausReplyPayload(mids: Mids, defaultPort: uint16, port: uint16, token: seq<byte>, response: seq<byte>)
    requires IsJausPort(port)
    requires |response| >= 1 && LooksLikeCoap(response) && IsResponse(response)
    requires Token(response) == TagOf(port) + token
    requires Decode(response).Ok?
    ensures var c := Decode(response).value.content;
      && (Forward(ToUdp(mids, defaultPort, response)) == ToJaus(port, c.payload)
          <==> StopsAtPayload(Body(response), c.payload))
      && (ShortSteps(c.options, 0, 12) ==> StopsAtPayload(Body(response), c.payload))
  {
    hide MarkerByte, DecodeContent, SkipToPayload, WithToken, StopsAtPayload;
    TaggedResponseForwarded(mids, defaultPort, port, token, response);
    ReplyAgreesExactly(response);
    if ShortSteps(Decode(response).value.content.options, 0, 12) {
      ReplyAgrees(response);
    }
  }
}
