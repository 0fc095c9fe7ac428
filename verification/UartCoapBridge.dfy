/** How src/uartCoapBridge.cpp puts the tracker, the serial handler and the reply reader together. */
module UartCoapBridge {
  import opened Bytes
  import opened Slip
  import opened Coap
  import opened CoapReaders
  import opened Tracker
  import opened CoapPortTracker
  import opened Forwarding
  import opened SerialHandler
  import SQ = SerialQueue

  class Bridge {
    const coapPorts: PortTracker
    const serial: Handler

    constructor (remotePort: uint16)
      ensures serial.Valid() && serial.Value() == SQ.EMPTY && serial.state == OPERATIONAL
      ensures coapPorts.mids == map[] && coapPorts.defaultPort == remotePort
    {
      coapPorts := new PortTracker(remotePort);
      serial := new Handler();
    }

    /** The bytes of data in the first part of a fresh buffer. */
    method CopyIn(data: seq<byte>, size: nat) returns (buffer: array<byte>)
      requires |data| <= size
      ensures fresh(buffer) && buffer.Length == size && buffer[..|data|] == data
    {
      buffer := new byte[size](i => 0);
      for i := 0 to |data|
        invariant buffer[..i] == data[..i]
      {
        buffer[i] := data[i];
      }
      assert data[..|data|] == data;
    }

    /**
     * Tracks a message for its client and queues it for the serial port; None where
     * its frame overruns the command buffer.
     */
    method TrackAndSend(port: uint16, msg: seq<byte>, maxLen: nat, now: int) returns (ok: Option<bool>)
      requires msg != [] && |msg| <= maxLen && serial.Valid()
      modifies coapPorts, serial, serial.writeBuffer, serial.writeBuffer.store
      ensures serial.Valid() && serial.state == old(serial.state)
      ensures match old(ToSerial(coapPorts.mids, port, msg, maxLen, now))
              case Err(_) =>
                && ok == Some(false)
                && coapPorts.mids == old(coapPorts.mids) && serial.Value() == old(serial.Value())
              case Ok(out) =>
                && coapPorts.mids == out.mids
                && (ok.None? <==> serial.state == OPERATIONAL && SQ.Overruns(old(serial.Value()), out.bytes))
                && (ok.Some? ==>
                      ok.value == (serial.state == OPERATIONAL && !SQ.Refused(old(serial.Value()), out.bytes)))
                && (serial.state != OPERATIONAL || ok.None? ==> serial.Value() == old(serial.Value()))
                && (serial.state == OPERATIONAL && ok.Some? ==>
                      && SQ.Enabled(old(serial.Value()), SQ.Send(out.bytes, serial.region))
                      && serial.Value() == SQ.Step(old(serial.Value()), SQ.Send(out.bytes, serial.region)))
    {
      var buffer := CopyIn(msg, maxLen);
      hide Frame, MarkerByte, WithToken;
      var r := coapPorts.UdpToSerial(port, buffer, |msg|, maxLen, now);
      match r {
        case Err(_) =>
          ok := Some(false);
        case Ok(len) =>
          ok := serial.AsyncSendMessageToSerialPort(buffer[..len]);
      }
    }

    /** A datagram of at most UNIT bytes from the remote host; the buffer has room for a tag. */
    method ReceiveFromRemote(port: uint16, datagram: seq<byte>, now: int) returns (ok: Option<bool>)
      requires 1 <= |datagram| <= UNIT && serial.Valid()
      modifies coapPorts, serial, serial.writeBuffer, serial.writeBuffer.store
      ensures serial.Valid() && serial.state == old(serial.state)
      ensures match old(ToSerial(coapPorts.mids, port, datagram, UNIT + 3, now))
              case Err(_) =>
                && ok == Some(false)
                && coapPorts.mids == old(coapPorts.mids) && serial.Value() == old(serial.Value())
              case Ok(out) =>
                && coapPorts.mids == out.mids
                && (ok.None? <==> serial.state == OPERATIONAL && SQ.Overruns(old(serial.Value()), out.bytes))
                && (serial.state != OPERATIONAL || ok.None? ==> serial.Value() == old(serial.Value()))
                && (serial.state == OPERATIONAL && ok.Some? ==>
                      serial.Value() == SQ.Step(old(serial.Value()), SQ.Send(out.bytes, serial.region)))
    {
      ok := TrackAndSend(port, datagram, UNIT + 3, now);
    }

    /** A request of the agent itself, under a JAUS pseudo-port. */
    method SendSRCRequest(coapMsg: seq<byte>, port: uint16, now: int) returns (ok: Option<bool>)
      requires coapMsg != [] && serial.Valid()
      modifies coapPorts, serial, serial.writeBuffer, serial.writeBuffer.store
      ensures serial.Valid() && serial.state == old(serial.state)
      ensures match old(ToSerial(coapPorts.mids, port, coapMsg, |coapMsg| + 3, now))
              case Err(_) =>
                && ok == Some(false)
                && coapPorts.mids == old(coapPorts.mids) && serial.Value() == old(serial.Value())
              case Ok(out) =>
                && coapPorts.mids == out.mids
                && (ok.None? <==> serial.state == OPERATIONAL && SQ.Overruns(old(serial.Value()), out.bytes))
                && (serial.state != OPERATIONAL || ok.None? ==> serial.Value() == old(serial.Value()))
                && (serial.state == OPERATIONAL && ok.Some? ==>
                      serial.Value() == SQ.Step(old(serial.Value()), SQ.Send(out.bytes, serial.region)))
    {
      ok := TrackAndSend(port, coapMsg, |coapMsg| + 3, now);
    }

    /** A message completed by the SLIP receiver. */
    method SerialDataReceived(message: seq<byte>) returns (f: Forwarded)
      ensures message == [] ==> f == Dropped
      ensures message != [] ==> f == Forward(ToUdp(coapPorts.mids, coapPorts.defaultPort, message))
    {
      if message == [] {
        return Dropped;
      }
      var data := CopyIn(message, |message| + 3);
      hide MarkerByte, WithToken, SkipToPayload;
      var r := coapPorts.SerialToUdp(data, |message|);
      match r {
        case Err(_) =>
          f := Dropped;
        case Ok((port, len)) =>
          if JAUS_START < port < JAUS_END {
            ForwardedIsCoap(coapPorts.mids, coapPorts.defaultPort, message);
            var reply := ParseObserveReply(data[..len]);
            f := ToJaus(port, reply.payload);
          } else {
            f := ToRemote(port, data[..len]);
          }
      }
    }
  }

  /** The URI path and the payload are read from a tagged request exactly as from the client's own. */
  lemma TaggingKeepsPathAndPayload(port: uint16, msg: seq<byte>)
    requires |msg| >= 1 && LooksLikeCoap(msg) && GetTokenLength(msg) < 5
    ensures var tagged := WithToken(msg, TagOf(port) + Token(msg));
      && LooksLikeCoap(tagged)
      && UriPath(tagged) == UriPath(msg)
      && SkipToPayload(Body(tagged)) == SkipToPayload(Body(msg))
  {
    hide PathSegments, MarkerByte, SkipToPayload;
    var tagged := WithToken(msg, TagOf(port) + Token(msg));
    WithTokenKeeps(msg, TagOf(port) + Token(msg));
    assert From(tagged, 4 + GetTokenLength(tagged)) == Body(tagged);
    assert From(msg, 4 + GetTokenLength(msg)) == Body(msg);
  }

  /**
   * Any taggable request of 509 bytes overruns: whatever the map holds, its tag
   * makes it 512 bytes, an empty queue does not refuse it, and its frame is longer
   * than the command buffer.
   */
  lemma LongestRequestOverruns(mids: Mids, port: uint16, request: seq<byte>, now: int)
    requires |request| == 509 && LooksLikeCoap(request) && IsRequest(request) && GetTokenLength(request) < 5
    ensures ToSerial(mids, port, request, UNIT + 3, now).Ok?
    ensures SQ.Overruns(SQ.EMPTY, ToSerial(mids, port, request, UNIT + 3, now).value.bytes)
  {
    hide MarkerByte, WithToken, Frame, Specials;
    WithTokenKeeps(request, TagOf(port) + Token(request));
    SQ.OverrunExactly(SQ.EMPTY, WithToken(request, TagOf(port) + Token(request)));
  }
}
