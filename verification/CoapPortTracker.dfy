/** The class of src/coapPortTracker.cpp: it edits the caller's buffer in place and owns the MID map. */
module CoapPortTracker {
  import opened Bytes
  import opened Coap
  import opened Tracker

  class PortTracker {
    const defaultPort: uint16
    var mids: Mids

    constructor (defaultCoapPort: uint16)
      ensures defaultPort == defaultCoapPort && mids == map[]
    {
      defaultPort := defaultCoapPort;
      mids := map[];
    }

    method TrackMid(port: uint16, mid: uint16, now: int)
      modifies this
      ensures mids == Tracked(old(mids), port, mid, now)
    {
      if mid !in mids {
        mids := mids[mid := MappedMid(port, now)];
      } else if mids[mid].port == port {
        mids := mids[mid := mids[mid].(timeCreated := now)];
      } else {
        mids := mids[mid := MappedMid(port, now)];
      }
    }

    /** One firing of the expiration timer: visit every entry, erasing the old ones. */
    method RemoveOldMids(now: int)
      modifies this
      ensures mids == Swept(old(mids), now)
    {
      var unvisited := mids.Keys;
      while unvisited != {}
        invariant unvisited <= mids.Keys <= old(mids).Keys
        invariant forall mid :: mid in mids ==> mids[mid] == old(mids)[mid]
        invariant forall mid :: mid in mids && mid !in unvisited ==> !Expired(old(mids)[mid], now)
        invariant forall mid :: mid in old(mids) && mid !in mids ==> Expired(old(mids)[mid], now)
        decreases unvisited
      {
        var mid :| mid in unvisited;
        unvisited := unvisited - {mid};
        if Expired(mids[mid], now) {
          mids := mids - {mid};
        }
      }
      assert mids.Keys == Swept(old(mids), now).Keys;
    }

    method Clear()
      modifies this
      ensures mids == map[]
    {
      mids := map[];
    }

    /** memmove of the bytes from index from to len, up by three. */
    method ShiftUp(buffer: array<byte>, from: nat, len: nat)
      requires from <= len && len + 3 <= buffer.Length
      modifies buffer
      ensures forall i :: from <= i < len ==> buffer[i + 3] == old(buffer[i])
      ensures forall i :: 0 <= i < from || len + 3 <= i < buffer.Length ==> buffer[i] == old(buffer[i])
    {
      forall i | from <= i < len {
        buffer[i + 3] := buffer[i];
      }
    }

    /** memmove of the bytes from index from + 3 to len, down by three. */
    method ShiftDown(buffer: array<byte>, from: nat, len: nat)
      requires from + 3 <= len <= buffer.Length
      modifies buffer
      ensures forall i :: from <= i < len - 3 ==> buffer[i] == old(buffer[i + 3])
      ensures forall i :: 0 <= i < from || len - 3 <= i < buffer.Length ==> buffer[i] == old(buffer[i])
    {
      forall i | from <= i < len - 3 {
        buffer[i] := buffer[i + 3];
      }
    }

    /** The message with the port's tag in front of its token. */
    ghost function Retagged(port: uint16, msg: seq<byte>): seq<byte>
      requires |msg| >= 1 && LooksLikeCoap(msg) && GetTokenLength(msg) < 5
    {
      WithToken(msg, TagOf(port) + Token(msg))
    }

    /** Port, little-endian, behind its marker, at the start of the token. */
    method WriteTag(port: uint16, buffer: array<byte>)
      requires TOKEN_START + 3 <= buffer.Length
      modifies buffer
      ensures buffer[TOKEN_START..TOKEN_START + 3] == TagOf(port)
      ensures buffer[..TOKEN_START] == old(buffer[..TOKEN_START])
      ensures buffer[TOKEN_START + 3..] == old(buffer[TOKEN_START + 3..])
    {
      hide MarkerByte;
      buffer[TOKEN_START + 1] := port % 0x100;
      buffer[TOKEN_START + 2] := port / 0x100 % 0x100;
      buffer[TOKEN_START] := MarkerByte(buffer[TOKEN_START + 1], buffer[TOKEN_START + 2]);
    }

    /** The in-place insertion of the tag. */
    method InsertTag(port: uint16, buffer: array<byte>, len: nat)
      requires 1 <= len && len + 3 <= buffer.Length
      requires LooksLikeCoap(buffer[..len]) && GetTokenLength(buffer[..len]) < 5
      modifies buffer
      ensures buffer[..len + 3] == old(Retagged(port, buffer[..len]))
      ensures buffer[len + 3..] == old(buffer[len + 3..])
    {
      hide TagOf, WithToken;
      ghost var msg := buffer[..len];
      var tokenLength := GetTokenLength(buffer[..len]);
      TagLength(port);
      ShiftUp(buffer, TOKEN_START, len);
      assert buffer[7..len + 3] == msg[4..] && buffer[..4] == msg[..4];
      ghost var moved := buffer[..];
      assert moved[len + 3..] == old(buffer[len + 3..]);
      WriteTag(port, buffer);
      ghost var shifted := buffer[..];
      assert shifted[7..] == moved[7..];
      assert shifted[len + 3..] == shifted[7..][len - 4..] == moved[len + 3..];
      assert shifted[7..len + 3] == shifted[7..][..len - 4] == moved[7..][..len - 4] == msg[4..];
      assert shifted[4..7] == TagOf(port) && shifted[..4] == msg[..4];
      var ok := SetTokenLength(buffer, tokenLength + 3);
      TokenThenBody(msg);
      ghost var out := buffer[..len + 3];
      assert out[4..] == shifted[4..7] + shifted[7..len + 3] == (TagOf(port) + Token(msg)) + Body(msg);
      assert out[1..4] == shifted[1..4] == msg[1..4];
      assert buffer[len + 3..] == shifted[len + 3..];
      Assembled(msg, buffer[..len + 3], TagOf(port) + Token(msg));
    }

    lemma TagLength(port: uint16)
      ensures |TagOf(port)| == 3
    {
    }

    lemma TokenThenBody(msg: seq<byte>)
      requires |msg| >= 1 && LooksLikeCoap(msg)
      ensures msg[TOKEN_START..] == Token(msg) + Body(msg)
      ensures |Token(msg)| >= 3 ==> msg[TOKEN_START + 3..] == Token(msg)[3..] + Body(msg)
    {
    }

    lemma Assembled(msg: seq<byte>, out: seq<byte>, token: seq<byte>)
      requires |msg| >= 1 && LooksLikeCoap(msg) && |token| <= TOKEN_MAX_LEN
      requires |out| >= 4 && out[0] == WithTokenLength(msg[0], |token|) && out[1..4] == msg[1..4]
      requires out[4..] == token + Body(msg)
      ensures out == WithToken(msg, token)
    {
      assert out == [out[0]] + out[1..4] + out[4..];
    }

    /** Adds the client's port to a message on its way to the serial port; returns the new length. */
    method UdpToSerial(port: uint16, buffer: array<byte>, len: nat, maxLen: nat, now: int)
      returns (r: Result<nat, TrackerError>)
      requires 1 <= len <= buffer.Length && maxLen <= buffer.Length
      modifies this, buffer
      ensures match old(ToSerial(mids, port, buffer[..len], maxLen, now))
              case Err(e) => r == Err(e) && mids == old(mids) && buffer[..] == old(buffer[..])
              case Ok(out) =>
                && r == Ok(|out.bytes|) && |out.bytes| <= maxLen
                && mids == out.mids
                && buffer[..|out.bytes|] == out.bytes
                && buffer[|out.bytes|..] == old(buffer[|out.bytes|..])
    {
      ghost var msg := buffer[..len];
      if maxLen < len {
        return Err(MaxLenTooSmall);
      }
      if !LooksLikeCoap(buffer[..len]) {
        return Err(InvalidCoap);
      }
      hide MarkerByte;
      var tokenLength := GetTokenLength(buffer[..len]);
      var newLen := len;
      if IsRequest(buffer[..len]) {
        if tokenLength < 5 && maxLen - len >= 3 {
          WithTokenKeeps(msg, TagOf(port) + Token(msg));
          InsertTag(port, buffer, len);
          newLen := len + 3;
          if GetCoapType(buffer[..newLen]) == CON {
            TrackMid(port, GetMid(buffer[..newLen]), now);
          }
        } else {
          TrackMid(port, GetMid(buffer[..len]), now);
        }
      } else if IsResponse(buffer[..len]) {
        if GetCoapType(buffer[..len]) == CON {
          TrackMid(port, GetMid(buffer[..len]), now);
        }
      } else if IsEmpty(buffer[..len]) {
        TrackMid(port, GetMid(buffer[..len]), now);
      }
      r := Ok(newLen);
    }

    /** The in-place removal of the first three token bytes. */
    method RemoveTag(buffer: array<byte>, len: nat)
      requires 1 <= len <= buffer.Length
      requires LooksLikeCoap(buffer[..len]) && GetTokenLength(buffer[..len]) >= 3
      modifies buffer
      ensures buffer[..len - 3] == old(WithToken(buffer[..len], Token(buffer[..len])[3..]))
      ensures buffer[len - 3..] == old(buffer[len - 3..])
    {
      ghost var msg := buffer[..len];
      var tokenLength := GetTokenLength(buffer[..len]);
      ShiftDown(buffer, TOKEN_START, len);
      ghost var shifted := buffer[..];
      assert shifted[4..len - 3] == msg[7..] && shifted[..4] == msg[..4];
      var ok := SetTokenLength(buffer, tokenLength - 3);
      TokenThenBody(msg);
      ghost var out := buffer[..len - 3];
      assert out[4..] == shifted[4..len - 3] == Token(msg)[3..] + Body(msg);
      assert out[1..4] == shifted[1..4] == msg[1..4];
      Assembled(msg, buffer[..len - 3], Token(msg)[3..]);
    }

    /** Finds the port for a message from the serial port and takes a tag out; returns port and new length. */
    method SerialToUdp(buffer: array<byte>, len: nat) returns (r: Result<(uint16, nat), TrackerError>)
      requires 1 <= len <= buffer.Length
      modifies buffer
      ensures match old(ToUdp(mids, defaultPort, buffer[..len]))
              case Err(e) => r == Err(e) && buffer[..] == old(buffer[..])
              case Ok(to) =>
                && r == Ok((to.port, |to.bytes|))
                && |to.bytes| <= len
                && buffer[..|to.bytes|] == to.bytes
    {
      ghost var msg := buffer[..len];
      if !LooksLikeCoap(buffer[..len]) {
        return Err(InvalidCoap);
      }
      hide MarkerByte;
      var tokenLength := GetTokenLength(buffer[..len]);
      var mid := GetMid(buffer[..len]);
      if IsRequest(buffer[..len]) {
        r := Ok((defaultPort, len));
      } else if IsResponse(buffer[..len]) {
        if tokenLength >= 3 && buffer[TOKEN_START] == MarkerByte(buffer[TOKEN_START + 1], buffer[TOKEN_START + 2]) {
          var port := BigEndian(buffer[TOKEN_START + 2], buffer[TOKEN_START + 1]);
          WithTokenKeeps(msg, Token(msg)[3..]);
          RemoveTag(buffer, len);
          r := Ok((port, len - 3));
        } else if mid !in mids {
          r := Ok((defaultPort, len));
        } else {
          r := Ok((mids[mid].port, len));
        }
      } else if IsEmpty(buffer[..len]) {
        r := Ok((if mid in mids then mids[mid].port else defaultPort, len));
      } else {
        r := Err(NotForwardable);
      }
    }
  }
}
