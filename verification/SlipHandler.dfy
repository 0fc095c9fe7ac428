/** The C++ side of src/slip.cpp: two encoders and the byte-driven receiver, proved against module Slip. */
module SlipHandler {
  import opened Bytes
  import opened Slip

  /**
   * Encodes into a caller-supplied buffer. Messages over UNIT bytes are refused
   * with length 0. The caller must provide room for the whole frame.
   */
  method CreateSlipEncodedMessage(out: array<byte>, data: seq<byte>) returns (length: uint16)
    requires |data| <= UNIT ==> |Frame(data)| <= out.Length
    modifies out
    ensures |data| > UNIT ==> length == 0 && out[..] == old(out[..])
    ensures |data| <= UNIT ==>
      && length == |Frame(data)| && out[..length] == Frame(data)
      && (forall k :: length <= k < out.Length ==> out[k] == old(out[k]))
  {
    hide Frame, Opened;
    if |data| > UNIT {
      return 0;
    }
    FrameLengthBound(data);
    FrameOpened(data);
    OpenedIsPrefix(data, 0);
    length := Append(out, 0, END);
    for i := 0 to |data|
      invariant length == |Opened(data, i)| < |Frame(data)|
      invariant out[..length] == Opened(data, i)
      invariant forall k :: length <= k < out.Length ==> out[k] == old(out[k])
    {
      OpenedNext(data, i);
      OpenedIsPrefix(data, i + 1);
      if data[i] == END {
        length := Append(out, length, ESC);
        length := Append(out, length, ESC_END);
      } else if data[i] == ESC {
        length := Append(out, length, ESC);
        length := Append(out, length, ESC_ESC);
      } else {
        length := Append(out, length, data[i]);
      }
    }
    length := Append(out, length, END);
  }

  /** The C++ idiom out[length++] = b. */
  method Append(out: array<byte>, length: uint16, b: byte) returns (next: uint16)
    requires length < out.Length && length < 0xFFFF
    modifies out
    ensures next == length + 1
    ensures out[..next] == old(out[..length]) + [b]
    ensures forall k :: next <= k < out.Length ==> out[k] == old(out[k])
  {
    out[length] := b;
    next := length + 1;
  }

  /** A frame after its first i message bytes, before the closing END. */
  ghost function Opened(data: seq<byte>, i: nat): seq<byte>
    requires i <= |data|
  {
    [END] + Escape(data[..i])
  }

  lemma FrameOpened(data: seq<byte>)
    ensures Frame(data) == Opened(data, |data|) + [END]
    ensures Opened(data, 0) == [END]
  {
    assert data[..|data|] == data;
    assert data[..0] == [];
  }

  lemma OpenedNext(data: seq<byte>, i: nat)
    requires i < |data|
    ensures Opened(data, i + 1) == Opened(data, i) + EscapeByte(data[i])
  {
    assert data[..i + 1][..i] == data[..i];
  }

  lemma OpenedIsPrefix(data: seq<byte>, i: nat)
    requires i <= |data|
    ensures |Opened(data, i)| < |Frame(data)| && Opened(data, i) == Frame(data)[..|Opened(data, i)|]
  {
    var head, tail := data[..i], data[i..];
    assert data == head + tail;
    EscapeConcat(head, tail);
    var begun := [END] + Escape(head);
    assert Frame(data) == begun + (Escape(tail) + [END]);
  }

  lemma {:induction false} FrameLengthBound(m: seq<byte>)
    ensures 2 <= |Frame(m)| <= 2 * |m| + 2
  {
    if m != [] {
      FrameLengthBound(m[..|m| - 1]);
    }
  }

  /** A write_byte callback that starts failing after some number of bytes; what it accepted is on the line. */
  class ByteSink {
    var line: seq<byte>
    var room: nat

    constructor (room: nat)
      ensures line == [] && this.room == room
    {
      line, this.room := [], room;
    }

    method WriteByte(b: byte) returns (ok: bool)
      modifies this
      ensures ok == (old(room) > 0)
      ensures ok ==> line == old(line) + [b] && room == old(room) - 1
      ensures !ok ==> line == old(line) && room == old(room)
    {
      ok := room > 0;
      if ok {
        line, room := line + [b], room - 1;
      }
    }
  }

  /** What a sink accepts of s: all of it, or the part that it has room for. */
  ghost predicate Accepted(before: seq<byte>, room: nat, after: seq<byte>, left: nat, s: seq<byte>) {
    && after == before + s[..Min(room, |s|)]
    && left == room - Min(room, |s|)
  }

  method WriteEncodedByte(sink: ByteSink, b: byte) returns (ok: bool)
    modifies sink
    ensures ok == (old(sink.room) >= |EscapeByte(b)|)
    ensures Accepted(old(sink.line), old(sink.room), sink.line, sink.room, EscapeByte(b))
  {
    var byte, escape := b, false;
    if b == END {
      byte, escape := ESC_END, true;
    } else if b == ESC {
      byte, escape := ESC_ESC, true;
    }
    if escape {
      var wrote := sink.WriteByte(ESC);
      if !wrote {
        return false;
      }
    }
    ok := sink.WriteByte(byte);
  }

  /**
   * The streaming encoder: NoError exactly when the sink took the whole frame;
   * otherwise the line carries the part of the frame before the first failure.
   */
  method SlipSendMessage(sink: ByteSink, data: seq<byte>) returns (error: SlipError)
    modifies sink
    ensures error == if old(sink.room) >= |Frame(data)| then NoError else BufferOverflow
    ensures Accepted(old(sink.line), old(sink.room), sink.line, sink.room, Frame(data))
  {
    hide Frame, Opened, EscapeByte;
    ghost var line, room := sink.line, sink.room;
    FrameOpened(data);
    var ok := sink.WriteByte(END);
    if !ok {
      return BufferOverflow;
    }
    for i := 0 to |data|
      invariant |Opened(data, i)| <= room
      invariant sink.line == line + Opened(data, i) && sink.room == room - |Opened(data, i)|
    {
      OpenedNext(data, i);
      OpenedIsPrefix(data, i + 1);
      ok := WriteEncodedByte(sink, data[i]);
      if !ok {
        assert line + Opened(data, i + 1)[..room] == sink.line;
        assert Frame(data)[..room] == Opened(data, i + 1)[..room];
        return BufferOverflow;
      }
    }
    ok := sink.WriteByte(END);
    error := if ok then NoError else BufferOverflow;
  }

  /** The receiver: slip_handler_s with its descriptor's buffer. */
  class SlipReceiver {
    const buf: array<byte>
    var escaped: bool
    var size: nat

    ghost predicate Valid()
      reads this
    {
      size <= buf.Length
    }

    ghost function Value(): Rx
      requires Valid()
      reads this, buf
    {
      Rx(escaped, buf[..size])
    }

    constructor (capacity: nat)
      ensures Valid() && fresh(buf) && buf.Length == capacity && Value() == INITIAL
    {
      buf := new byte[capacity];
      escaped, size := false, 0;
    }

    method ResetRx()
      modifies this
      ensures Valid() && Value() == INITIAL
    {
      escaped, size := false, 0;
    }

    method PutByteToBuffer(b: byte) returns (error: SlipError)
      requires Valid()
      modifies this, buf
      ensures Valid()
      ensures RxStep(Value(), [], error) == PutByte(old(Value()), b, buf.Length)
    {
      if size >= buf.Length {
        ResetRx();
        return BufferOverflow;
      }
      buf[size] := b;
      size, escaped := size + 1, false;
      error := NoError;
    }

    /** One byte from the line; a completed message is returned where the C++ calls recv_message. */
    method SlipReadByte(b: byte) returns (error: SlipError, message: seq<seq<byte>>)
      requires Valid()
      modifies this, buf
      ensures Valid()
      ensures RxStep(Value(), message, error) == ReadByte(old(Value()), b, buf.Length)
    {
      error, message := NoError, [];
      if !escaped {
        if b == END {
          if size >= 2 {
            message := [buf[..size]];
          }
          ResetRx();
        } else if b == ESC {
          escaped := true;
        } else {
          error := PutByteToBuffer(b);
        }
      } else {
        if b == ESC_END {
          error := PutByteToBuffer(END);
        } else if b == ESC_ESC {
          error := PutByteToBuffer(ESC);
        } else {
          error := UnknownEscapedByte;
          ResetRx();
        }
      }
    }
  }
}
