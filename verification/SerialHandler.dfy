/** The class of src/serialHandler.cpp: a ring buffer drained by asynchronous writes, and the receive loop. */
module SerialHandler {
  import opened Bytes
  import opened Slip
  import opened SlipHandler
  import opened CircularBuffer
  import SQ = SerialQueue

  datatype State = RESETTING | OPERATIONAL | OPERATIONAL_ERROR

  class Handler {
    const writeBuffer: Ring
    const readBuffer: Ring
    const slip: SlipReceiver
    var state: State
    var writeInProgress: bool
    /** The memory handed to the outstanding serial.async_write_some: start index and length. */
    var regionStart: nat
    var region: nat
    ghost var confirmed: seq<byte>
    ghost var accepted: seq<byte>

    ghost predicate Valid()
      reads this, writeBuffer, writeBuffer.store, readBuffer, readBuffer.store, slip, slip.buf
    {
      && writeBuffer.Valid() && writeBuffer.store.Length == SQ.CAPACITY
      && readBuffer.Valid() && readBuffer.store.Length == UNIT && readBuffer.Contents() == []
      && slip.Valid() && slip.buf.Length == UNIT
      && writeBuffer != readBuffer
      && writeBuffer.store != readBuffer.store && writeBuffer.store != slip.buf && readBuffer.store != slip.buf
      && (writeInProgress <==> region > 0)
      && SQ.Conserved(Value())
      && (region > 0 ==> RegionIntact())
    }

    /** The memory of the outstanding write still holds the bytes at the head of the queue. */
    ghost predicate RegionIntact()
      requires writeBuffer.Valid()
      reads this, writeBuffer, writeBuffer.store
    {
      && regionStart == writeBuffer.first
      && regionStart + region <= writeBuffer.store.Length && region <= writeBuffer.count
      && writeBuffer.store[regionStart..regionStart + region] == writeBuffer.Contents()[..region]
    }

    ghost function Value(): SQ.Queue
      requires writeBuffer.Valid()
      reads this, writeBuffer, writeBuffer.store
    {
      SQ.Queue(writeBuffer.Contents(), region, confirmed, accepted)
    }

    constructor ()
      ensures Valid() && state == OPERATIONAL
      ensures Value() == SQ.EMPTY && slip.Value() == INITIAL
      ensures fresh(writeBuffer) && fresh(writeBuffer.store) && fresh(readBuffer) && fresh(readBuffer.store)
      ensures fresh(slip) && fresh(slip.buf)
    {
      writeBuffer := new Ring(SQ.CAPACITY);
      readBuffer := new Ring(UNIT);
      slip := new SlipReceiver(UNIT);
      writeInProgress, regionStart, region := false, 0, 0;
      confirmed, accepted := [], [];
      state := OPERATIONAL;
    }

    /** array_one() and serial.async_write_some: legal only when no write is outstanding. */
    method StartWrite()
      requires Valid() && !writeInProgress && writeBuffer.count > 0
      modifies this`writeInProgress, this`regionStart, this`region
      ensures Valid() && writeInProgress
      ensures 0 < region <= writeBuffer.count
    {
      writeInProgress := true;
      regionStart, region := writeBuffer.ArrayOne();
    }

    /** Bytes appended behind an outstanding region leave the region alone. */
    lemma RegionStays()
      requires writeBuffer.Valid() && region <= writeBuffer.count
      requires regionStart == writeBuffer.first && regionStart + region <= writeBuffer.store.Length
      ensures RegionIntact()
    {
      assert forall i :: 0 <= i < region ==> writeBuffer.Slot(i) == regionStart + i;
    }

    /** Queues as many bytes as fit, then starts a write unless one is outstanding. */
    method AsyncSendDataToSerialPort(data: seq<byte>) returns (written: nat)
      requires Valid() && data != []
      modifies this`writeInProgress, this`regionStart, this`region, this`accepted, writeBuffer, writeBuffer.store
      ensures Valid()
      ensures state != OPERATIONAL ==> written == 0 && Value() == old(Value())
      ensures state == OPERATIONAL ==>
        && written == Min(SQ.Free(old(Value())), |data|)
        && Value().(region := 0) == SQ.Push(old(Value()), data).(region := 0)
        && (if old(region) > 0 then region == old(region) else 0 < region <= writeBuffer.count)
    {
      if state != OPERATIONAL {
        return 0;
      }
      ghost var q := Value();
      written := 0;
      while written < |data| && !writeBuffer.Full()
        invariant written <= |data|
        invariant writeBuffer.Valid() && writeBuffer.first == old(writeBuffer.first)
        invariant writeBuffer.Contents() == q.contents + data[..written]
        invariant region == q.region && region <= writeBuffer.count
        modifies writeBuffer, writeBuffer.store
      {
        writeBuffer.PushBack(data[written]);
        written := written + 1;
      }
      accepted := accepted + data[..written];
      assert confirmed + (q.contents + data[..written]) == (confirmed + q.contents) + data[..written];
      if !writeInProgress {
        StartWrite();
      } else {
        RegionStays();
      }
    }

    /**
     * Frames and queues one message; None where the C++ writes behind its command
     * buffer of UNIT bytes, which the encoder does not check. The loop never
     * advances its data pointer, but runs at most once: a longer message does not
     * fit the queue and has been refused.
     */
    method AsyncSendMessageToSerialPort(data: seq<byte>) returns (ok: Option<bool>)
      requires Valid()
      modifies this`writeInProgress, this`regionStart, this`region, this`accepted, writeBuffer, writeBuffer.store
      ensures Valid()
      ensures ok.None? <==> state == OPERATIONAL && SQ.Overruns(old(Value()), data)
      ensures ok.Some? ==> ok.value == (state == OPERATIONAL && !SQ.Refused(old(Value()), data))
      ensures state != OPERATIONAL || ok.None? ==> Value() == old(Value())
      ensures state == OPERATIONAL && ok.Some? ==>
        && SQ.Enabled(old(Value()), SQ.Send(data, region))
        && Value() == SQ.Step(old(Value()), SQ.Send(data, region))
    {
      if state != OPERATIONAL {
        return Some(false);
      }
      if writeBuffer.Reserve() < |data| {
        return Some(false);
      }
      hide Frame, Escape;
      FrameLengthBound(data);
      var dataLen := |data|;
      while dataLen > 0
        invariant Valid() && state == OPERATIONAL
        invariant dataLen == |data| || dataLen == 0
        invariant dataLen > 0 ==> Value() == old(Value())
        invariant dataLen == 0 ==>
          && SQ.Enabled(old(Value()), SQ.Send(data, region))
          && Value() == SQ.Step(old(Value()), SQ.Send(data, region))
      {
        var toSend := Min(UNIT, dataLen);
        assert data[..toSend] == data;
        if |Frame(data[..toSend])| > UNIT {
          return None;
        }
        var cmd := new byte[UNIT];
        var cmdLen := CreateSlipEncodedMessage(cmd, data[..toSend]);
        if cmdLen == 0 {
          return Some(false);
        }
        var written := AsyncSendDataToSerialPort(cmd[..cmdLen]);
        dataLen := dataLen - toSend;
      }
      ok := Some(true);
    }

    /** Completion of the outstanding write: an error, or n bytes transferred. */
    method AsyncWriteToSerialPortCb(failed: bool, n: nat)
      requires Valid() && region > 0
      requires !failed ==> n <= region
      modifies this`writeInProgress, this`regionStart, this`region, this`confirmed, writeBuffer
      ensures Valid()
      ensures failed ==> Value() == SQ.Step(old(Value()), SQ.Fail)
      ensures !failed ==>
        && SQ.Enabled(old(Value()), SQ.Complete(n, region))
        && Value() == SQ.Step(old(Value()), SQ.Complete(n, region))
    {
      hide Frame, SQ.Push;
      ghost var q := Value();
      region := 0;
      if failed {
        writeInProgress := false;
      } else {
        writeBuffer.EraseBegin(n);
        confirmed := confirmed + q.contents[..n];
        assert q.confirmed + q.contents == (q.confirmed + q.contents[..n]) + q.contents[n..];
        writeInProgress := false;
        if !writeBuffer.Empty() {
          StartWrite();
        }
      }
    }

    /** The read completion: everything read goes through the ring into the SLIP receiver. */
    method OnRead(bytes: seq<byte>) returns (messages: seq<seq<byte>>)
      requires Valid() && |bytes| <= UNIT
      modifies readBuffer, readBuffer.store, slip, slip.buf
      ensures Valid() && Value() == old(Value())
      ensures Outcome(slip.Value(), messages) == Feed(old(slip.Value()), bytes, UNIT)
    {
      var i := 0;
      while i < |bytes| && !readBuffer.Full()
        invariant i <= |bytes| && readBuffer.Valid()
        invariant readBuffer.Contents() == bytes[..i]
        modifies readBuffer, readBuffer.store
      {
        readBuffer.PushBack(bytes[i]);
        i := i + 1;
      }
      assert bytes[..i] == bytes;
      messages := DrainReadBuffer(bytes);
    }

    method DrainReadBuffer(ghost bytes: seq<byte>) returns (messages: seq<seq<byte>>)
      requires readBuffer.Valid() && readBuffer.Contents() == bytes
      requires slip.Valid() && slip.buf.Length == UNIT && readBuffer.store != slip.buf
      modifies readBuffer, slip, slip.buf
      ensures readBuffer.Valid() && readBuffer.Contents() == []
      ensures slip.Valid()
      ensures Outcome(slip.Value(), messages) == Feed(old(slip.Value()), bytes, UNIT)
    {
      hide ReadByte, Feed;
      messages := [];
      ghost var done := 0;
      FeedNothing(slip.Value(), UNIT);
      assert bytes[..0] == [];
      while !readBuffer.Empty()
        invariant done <= |bytes| && readBuffer.Valid() && slip.Valid()
        invariant readBuffer.Contents() == bytes[done..]
        invariant Outcome(slip.Value(), messages) == Feed(old(slip.Value()), bytes[..done], UNIT)
        decreases readBuffer.count
      {
        FeedNext(old(slip.Value()), bytes, done, UNIT);
        var error, message := slip.SlipReadByte(readBuffer.Front());
        messages := messages + message;
        readBuffer.PopFront();
        assert bytes[done..][1..] == bytes[done + 1..];
        done := done + 1;
      }
      assert bytes[..done] == bytes;
    }
  }
}
