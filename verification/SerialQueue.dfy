/**
 * The transmit side of src/serialHandler.cpp as a state machine: sends, partial
 * completions and write errors, in any order, over a 512-byte queue.
 */
module SerialQueue {
  import opened Bytes
  import opened Slip

  /** TX_BUFFER_SIZE. */
  const CAPACITY: nat := 512

  /**
   * The queued bytes; the length of the region handed to the outstanding
   * asynchronous write (0 when there is none); the bytes confirmed written; and
   * every byte ever accepted into the queue.
   */
  datatype Queue = Queue(contents: seq<byte>, region: nat, confirmed: seq<byte>, accepted: seq<byte>)

  const EMPTY: Queue := Queue([], 0, [], [])

  function Free(q: Queue): nat {
    if |q.contents| <= CAPACITY then CAPACITY - |q.contents| else 0
  }

  /** As many bytes of data as there is room for. */
  function Push(q: Queue, data: seq<byte>): Queue {
    var fits := data[..Min(Free(q), |data|)];
    q.(contents := q.contents + fits, accepted := q.accepted + fits)
  }

  /** A message is refused when its unencoded length exceeds the free space; an empty one queues nothing. */
  predicate Refused(q: Queue, msg: seq<byte>) {
    Free(q) < |msg|
  }

  predicate Queues(q: Queue, msg: seq<byte>) {
    !Refused(q, msg) && msg != []
  }

  /** The message is not refused, but its frame does not fit the command buffer of UNIT bytes that it is built in. */
  predicate Overruns(q: Queue, msg: seq<byte>) {
    Queues(q, msg) && |Frame(msg)| > UNIT
  }

  /** The region argument is the contiguous region that a newly started write gets; the ring decides its length. */
  datatype Event =
    | Send(msg: seq<byte>, region: nat)
    | Complete(n: nat, region: nat)
    | Fail

  /**
   * What the environment may do: no message overruns, and only the outstanding write
   * completes, by no more than its region.
   */
  ghost predicate Enabled(q: Queue, e: Event) {
    match e
    case Send(msg, region) =>
      !Overruns(q, msg) && (Queues(q, msg) ==> q.region == 0 ==> 0 < region <= |Push(q, Frame(msg)).contents|)
    case Complete(n, region) =>
      && q.region > 0 && n <= q.region <= |q.contents|
      && (n < |q.contents| ==> 0 < region <= |q.contents| - n)
    case Fail => q.region > 0
  }

  function Step(q: Queue, e: Event): Queue {
    match e
    case Send(msg, region) =>
      if !Queues(q, msg) then q
      else
        var pushed := Push(q, Frame(msg));
        if q.region > 0 then pushed else pushed.(region := region)
    case Complete(n, region) =>
      if n > |q.contents| then q
      else
        Queue(q.contents[n..], if n == |q.contents| then 0 else region, q.confirmed + q.contents[..n], q.accepted)
    case Fail => q.(region := 0)
  }

  /** The queue after a run; None if some event was not possible. */
  ghost function Run(events: seq<Event>): Option<Queue> {
    if events == [] then Some(EMPTY)
    else
      match Run(events[..|events| - 1])
      case None => None
      case Some(q) =>
        var e := events[|events| - 1];
        if Enabled(q, e) then Some(Step(q, e)) else None
  }

  /** Nothing is lost, duplicated or reordered, and the outstanding write covers a non-empty prefix. */
  ghost predicate Conserved(q: Queue) {
    && q.confirmed + q.contents == q.accepted
    && q.region <= |q.contents| <= CAPACITY
  }

  lemma StepConserves(q: Queue, e: Event)
    requires Conserved(q) && Enabled(q, e)
    ensures Conserved(Step(q, e))
  {
    hide Escape;
    match e
    case Send(msg, _) =>
      if Queues(q, msg) {
        FrameShape(msg);
        var fits := Frame(msg)[..Min(Free(q), |Frame(msg)|)];
        assert (q.confirmed + q.contents) + fits == q.confirmed + (q.contents + fits);
      }
    case Complete(n, _) =>
      assert q.contents == q.contents[..n] + q.contents[n..];
      assert (q.confirmed + q.contents[..n]) + q.contents[n..] == q.confirmed + q.contents;
    case Fail =>
  }

  /** Over every run of sends, completions and errors. */
  lemma {:induction false} Conservation(events: seq<Event>)
    ensures Run(events).Some? ==> Conserved(Run(events).value)
  {
    if events != [] {
      Conservation(events[..|events| - 1]);
      var before := Run(events[..|events| - 1]);
      if before.Some? && Enabled(before.value, events[|events| - 1]) {
        StepConserves(before.value, events[|events| - 1]);
      }
    }
  }

  /**
   * The frame of a message that is not refused is queued whole exactly when the
   * encoded frame, not just the message, fits the free space.
   */
  lemma WholeFrameQueued(q: Queue, msg: seq<byte>, region: nat)
    requires Queues(q, msg) && |q.contents| <= CAPACITY
    ensures Step(q, Send(msg, region)).accepted == q.accepted + Frame(msg) <==> |Frame(msg)| <= Free(q)
    ensures Step(q, Send(msg, region)).accepted <= q.accepted + Frame(msg)
  {
    hide Escape;
    var fits := Frame(msg)[..Min(Free(q), |Frame(msg)|)];
    assert fits <= Frame(msg);
    assert q.accepted + fits <= q.accepted + Frame(msg);
    if |Frame(msg)| > Free(q) {
      assert |q.accepted + fits| < |q.accepted + Frame(msg)|;
    }
  }

  /** The bytes that the completions of a run say were transferred. */
  function Transferred(events: seq<Event>): nat {
    if events == [] then 0
    else
      Transferred(events[..|events| - 1]) +
      match events[|events| - 1]
      case Complete(n, _) => n
      case _ => 0
  }

  /**
   * Only completions confirm bytes, and a write error loses none: over every run,
   * what is confirmed is the head of what was accepted, as long as the completions
   * say, and the queue is the rest.
   */
  lemma {:induction false} ConfirmedExactly(events: seq<Event>)
    requires Run(events).Some?
    ensures var q := Run(events).value;
      && Transferred(events) <= |q.accepted|
      && q.confirmed == q.accepted[..Transferred(events)]
      && q.contents == q.accepted[Transferred(events)..]
  {
    Conservation(events);
    ConfirmedLength(events);
    var q := Run(events).value;
    assert q.accepted == q.confirmed + q.contents;
  }

  lemma {:induction false} ConfirmedLength(events: seq<Event>)
    requires Run(events).Some?
    ensures |Run(events).value.confirmed| == Transferred(events)
  {
    hide Frame;
    if events != [] {
      ConfirmedLength(events[..|events| - 1]);
    }
  }

  lemma {:induction false} PlainEscape(m: seq<byte>)
    requires END !in m && ESC !in m
    ensures Specials(m) == 0
  {
    if m != [] {
      PlainEscape(m[..|m| - 1]);
    }
  }

  lemma RunOne(events: seq<Event>, e: Event)
    requires Run(events).Some? && Enabled(Run(events).value, e)
    ensures Run(events + [e]) == Some(Step(Run(events).value, e))
  {
    assert (events + [e])[..|events|] == events;
  }

  /**
   * A message can be accepted although its frame is cut. In this run two plain
   * messages of 508 and 2 bytes are sent; the second is not refused, but only two
   * of its four frame bytes are queued.
   */
  lemma AcceptedButCut() returns (first: seq<byte>, second: seq<byte>, events: seq<Event>)
    ensures events == [Send(first, 510), Send(second, 510)]
    ensures Run(events[..1]).Some? && Queues(Run(events[..1]).value, second)
    ensures Run(events).Some?
    ensures Run(events).value.accepted == Frame(first) + Frame(second)[..2] != Frame(first) + Frame(second)
  {
    first, second := seq(508, i => 0), [1, 2];
    events := [Send(first, 510), Send(second, 510)];
    hide Escape;
    PlainEscape(first);
    FrameShape(first);
    PlainEscape(second);
    FrameShape(second);
    hide Frame, Specials;
    RunOne([], events[0]);
    assert [] + [events[0]] == events[..1];
    var one := Run(events[..1]).value;
    assert [] + Frame(first)[..510] == Frame(first);
    assert one == Queue(Frame(first), 510, [], Frame(first));
    RunOne(events[..1], events[1]);
    assert events[..1] + [events[1]] == events;
    assert Run(events).value.accepted == Frame(first) + Frame(second)[..2];
    assert |Frame(first) + Frame(second)| == 514;
  }

  /** The frame outgrows the command buffer exactly when the message and its END and ESC bytes are more than 510. */
  lemma OverrunExactly(q: Queue, msg: seq<byte>)
    ensures Overruns(q, msg) <==> msg != [] && |msg| <= Free(q) && |msg| + Specials(msg) > 510
  {
    FrameShape(msg);
  }

  /** The messages of a run that were queued. */
  ghost function Sent(events: seq<Event>): seq<seq<byte>>
    requires Run(events).Some?
  {
    if events == [] then []
    else
      var init, e := events[..|events| - 1], events[|events| - 1];
      Sent(init) + if e.Send? && Queues(Run(init).value, e.msg) then [e.msg] else []
  }

  /** Every queued message found room for its whole frame. */
  ghost predicate NoneCut(events: seq<Event>)
    requires Run(events).Some?
  {
    events != [] ==>
      var init, e := events[..|events| - 1], events[|events| - 1];
      && NoneCut(init)
      && (e.Send? && Queues(Run(init).value, e.msg) ==> |Frame(e.msg)| <= Free(Run(init).value))
  }

  lemma {:induction false} AcceptedIsFrames(events: seq<Event>)
    requires Run(events).Some? && NoneCut(events)
    ensures Run(events).value.accepted == Frames(Sent(events))
  {
    hide Frame, Escape;
    if events != [] {
      var init, e := events[..|events| - 1], events[|events| - 1];
      AcceptedIsFrames(init);
      Conservation(init);
      if e.Send? && Queues(Run(init).value, e.msg) {
        WholeFrameQueued(Run(init).value, e.msg, e.region);
        assert (Sent(init) + [e.msg])[..|Sent(init)|] == Sent(init);
      } else {
        assert Sent(events) == Sent(init);
      }
    }
  }

  /**
   * End of the line: once the queue has drained, a receiver with the same
   * framing has been handed exactly the queued messages, in order.
   */
  lemma LineCarriesMessages(events: seq<Event>, cap: nat)
    requires Run(events).Some? && NoneCut(events) && Run(events).value.contents == []
    requires forall i :: 0 <= i < |Sent(events)| ==> Fits(Sent(events)[i], cap)
    ensures Feed(INITIAL, Run(events).value.confirmed, cap) == Outcome(INITIAL, Sent(events))
  {
    hide Frame, Escape, Feed, Run, Sent, NoneCut, Frames;
    var q := Run(events).value;
    Conservation(events);
    AcceptedIsFrames(events);
    assert q.confirmed == q.confirmed + q.contents;
    if Sent(events) != [] {
      Resynchronises(INITIAL, [], Sent(events), cap);
      assert [] + Frames(Sent(events)) == q.confirmed;
      assert [] + [END] == [END];
      FeedOne(INITIAL, END, cap);
      assert [] + Sent(events) == Sent(events);
    } else {
      NoFrames(cap);
    }
  }

  lemma NoFrames(cap: nat)
    ensures Frames([]) == [] && Feed(INITIAL, [], cap) == Outcome(INITIAL, [])
  {
  }

  /** The latest event that touched the queue was a write error. */
  ghost predicate FailedLast(events: seq<Event>)
    requires Run(events).Some?
  {
    events != [] &&
      var init, e := events[..|events| - 1], events[|events| - 1];
      e.Fail? || (e.Send? && !Queues(Run(init).value, e.msg) && FailedLast(init))
  }

  /**
   * When no write is outstanding, over every run: exactly when the queue is empty,
   * or when the latest event that touched it was a write error. What was queued then
   * waits for the next message.
   */
  lemma {:induction false} IdleExactly(events: seq<Event>)
    requires Run(events).Some?
    ensures Run(events).value.region == 0 <==> Run(events).value.contents == [] || FailedLast(events)
  {
    hide Frame;
    if events != [] {
      var init, e := events[..|events| - 1], events[|events| - 1];
      IdleExactly(init);
      Conservation(init);
      var q := Run(init).value;
      match e {
        case Send(msg, _) =>
          if Queues(q, msg) {
            FrameHasEnds(msg);
          }
        case _ =>
      }
    }
  }

  lemma FrameHasEnds(msg: seq<byte>)
    ensures |Frame(msg)| >= 2
  {
  }
}
