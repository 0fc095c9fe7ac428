/** The message queue of src/jaus/JausBridge.cpp as producer and consumer steps, and the filter it refines. */
module BridgeQueue {
  import opened Bytes
  import opened Report

  datatype Message = JoystickInput(report: Combined) | JausResponse

  /** lastJs once the service loop has started: zero, with every button bit set. */
  const INITIAL_JS: Combined := [0xFF, 0xFF, 0, 0, 0, 0, 0, 0, 0, 0, 0, 0, 0, 0, 0, 0, 0, 0]

  datatype Queue = Queue(lastJs: Combined, pending: seq<Message>)

  /** Nothing has gone wrong with the axes and Pause is not pressed. */
  predicate Usable(report: Combined) {
    DataOk(LeftXAxis(report)) && !PausePressed(ButtonStatus(report))
  }

  function Posted(q: Queue, m: Message): Queue {
    match m
    case JausResponse => q.(pending := q.pending + [m])
    case JoystickInput(report) =>
      if report == q.lastJs then q
      else Queue(report, if Usable(report) then q.pending + [m] else q.pending)
  }

  datatype Event = Post(m: Message) | Serve

  /**
   * A run's queue, and what has been handed to the state machine; None if the loop
   * was made to serve an empty queue.
   */
  datatype Trace = Trace(queue: Queue, handed: seq<Message>)

  function Run(events: seq<Event>): Option<Trace> {
    if events == [] then Some(Trace(Queue(INITIAL_JS, []), []))
    else
      match Run(events[..|events| - 1])
      case None => None
      case Some(t) =>
        match events[|events| - 1]
        case Post(m) => Some(Trace(Posted(t.queue, m), t.handed))
        case Serve =>
          if t.queue.pending == [] then None
          else Some(Trace(t.queue.(pending := t.queue.pending[1..]), t.handed + [t.queue.pending[0]]))
  }

  /** Everything posted in a run, in order. */
  function History(events: seq<Event>): seq<Message> {
    if events == [] then []
    else History(events[..|events| - 1]) + if events[|events| - 1].Post? then [events[|events| - 1].m] else []
  }

  /** The report posted most recently before position i. */
  function PreviousReport(history: seq<Message>, i: nat): Combined
    requires i <= |history|
  {
    if i == 0 then INITIAL_JS
    else if history[i - 1].JoystickInput? then history[i - 1].report
    else PreviousReport(history, i - 1)
  }

  /** Posting i is to reach the state machine: a response, or a usable report that differs from the previous one. */
  predicate Kept(history: seq<Message>, i: nat)
    requires i < |history|
  {
    history[i].JausResponse? || (Usable(history[i].report) && history[i].report != PreviousReport(history, i))
  }

  /** The kept postings among the first n, in order. */
  function Filtered(history: seq<Message>, n: nat): seq<Message>
    requires n <= |history|
  {
    if n == 0 then [] else Filtered(history, n - 1) + if Kept(history, n - 1) then [history[n - 1]] else []
  }

  lemma {:induction false} PreviousReportLocal(history: seq<Message>, more: seq<Message>, i: nat)
    requires i <= |history|
    ensures PreviousReport(history + more, i) == PreviousReport(history, i)
  {
    if i > 0 {
      PreviousReportLocal(history, more, i - 1);
    }
  }

  lemma {:induction false} FilteredLocal(history: seq<Message>, more: seq<Message>, n: nat)
    requires n <= |history|
    ensures Filtered(history + more, n) == Filtered(history, n)
  {
    if n > 0 {
      FilteredLocal(history, more, n - 1);
      PreviousReportLocal(history, more, n - 1);
    }
  }

  /** One posting extends the filtered history by itself or by nothing. */
  lemma PostedIsFiltered(history: seq<Message>, q: Queue, m: Message)
    requires q.lastJs == PreviousReport(history, |history|)
    ensures var longer := history + [m];
      var extra := if Kept(longer, |history|) then [m] else [];
      && Posted(q, m).lastJs == PreviousReport(longer, |longer|)
      && Filtered(longer, |longer|) == Filtered(history, |history|) + extra
      && Posted(q, m).pending == q.pending + extra
  {
    hide Usable;
    FilteredLocal(history, [m], |history|);
    PreviousReportLocal(history, [m], |history|);
  }

  /**
   * Over every interleaving of posts and service steps, what the state machine
   * has been handed, followed by what is queued, is the filtered history.
   */
  lemma {:induction false} QueueRefinesFilter(events: seq<Event>)
    requires Run(events).Some?
    ensures var t := Run(events).value;
      var history := History(events);
      && t.handed + t.queue.pending == Filtered(history, |history|)
      && t.queue.lastJs == PreviousReport(history, |history|)
  {
    if events != [] {
      hide Filtered, PreviousReport, Kept, Posted;
      FilteredNone(History(events));
      var init, e := events[..|events| - 1], events[|events| - 1];
      QueueRefinesFilter(init);
      var before := Run(init).value;
      var history := History(init);
      match e {
        case Post(m) =>
          PostedIsFiltered(history, before.queue, m);
          var extra := if Kept(history + [m], |history|) then [m] else [];
          assert before.handed + (before.queue.pending + extra) == (before.handed + before.queue.pending) + extra;
        case Serve =>
          var first, rest := before.queue.pending[0], before.queue.pending[1..];
          assert (before.handed + [first]) + rest == before.handed + before.queue.pending;
          assert History(events) == history;
      }
    }
  }

  lemma FilteredNone(history: seq<Message>)
    ensures Filtered(history, 0) == []
  {
  }

  lemma Bit1(low: byte, high: byte)
    ensures (low as int + 0x100 * (high as int)) / 2 % 2 == low / 2 % 2
  {
    var word := low as int + 0x100 * (high as int);
    assert word / 2 == low / 2 + 0x80 * (high as int);
    assert word / 2 == low / 2 + 2 * (0x40 * (high as int));
  }

  lemma Bit7(low: byte, high: byte)
    ensures (low as int + 0x100 * (high as int)) / 0x80 % 2 == low / 0x80
  {
    var word := low as int + 0x100 * (high as int);
    assert word / 0x80 == low / 0x80 + 2 * (high as int);
  }

  lemma Bit12(low: byte, high: byte)
    ensures (low as int + 0x100 * (high as int)) / 0x1000 % 2 == high / 0x10 % 2
  {
    var word := low as int + 0x100 * (high as int);
    assert word == 0x1000 * (high / 0x10) + (low as int + 0x100 * (high % 0x10));
    assert word / 0x1000 == high / 0x10;
  }

  lemma WordBytes(report: Combined)
    ensures ButtonStatus(report) == report[0] as int + 0x100 * (report[1] as int)
    ensures LeftXAxis(report) == report[4] as int + 0x100 * (report[5] as int)
  {
  }

  /** What is usable, in the bytes of the report: bit 12 of left X is set, and bit 1 of the buttons, Pause, is not. */
  lemma UsableBytes(report: Combined)
    ensures Usable(report) <==> report[5] / 0x10 % 2 == 1 && report[0] / 2 % 2 == 0
    ensures RDownPressed(ButtonStatus(report)) <==> report[0] >= 0x80
  {
    WordBytes(report);
    hide ButtonStatus, LeftXAxis;
    Bit1(report[0], report[1]);
    Bit7(report[0], report[1]);
    Bit12(report[4], report[5]);
  }

  /**
   * Exactly what a posted report does: it is queued if it differs from the report
   * before it, its left X axis is flagged good, and Pause is not pressed; and it is
   * the one that the next is compared with, unless they are the same anyway.
   */
  lemma ReportQueuedExactly(q: Queue, report: Combined)
    ensures var next := Posted(q, JoystickInput(report));
      && next.lastJs == report
      && (next.pending == q.pending + [JoystickInput(report)]
          <==> report != q.lastJs && report[5] / 0x10 % 2 == 1 && report[0] / 2 % 2 == 0)
      && (next.pending == q.pending || next.pending == q.pending + [JoystickInput(report)])
  {
    UsableBytes(report);
    hide Usable, RDownPressed;
    assert |q.pending + [JoystickInput(report)]| == |q.pending| + 1;
  }

  /** Before any report, one of zeros with every button bit set counts as seen. */
  lemma FirstComparedWith()
    ensures Run([]).value.queue.lastJs == [0xFF, 0xFF, 0, 0, 0, 0, 0, 0, 0, 0, 0, 0, 0, 0, 0, 0, 0, 0]
  {
  }
}
