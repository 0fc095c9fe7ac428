/**
 * The service thread, the joystick thread and the JAUS middleware interleaved. A
 * send and the write of the pending flag behind it are two actions, and so are
 * the two halves of a callback; anything can happen in between.
 */
module WakeUp {
  import opened Bytes
  import opened Report
  import JC = JausClient
  import V = Vehicle
  import BQ = BridgeQueue
  import VSM = VehicleStateMachine
  import JausBridge

  /** Where the service thread stands: waiting, or in the middle of a handler. */
  datatype Pc =
    | Idle
    | Taken(m: BQ.Message)
    | AskAgain            // ControlState has seen hasControl() false and will call sendRequestControl()
    | QueryAfterResume    // StandbyState has called sendRequestResume() and will call queryStatus()
    | QueryAgain          // StandbyState has seen hasReadyState() false and will call queryStatus()
    | FlagWrite           // a request has gone out and requestPending is still to be set
    | Ended               // the service loop has been left

  /** posting: callbacks that have written the flags and not yet queued their response. */
  datatype World = World(
    queue: BQ.Queue, client: JC.Client, machine: V.VehicleState, pc: Pc, posting: nat, running: bool)

  const START: World := World(BQ.Queue(BQ.INITIAL_JS, []), JC.INITIAL, V.START, Idle, 0, true)

  datatype Action =
    | Post(report: Combined)
    | Callback(incoming: JC.Incoming)
    | PostResponse
    | Take
    | Proceed(found: seq<JC.Address>, now: int)
    | Tick(alive: bool, now: int)
    | Stop
    | Leave

  predicate Enabled(w: World, a: Action) {
    match a
    case PostResponse => w.posting > 0
    case Take => w.pc == Idle && w.running && w.queue.pending != []
    case Proceed(_, _) => w.pc != Idle && w.pc != Ended
    case Tick(_, _) => w.pc == Idle
    case Leave => w.pc == Idle && !w.running
    case _ => true
  }

  /** The input makes StandbyState send its resume request. */
  predicate Resumes(s: V.VehicleState, report: Combined) {
    s.Standby? && V.RDown(report) && !s.rDownPressed && !s.resumeRequested
  }

  /** The last call of a handler: what it sends goes out now, and a pending flag it sets is written later. */
  function Called(w: World, next: JC.Client, machine: V.VehicleState): World {
    if next.requestPending && !w.client.requestPending then
      w.(client := next.(requestPending := false), machine := machine, pc := FlagWrite)
    else w.(client := next, machine := machine, pc := Idle)
  }

  function ProceedInput(w: World, report: Combined, found: seq<JC.Address>, now: int): World {
    if Resumes(w.machine, report) then
      w.(machine := V.Standby(w.client.serverAddress.valid, w.machine.readyStateGranted, true),
         client := JC.ResumeRequested(w.client), pc := QueryAfterResume)
    else
      var r := V.HandleInput(w.machine, report, VSM.InputAnswer(w.machine, w.client, found));
      Called(w, VSM.AllApplied(w.client, r.calls, found), V.Transition(r.state, now))
  }

  function ProceedResponse(w: World, now: int): World {
    if w.machine.Control? && !w.client.controlGranted then w.(pc := AskAgain)
    else if w.machine.Standby? && w.client.currentStatus != JC.READY then w.(pc := QueryAgain)
    else
      var r := V.HandleResponse(w.machine, VSM.ResponseAnswer(w.machine, w.client));
      w.(machine := V.Transition(r.state, now), pc := Idle)
  }

  function Step(w: World, a: Action): World
    requires Enabled(w, a)
  {
    match a
    case Post(report) => w.(queue := BQ.Posted(w.queue, BQ.JoystickInput(report)))
    case Callback(incoming) => w.(client := JC.Received(w.client, incoming), posting := w.posting + 1)
    case PostResponse => w.(queue := BQ.Posted(w.queue, BQ.JausResponse), posting := w.posting - 1)
    case Take => w.(queue := w.queue.(pending := w.queue.pending[1..]), pc := Taken(w.queue.pending[0]))
    case Tick(alive, now) => w.(machine := V.Step(w.machine, V.Update(alive, w.client.controlGranted, now)))
    case Stop => w.(running := false)
    case Leave => w.(pc := Ended)
    case Proceed(found, now) =>
      match w.pc
      case Taken(JoystickInput(report)) => ProceedInput(w, report, found, now)
      case Taken(JausResponse) => ProceedResponse(w, now)
      case AskAgain => Called(w, JC.ControlRequested(w.client), w.machine)
      case QueryAfterResume | QueryAgain => Called(w, JC.StatusQueried(w.client), V.Transition(w.machine, now))
      case FlagWrite => w.(client := w.client.(requestPending := true), pc := Idle)
  }

  /** The world after a run; None if some action was not possible. */
  function Run(actions: seq<Action>): Option<World> {
    if actions == [] then Some(START)
    else
      match Run(actions[..|actions| - 1])
      case None => None
      case Some(w) =>
        var a := actions[|actions| - 1];
        if Enabled(w, a) then Some(Step(w, a)) else None
  }

  /** The latest callback of the run came between a send and the write of the pending flag behind it. */
  predicate Overtaken(actions: seq<Action>)
    requires Run(actions).Some?
  {
    actions != [] &&
      var init := actions[..|actions| - 1];
      if actions[|actions| - 1].Callback? then Run(init).value.pc == FlagWrite else Overtaken(init)
  }

  /** The machine waits for an answer of the vehicle before it can go on. */
  predicate Waits(s: V.VehicleState) {
    (s.Control? && s.controlRequested) || (s.Standby? && s.resumeRequested)
  }

  /** A response has been called back and not yet handled. */
  predicate Answered(w: World) {
    w.posting > 0 || BQ.JausResponse in w.queue.pending
  }

  predicate InHandler(pc: Pc) {
    pc in {Taken(BQ.JausResponse), AskAgain, QueryAfterResume, QueryAgain, FlagWrite}
  }

  // -------------------------------------------------------------- invariants

  /** How the pending flag stands to the wire. */
  ghost predicate FlagKept(w: World, overtaken: bool) {
    var open := JC.Open(w.client.traffic);
    && !(open && overtaken)
    && (if w.pc == FlagWrite then !w.client.requestPending && (open || overtaken)
        else (w.client.requestPending <==> open || overtaken))
  }

  function Resumed(traffic: seq<JC.Traffic>): nat {
    if traffic == [] then 0
    else Resumed(traffic[..|traffic| - 1]) + if traffic[|traffic| - 1].Resume? then 1 else 0
  }

  /** How many resume requests the machine's state allows for. */
  ghost predicate ResumesKept(s: V.VehicleState, resumed: nat) {
    match s
    case Initialize(_, _) => resumed == 0
    case Control(_, _, _) => resumed == 0
    case Standby(requested, _, _) => resumed == if requested then 1 else 0
    case _ => resumed <= 1
  }

  ghost predicate HandlerFits(w: World) {
    && (w.pc == AskAgain ==> w.machine.Control?)
    && (w.pc in {QueryAfterResume, QueryAgain} ==> w.machine.Standby?)
  }

  ghost predicate WaitKept(w: World) {
    Waits(w.machine) ==>
      w.client.serverAddress.valid && (w.client.requestPending || Answered(w) || InHandler(w.pc))
  }

  ghost predicate Inv(w: World, overtaken: bool) {
    && V.Settled(w.machine)
    && HandlerFits(w)
    && WaitKept(w)
    && ResumesKept(w.machine, Resumed(w.client.traffic))
    && JC.Separated(w.client.traffic)
    && FlagKept(w, overtaken)
  }

  /**
   * What one call does to the traffic and the flag: nothing, or one message, and the
   * flag with it if it awaits an answer.
   */
  lemma CallSends(c: JC.Client, call: V.Call, found: seq<JC.Address>)
    requires JC.Separated(c.traffic) && (JC.Open(c.traffic) ==> c.requestPending)
    ensures var next := VSM.Applied(c, call, found);
      && JC.Separated(next.traffic)
      && (next.requestPending == c.requestPending ==> JC.Open(next.traffic) == JC.Open(c.traffic))
      && (next.requestPending != c.requestPending ==> next.requestPending && JC.Open(next.traffic))
      && Resumed(next.traffic)
         == Resumed(c.traffic) + if call.Resume? && c.serverAddress.valid then 1 else 0
  {
    hide JC.Separated, JC.Open, Resumed;
    var next := VSM.Applied(c, call, found);
    if next.traffic != c.traffic {
      var t := next.traffic[|next.traffic| - 1];
      assert next.traffic == c.traffic + [t];
      JC.TrafficGrows(c.traffic, t);
      ResumedNext(c.traffic, t);
    }
  }

  lemma ResumedNext(traffic: seq<JC.Traffic>, t: JC.Traffic)
    ensures Resumed(traffic + [t]) == Resumed(traffic) + if t.Resume? then 1 else 0
  {
    assert (traffic + [t])[..|traffic|] == traffic;
  }

  lemma PostedKeepsResponses(q: BQ.Queue, m: BQ.Message)
    ensures BQ.JausResponse in q.pending ==> BQ.JausResponse in BQ.Posted(q, m).pending
    ensures BQ.JausResponse in BQ.Posted(q, BQ.JausResponse).pending
  {
  }

  lemma CallbackKeeps(w: World, incoming: JC.Incoming, overtaken: bool)
    requires Inv(w, overtaken)
    ensures Inv(Step(w, Callback(incoming)), w.pc == FlagWrite)
  {
    hide JC.Separated, JC.Open, Resumed, V.Settled;
    JC.TrafficGrows(w.client.traffic, JC.Callback);
    ResumedNext(w.client.traffic, JC.Callback);
  }

  /** The end of a handler with one call or none. */
  lemma CalledKeeps(w: World, next: JC.Client, machine: V.VehicleState, overtaken: bool)
    requires Inv(w, overtaken) && w.pc != FlagWrite
    requires V.Settled(machine) && ResumesKept(machine, Resumed(next.traffic)) && JC.Separated(next.traffic)
    requires next.requestPending == w.client.requestPending ==> JC.Open(next.traffic) == JC.Open(w.client.traffic)
    requires next.requestPending != w.client.requestPending ==> next.requestPending && JC.Open(next.traffic)
    requires Waits(machine) ==> next.serverAddress.valid && (next.requestPending || Answered(w))
    ensures Inv(Called(w, next, machine), overtaken)
  {
    hide JC.Separated, JC.Open, Resumed, V.Settled, ResumesKept, Waits;
  }

  lemma CallKeeps(w: World, call: V.Call, found: seq<JC.Address>, machine: V.VehicleState, overtaken: bool)
    requires Inv(w, overtaken) && w.pc != FlagWrite && !call.Resume?
    requires V.Settled(machine) && ResumesKept(machine, Resumed(w.client.traffic))
    requires Waits(machine) ==> VSM.Applied(w.client, call, found).serverAddress.valid
    requires Waits(machine) ==> VSM.Applied(w.client, call, found).requestPending || Answered(w)
    ensures Inv(Called(w, VSM.Applied(w.client, call, found), machine), overtaken)
  {
    hide JC.Separated, JC.Open, Resumed, V.Settled, ResumesKept, Waits, Answered, VSM.Applied, Called;
    CallSends(w.client, call, found);
    CalledKeeps(w, VSM.Applied(w.client, call, found), machine, overtaken);
  }

  lemma ResumeKeeps(w: World, report: Combined, found: seq<JC.Address>, now: int, overtaken: bool)
    requires Inv(w, overtaken) && w.pc == Taken(BQ.JoystickInput(report)) && Resumes(w.machine, report)
    ensures Inv(ProceedInput(w, report, found, now), overtaken)
  {
    hide JC.Separated, JC.Open, Resumed, V.RDown;
    CallSends(w.client, V.Resume, found);
  }

  lemma InputKeeps(w: World, report: Combined, found: seq<JC.Address>, now: int, overtaken: bool)
    requires Inv(w, overtaken) && w.pc == Taken(BQ.JoystickInput(report)) && !Resumes(w.machine, report)
    ensures Inv(ProceedInput(w, report, found, now), overtaken)
  {
    hide JC.Separated, JC.Open, Resumed, V.RDown, Called;
    var r := V.HandleInput(w.machine, report, VSM.InputAnswer(w.machine, w.client, found));
    var machine := V.Transition(r.state, now);
    if r.calls == [] {
      CalledKeeps(w, w.client, machine, overtaken);
    } else {
      assert r.calls == [r.calls[0]];
      VSM.AppliedInTurn(w.client, r.calls[0], V.Discover, found);
      CallKeeps(w, r.calls[0], found, machine, overtaken);
    }
  }

  lemma ProceedKeeps(w: World, found: seq<JC.Address>, now: int, overtaken: bool)
    requires Inv(w, overtaken) && w.pc != Idle && w.pc != Ended
    ensures Inv(Step(w, Proceed(found, now)), overtaken)
  {
    hide JC.Separated, JC.Open, Resumed, V.RDown;
    match w.pc
    case Taken(JoystickInput(report)) =>
      if Resumes(w.machine, report) {
        ResumeKeeps(w, report, found, now, overtaken);
      } else {
        InputKeeps(w, report, found, now, overtaken);
      }
    case Taken(JausResponse) =>
    case AskAgain => CallKeeps(w, V.RequestControl, found, w.machine, overtaken);
    case QueryAfterResume => CallKeeps(w, V.QueryStatus, found, w.machine, overtaken);
    case QueryAgain => CallKeeps(w, V.QueryStatus, found, w.machine, overtaken);
    case FlagWrite =>
  }

  lemma StepKeeps(w: World, a: Action, overtaken: bool)
    requires Inv(w, overtaken) && Enabled(w, a)
    ensures Inv(Step(w, a), if a.Callback? then w.pc == FlagWrite else overtaken)
  {
    hide JC.Separated, JC.Open, Resumed;
    match a
    case Post(report) => PostedKeepsResponses(w.queue, BQ.JoystickInput(report));
    case Callback(incoming) => CallbackKeeps(w, incoming, overtaken);
    case PostResponse => PostedKeepsResponses(w.queue, BQ.JausResponse);
    case Take => assert w.queue.pending == [w.queue.pending[0]] + w.queue.pending[1..];
    case Tick(alive, now) =>
    case Stop =>
    case Leave =>
    case Proceed(found, now) => ProceedKeeps(w, found, now, overtaken);
  }

  lemma {:induction false} RunKeeps(actions: seq<Action>)
    requires Run(actions).Some?
    ensures Inv(Run(actions).value, Overtaken(actions))
  {
    hide Inv, Step, Enabled;
    if actions == [] {
      StartIsFine();
    } else {
      var init, a := actions[..|actions| - 1], actions[|actions| - 1];
      RunKeeps(init);
      StepKeeps(Run(init).value, a, Overtaken(init));
    }
  }

  lemma StartIsFine()
    ensures Inv(START, false)
  {
  }

  // ---------------------------------------------------------------- wake-ups

  /**
   * No wake-up is lost unless a callback overtook a flag write: in every reachable
   * state, whenever the service thread is between messages and the machine waits
   * for an answer - control requested in Control, resume requested in Standby - a
   * request is unanswered on the wire, or a response has been called back and not
   * yet handled, or the latest callback of the run was an overtaking one.
   */
  lemma NoLostWakeUp(actions: seq<Action>)
    requires Run(actions).Some?
    ensures var w := Run(actions).value;
      Waits(w.machine) && w.pc == Idle ==> JC.Open(w.client.traffic) || Answered(w) || Overtaken(actions)
  {
    hide Run, JC.Separated, JC.Open, Resumed, V.Settled;
    RunKeeps(actions);
  }

  /**
   * What the pending flag says, in every run: between calls it is set exactly when
   * a control request or status query is unanswered or the latest callback was an
   * overtaking one, and never both.
   */
  lemma FlagMeaning(actions: seq<Action>)
    requires Run(actions).Some?
    ensures var w := Run(actions).value;
      && (w.pc != FlagWrite ==> (w.client.requestPending <==> JC.Open(w.client.traffic) || Overtaken(actions)))
      && !(JC.Open(w.client.traffic) && Overtaken(actions))
  {
    hide Run, JC.Separated, JC.Open, Resumed;
    RunKeeps(actions);
  }

  /**
   * Exactly when a wake-up is lost. Between messages, with the machine waiting and
   * no response on its way to the handler, a request is still unanswered on the
   * wire if and only if the latest callback did not overtake a flag write.
   */
  lemma WakeUpExactly(actions: seq<Action>)
    requires Run(actions).Some?
    requires var w := Run(actions).value; Waits(w.machine) && w.pc == Idle && !Answered(w)
    ensures JC.Open(Run(actions).value.client.traffic) <==> !Overtaken(actions)
  {
    hide Run, JC.Open, Waits, Answered, Overtaken;
    NoLostWakeUp(actions);
    FlagMeaning(actions);
  }

  /**
   * On the wire of every run there is a callback between any two requests that
   * await an answer (RequestControl, QueryStatus), and at most one Resume, which
   * only Standby sends.
   */
  lemma RequestsAlternateWithCallbacks(actions: seq<Action>)
    requires Run(actions).Some?
    ensures var w := Run(actions).value;
      && JC.Separated(w.client.traffic)
      && Resumed(w.client.traffic) <= 1
      && (Resumed(w.client.traffic) == 1 ==> V.Phase(w.machine) >= 2)
      && (w.machine.Standby? ==> (Resumed(w.client.traffic) == 1 <==> w.machine.resumeRequested))
  {
    hide Run, JC.Separated, JC.Open, Resumed;
    RunKeeps(actions);
  }

  /** A lost wake-up: the machine waits, the flag is set, and nothing is on its way. */
  predicate Stuck(w: World) {
    && Waits(w.machine) && w.client.requestPending && !Answered(w)
    && (w.pc == Idle || w.pc == Ended || w.pc.Taken?) && w.pc != Taken(BQ.JausResponse)
  }

  /** The world after more actions; None if some action was not possible. */
  function RunFrom(w: World, actions: seq<Action>): Option<World> {
    if actions == [] then Some(w)
    else
      match RunFrom(w, actions[..|actions| - 1])
      case None => None
      case Some(w') =>
        var a := actions[|actions| - 1];
        if Enabled(w', a) then Some(Step(w', a)) else None
  }

  lemma StuckStep(w: World, a: Action)
    requires V.Settled(w.machine) && Stuck(w) && Enabled(w, a) && !a.Callback?
    ensures Stuck(Step(w, a)) && V.Settled(Step(w, a).machine)
    ensures Step(w, a).client == w.client && V.Phase(Step(w, a).machine) == V.Phase(w.machine)
  {
    hide V.RDown, BQ.Usable;
    match a
    case Take => assert w.queue.pending == [w.queue.pending[0]] + w.queue.pending[1..];
    case _ =>
  }

  /**
   * From a lost wake-up only another callback helps: until one comes, nothing is
   * sent and the machine stays where it is, whatever the operator presses.
   */
  lemma {:induction false} StuckUntilCallback(w: World, actions: seq<Action>)
    requires V.Settled(w.machine) && Stuck(w) && RunFrom(w, actions).Some?
    requires forall i :: 0 <= i < |actions| ==> !actions[i].Callback?
    ensures var w' := RunFrom(w, actions).value;
      && Stuck(w') && V.Settled(w'.machine)
      && w'.client == w.client && V.Phase(w'.machine) == V.Phase(w.machine)
  {
    hide Stuck, V.Settled, Step, Enabled;
    if actions != [] {
      var init, a := actions[..|actions| - 1], actions[|actions| - 1];
      StuckUntilCallback(w, init);
      StuckStep(RunFrom(w, init).value, a);
    }
  }

  lemma RunOne(actions: seq<Action>, a: Action)
    requires Run(actions).Some? && Enabled(Run(actions).value, a)
    ensures Run(actions + [a]) == Some(Step(Run(actions).value, a))
    ensures Overtaken(actions + [a]) == if a.Callback? then Run(actions).value.pc == FlagWrite else Overtaken(actions)
  {
    assert (actions + [a])[..|actions|] == actions;
  }

  /** A report that reaches the machine and has R-Down held. */
  ghost predicate Held(report: Combined) {
    BQ.Usable(report) && V.RDown(report)
  }

  lemma TwoReports() returns (p: Combined, q: Combined)
    ensures Held(p) && Held(q) && p != BQ.INITIAL_JS && q != p
  {
    p := [0x80, 0, 0, 0, 0, 0x10, 0, 0, 0, 0, 0, 0, 0, 0, 0, 0, 0, 0];
    q := [0x80, 0, 1, 0, 0, 0x10, 0, 0, 0, 0, 0, 0, 0, 0, 0, 0, 0, 0];
    assert BQ.INITIAL_JS[0] == 0xFF;
    assert q[2] != p[2];
    assert RDownPressed(0x80) && !PausePressed(0x80) && DataOk(0x1000);
  }

  /**
   * R-Down held over two reports that differ: on the first the vehicle is found; to
   * the new ControlState the second is a press, and control is asked for, but the
   * flag not yet written.
   */
  lemma ControlAsked(p: Combined, q: Combined) returns (actions: seq<Action>)
    requires Held(p) && Held(q) && p != BQ.INITIAL_JS && q != p
    ensures Run(actions).Some? && !Overtaken(actions)
    ensures var w := Run(actions).value;
      && w == World(BQ.Queue(q, []), w.client, V.Control(true, false, true), FlagWrite, 0, true)
      && w.client == JC.Client(JC.Address(1, true), false, false, JC.INITIALIZE, [JC.RequestControl])
  {
    hide V.RDown, BQ.Usable, Run, Overtaken;
    RunOfNone();
    var found := [JC.Address(1, true)];
    RunOne([], Post(p));
    actions := [] + [Post(p)];
    RunOne(actions, Take);
    actions := actions + [Take];
    VSM.AppliedInTurn(JC.INITIAL, V.Discover, V.Discover, found);
    RunOne(actions, Proceed(found, 0));
    actions := actions + [Proceed(found, 0)];
    var w := Run(actions).value;
    assert w.machine == V.Control(false, false, false) && w.pc == Idle && w.client.traffic == [];
    RunOne(actions, Post(q));
    actions := actions + [Post(q)];
    RunOne(actions, Take);
    actions := actions + [Take];
    VSM.AppliedInTurn(w.client, V.RequestControl, V.Discover, []);
    RunOne(actions, Proceed([], 0));
    actions := actions + [Proceed([], 0)];
  }

  lemma RunOfNone()
    ensures Run([]) == Some(START) && !Overtaken([])
  {
  }

  /**
   * A wake-up can be lost. The vehicle rejects the control request before the
   * flag behind it is written: the handler of the response then finds the stale
   * flag set, asks nothing, and the machine waits for an answer that nobody owes.
   */
  lemma WakeUpLost() returns (actions: seq<Action>)
    ensures Run(actions).Some? && Overtaken(actions)
    ensures var w := Run(actions).value;
      w.pc == Idle && Stuck(w) && w.machine.Control? && !JC.Open(w.client.traffic)
  {
    var p, q := TwoReports();
    actions := ControlAsked(p, q);
    hide V.RDown, BQ.Usable, Run, Overtaken;
    RunOne(actions, Callback(JC.ControlResponse(false)));
    actions := actions + [Callback(JC.ControlResponse(false))];
    RunOne(actions, Proceed([], 0));
    actions := actions + [Proceed([], 0)];
    RunOne(actions, PostResponse);
    actions := actions + [PostResponse];
    RunOne(actions, Take);
    actions := actions + [Take];
    RunOne(actions, Proceed([], 0));
    actions := actions + [Proceed([], 0)];
    RunOne(actions, Proceed([], 0));
    actions := actions + [Proceed([], 0)];
    assert Run(actions).value.client.traffic == [JC.RequestControl] + [JC.Callback];
  }

  // ---------------------------------------------------- uninterrupted handlers

  /** A handler that nothing interrupts, run to its end. */
  function Finish(w: World, found: seq<JC.Address>, now: int): World
    requires w.pc != Idle && w.pc != Ended
  {
    var once := Step(w, Proceed(found, now));
    if once.pc == Idle then once
    else
      var twice := Step(once, Proceed(found, now));
      if twice.pc == Idle then twice else Step(twice, Proceed(found, now))
  }

  /** The whole handler is one step of the state machine with the real client's answers, and one pass over its calls. */
  ghost predicate IsOneStep(w: World, found: seq<JC.Address>, now: int)
    requires w.pc.Taken?
  {
    var e := JausBridge.EventOf(w.pc.m, w.machine, w.client, found, now);
    var done := Finish(w, found, now);
    && done.pc == Idle && done.queue == w.queue && done.posting == w.posting
    && done.machine == V.Step(w.machine, e)
    && done.client == VSM.AllApplied(w.client, V.Handle(w.machine, e).calls, found)
  }

  lemma UninterruptedResume(w: World, found: seq<JC.Address>, now: int)
    requires V.Settled(w.machine) && w.pc.Taken? && w.pc.m.JoystickInput? && Resumes(w.machine, w.pc.m.report)
    ensures IsOneStep(w, found, now)
  {
    hide V.RDown;
    VSM.AppliedInTurn(w.client, V.Resume, V.QueryStatus, found);
    hide VSM.AllApplied;
  }

  lemma UninterruptedInput(w: World, found: seq<JC.Address>, now: int)
    requires w.pc.Taken? && w.pc.m.JoystickInput? && !Resumes(w.machine, w.pc.m.report)
    ensures IsOneStep(w, found, now)
  {
    hide V.RDown, VSM.AllApplied;
    var r := V.HandleInput(w.machine, w.pc.m.report, VSM.InputAnswer(w.machine, w.client, found));
    VSM.AppliedInTurn(w.client, V.RequestControl, V.Discover, found);
    hide V.Transition;
  }

  lemma UninterruptedResponse(w: World, found: seq<JC.Address>, now: int)
    requires V.Settled(w.machine) && w.pc.Taken? && w.pc.m.JausResponse?
    ensures IsOneStep(w, found, now)
  {
    VSM.AppliedInTurn(w.client, V.RequestControl, V.Discover, found);
    VSM.AppliedInTurn(w.client, V.QueryStatus, V.Discover, found);
    hide VSM.AllApplied;
  }

  /** Uninterrupted, the sub-steps of a handler are one step of the machine. */
  lemma UninterruptedIsOneStep(w: World, found: seq<JC.Address>, now: int)
    requires V.Settled(w.machine) && w.pc.Taken?
    ensures IsOneStep(w, found, now)
  {
    hide IsOneStep, V.Settled;
    match w.pc.m
    case JoystickInput(report) =>
      if Resumes(w.machine, report) {
        UninterruptedResume(w, found, now);
      } else {
        UninterruptedInput(w, found, now);
      }
    case JausResponse => UninterruptedResponse(w, found, now);
  }
}
