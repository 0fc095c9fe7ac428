/**
 * What holds of the interleaved threads of WakeUp over whole runs: what every
 * wrench effort was preceded by, how little the operator has to press, and how
 * the service thread ends.
 */
module BridgeRuns {
  import opened Bytes
  import opened Report
  import opened WakeUp
  import JC = JausClient
  import V = Vehicle
  import BQ = BridgeQueue
  import VSM = VehicleStateMachine
  import WE = WrenchEffort

  // ------------------------------------------------- before any wrench effort

  ghost predicate ControlAccepted(actions: seq<Action>) {
    Callback(JC.ControlResponse(true)) in actions
  }

  ghost predicate ReadyReported(actions: seq<Action>) {
    Callback(JC.ReportStatus(JC.READY)) in actions
  }

  ghost predicate RDownPosted(actions: seq<Action>) {
    exists i :: 0 <= i < |actions| && actions[i].Post? && Held(actions[i].report)
  }

  ghost predicate VehicleListed(actions: seq<Action>) {
    exists i :: 0 <= i < |actions| && actions[i].Proceed? && actions[i].found != []
  }

  ghost predicate UsablePosted(actions: seq<Action>, report: Combined) {
    Post(report) in actions && BQ.Usable(report)
  }

  /** A joystick message was posted, and is usable. */
  ghost predicate MessagePosted(actions: seq<Action>, m: BQ.Message) {
    m.JoystickInput? ==> UsablePosted(actions, m.report)
  }

  /** What the client's flags, the machine's phase and the queued messages owe to the past. */
  ghost predicate Owed(w: World, actions: seq<Action>) {
    && (w.client.controlGranted ==> ControlAccepted(actions))
    && (w.client.currentStatus == JC.READY ==> ReadyReported(actions))
    && (V.Phase(w.machine) >= 1 ==> RDownPosted(actions) && VehicleListed(actions))
    && (V.Phase(w.machine) >= 2 ==> ControlAccepted(actions))
    && (V.Phase(w.machine) >= 3 ==> ReadyReported(actions))
  }

  ghost predicate AllPosted(w: World, actions: seq<Action>) {
    && (forall m :: m in w.queue.pending ==> MessagePosted(actions, m))
    && (w.pc.Taken? ==> MessagePosted(actions, w.pc.m))
  }

  lemma OwedGrows(w: World, actions: seq<Action>, a: Action)
    ensures Owed(w, actions) ==> Owed(w, actions + [a])
    ensures AllPosted(w, actions) ==> AllPosted(w, actions + [a])
  {
    var longer := actions + [a];
    hide Held, BQ.Usable;
    if RDownPosted(actions) {
      var i :| 0 <= i < |actions| && actions[i].Post? && Held(actions[i].report);
      assert longer[i] == actions[i];
    }
    if VehicleListed(actions) {
      var i :| 0 <= i < |actions| && actions[i].Proceed? && actions[i].found != [];
      assert longer[i] == actions[i];
    }
  }

  lemma PostedStays(w: World, a: Action, actions: seq<Action>)
    requires Enabled(w, a) && AllPosted(w, actions) && a in actions
    ensures AllPosted(Step(w, a), actions)
  {
    hide V.RDown, BQ.Usable;
  }

  lemma CallbackOwed(w: World, incoming: JC.Incoming, actions: seq<Action>)
    requires Owed(w, actions)
    ensures Owed(Step(w, Callback(incoming)), actions + [Callback(incoming)])
  {
    OwedGrows(w, actions, Callback(incoming));
    hide RDownPosted, VehicleListed;
  }

  /** The handling of a report enters Control only on a held R-Down and with a vehicle listed. */
  lemma InputOwed(w: World, report: Combined, found: seq<JC.Address>, now: int, actions: seq<Action>)
    requires V.Settled(w.machine) && Owed(w, actions) && UsablePosted(actions, report)
    requires w.pc == Taken(BQ.JoystickInput(report))
    ensures Owed(ProceedInput(w, report, found, now), actions + [Proceed(found, now)])
  {
    var longer := actions + [Proceed(found, now)];
    OwedGrows(w, actions, Proceed(found, now));
    if w.machine.Initialize? && V.RDown(report) && found != [] {
      EntersControl(longer, report, found, now);
    }
    hide RDownPosted, VehicleListed, ControlAccepted, ReadyReported, V.RDown, BQ.Usable;
    var r := V.HandleInput(w.machine, report, VSM.InputAnswer(w.machine, w.client, found));
    if r.calls != [] && !Resumes(w.machine, report) {
      assert r.calls == [r.calls[0]];
      VSM.AppliedInTurn(w.client, r.calls[0], V.Discover, found);
    }
  }

  lemma EntersControl(actions: seq<Action>, report: Combined, found: seq<JC.Address>, now: int)
    requires UsablePosted(actions, report) && V.RDown(report) && found != [] && Proceed(found, now) in actions
    ensures RDownPosted(actions) && VehicleListed(actions)
  {
    hide V.RDown, BQ.Usable;
    var i :| 0 <= i < |actions| && actions[i] == Post(report);
    var j :| 0 <= j < |actions| && actions[j] == Proceed(found, now);
    assert Held(actions[i].report);
  }

  lemma ProceedOwed(w: World, found: seq<JC.Address>, now: int, actions: seq<Action>)
    requires V.Settled(w.machine) && Owed(w, actions) && AllPosted(w, actions) && w.pc != Idle && w.pc != Ended
    ensures Owed(Step(w, Proceed(found, now)), actions + [Proceed(found, now)])
  {
    OwedGrows(w, actions, Proceed(found, now));
    hide RDownPosted, VehicleListed, ControlAccepted, ReadyReported, V.RDown, BQ.Usable;
    match w.pc
    case Taken(JoystickInput(report)) => InputOwed(w, report, found, now, actions);
    case _ =>
  }

  lemma StepOwed(w: World, a: Action, actions: seq<Action>)
    requires V.Settled(w.machine) && Owed(w, actions) && AllPosted(w, actions) && Enabled(w, a)
    ensures Owed(Step(w, a), actions + [a]) && AllPosted(Step(w, a), actions + [a])
  {
    OwedGrows(w, actions, a);
    PostedStays(w, a, actions + [a]);
    hide RDownPosted, VehicleListed, ControlAccepted, ReadyReported, AllPosted;
    match a
    case Callback(incoming) => CallbackOwed(w, incoming, actions);
    case Proceed(found, now) => ProceedOwed(w, found, now, actions);
    case _ =>
  }

  lemma {:induction false} RunOwed(actions: seq<Action>)
    requires Run(actions).Some?
    ensures Owed(Run(actions).value, actions) && AllPosted(Run(actions).value, actions)
  {
    hide Step, Enabled, Owed, AllPosted, Inv;
    if actions == [] {
      StartOwed();
    } else {
      var init, a := actions[..|actions| - 1], actions[|actions| - 1];
      RunOwed(init);
      SettledInRun(init);
      StepOwed(Run(init).value, a, init);
      assert init + [a] == actions;
    }
  }

  lemma SettledInRun(actions: seq<Action>)
    requires Run(actions).Some?
    ensures V.Settled(Run(actions).value.machine)
  {
    hide Run, V.Settled, HandlerFits, WaitKept, ResumesKept, FlagKept, JC.Separated;
    RunKeeps(actions);
  }

  lemma StartOwed()
    ensures Owed(START, []) && AllPosted(START, [])
  {
  }

  /** A wrench effort goes out only while a report is handled in Ready, and is the effort of that report. */
  lemma WrenchOnlyFromReady(w: World, a: Action, effort: WE.Effort)
    requires V.Settled(w.machine) && Enabled(w, a)
    requires Step(w, a).client.traffic == w.client.traffic + [JC.WrenchEffort(effort)]
    ensures w.machine.Ready? && w.pc.Taken? && w.pc.m.JoystickInput? && effort == WE.EffortOf(w.pc.m.report)
  {
    hide V.RDown, BQ.Usable, WE.EffortOf;
    var last := Step(w, a).client.traffic[|w.client.traffic|];
    assert last == JC.WrenchEffort(effort);
    if w.pc.Taken? && w.pc.m.JoystickInput? && a.Proceed? {
      var report := w.pc.m.report;
      var r := V.HandleInput(w.machine, report, VSM.InputAnswer(w.machine, w.client, a.found));
      if r.calls != [] && !Resumes(w.machine, report) {
        assert r.calls == [r.calls[0]];
        VSM.AppliedInTurn(w.client, r.calls[0], V.Discover, a.found);
      }
    }
  }

  /**
   * Run safety with the real client and all threads interleaved: before any wrench
   * effort goes out, a report with R-Down held was posted, a vehicle was listed,
   * the vehicle accepted control and reported READY; and the effort is that of a
   * usable report posted before it.
   */
  lemma WrenchIsAuthorised(actions: seq<Action>, a: Action, effort: WE.Effort)
    requires Run(actions).Some? && Enabled(Run(actions).value, a)
    requires Step(Run(actions).value, a).client.traffic
          == Run(actions).value.client.traffic + [JC.WrenchEffort(effort)]
    ensures RDownPosted(actions) && VehicleListed(actions)
    ensures ControlAccepted(actions) && ReadyReported(actions)
    ensures exists report :: UsablePosted(actions, report) && effort == WE.EffortOf(report)
  {
    hide Run, Step, Enabled, RDownPosted, VehicleListed, ControlAccepted, ReadyReported, UsablePosted, WE.EffortOf;
    SettledInRun(actions);
    RunOwed(actions);
    var w := Run(actions).value;
    WrenchOnlyFromReady(w, a, effort);
    assert UsablePosted(actions, w.pc.m.report);
  }

  /** The wrench efforts on the wire, in order. */
  function EffortsSent(traffic: seq<JC.Traffic>): seq<WE.Effort> {
    if traffic == [] then []
    else
      EffortsSent(traffic[..|traffic| - 1]) +
      match traffic[|traffic| - 1]
      case WrenchEffort(effort) => [effort]
      case _ => []
  }

  /** The efforts of the reports that the service thread has handled in Ready. */
  ghost function EffortsOfReports(actions: seq<Action>): seq<WE.Effort>
    requires Run(actions).Some?
  {
    if actions == [] then []
    else
      var init, w := actions[..|actions| - 1], Run(actions[..|actions| - 1]).value;
      EffortsOfReports(init) +
      if actions[|actions| - 1].Proceed? && w.machine.Ready? && w.pc.Taken? && w.pc.m.JoystickInput?
      then [WE.EffortOf(w.pc.m.report)] else []
  }

  /** What one call puts on the wire. */
  lemma CallEfforts(c: JC.Client, call: V.Call, found: seq<JC.Address>)
    ensures EffortsSent(VSM.Applied(c, call, found).traffic)
         == EffortsSent(c.traffic) + if call.WrenchEffort? then [WE.EffortOf(call.report)] else []
  {
    hide WE.EffortOf;
    var next := VSM.Applied(c, call, found).traffic;
    if next != c.traffic {
      assert next[..|c.traffic|] == c.traffic;
    } else {
      assert EffortsSent(next) == EffortsSent(c.traffic) + [];
    }
  }

  lemma InputEfforts(w: World, report: Combined, found: seq<JC.Address>, now: int)
    requires w.pc == Taken(BQ.JoystickInput(report))
    ensures EffortsSent(ProceedInput(w, report, found, now).client.traffic)
         == EffortsSent(w.client.traffic) + if w.machine.Ready? then [WE.EffortOf(report)] else []
  {
    hide WE.EffortOf, EffortsSent, V.RDown, V.Transition;
    var r := V.HandleInput(w.machine, report, VSM.InputAnswer(w.machine, w.client, found));
    if Resumes(w.machine, report) {
      CallEfforts(w.client, V.Resume, found);
    } else if r.calls != [] {
      assert r.calls == [r.calls[0]];
      VSM.AppliedInTurn(w.client, r.calls[0], V.Discover, found);
      CallEfforts(w.client, r.calls[0], found);
    }
  }

  lemma StepEfforts(w: World, a: Action)
    requires Enabled(w, a)
    ensures EffortsSent(Step(w, a).client.traffic) == EffortsSent(w.client.traffic) +
      if a.Proceed? && w.machine.Ready? && w.pc.Taken? && w.pc.m.JoystickInput?
      then [WE.EffortOf(w.pc.m.report)] else []
  {
    hide WE.EffortOf, EffortsSent, V.RDown, V.Transition, ProceedInput, V.HandleResponse, V.Step;
    match a
    case Callback(incoming) => CallbackEfforts(w.client, incoming);
    case Proceed(found, now) =>
      CallEfforts(w.client, V.RequestControl, found);
      CallEfforts(w.client, V.QueryStatus, found);
      match w.pc {
        case Taken(JoystickInput(report)) => InputEfforts(w, report, found, now);
        case _ =>
      }
    case _ =>
  }

  lemma CallbackEfforts(c: JC.Client, incoming: JC.Incoming)
    ensures EffortsSent(JC.Received(c, incoming).traffic) == EffortsSent(c.traffic)
  {
    assert (c.traffic + [JC.Callback])[..|c.traffic|] == c.traffic;
  }

  /**
   * Over every run of all threads, with the real client: the wrench efforts on the
   * wire are exactly those of the reports handled in Ready, one each and in order.
   */
  lemma {:induction false} WrenchesAreReports(actions: seq<Action>)
    requires Run(actions).Some?
    ensures EffortsSent(Run(actions).value.client.traffic) == EffortsOfReports(actions)
  {
    hide Step, Enabled, WE.EffortOf;
    if actions != [] {
      var init := actions[..|actions| - 1];
      WrenchesAreReports(init);
      StepEfforts(Run(init).value, actions[|actions| - 1]);
    }
  }

  // -------------------------------------------------- the client, from its callbacks

  predicate GivesControl(a: Action) {
    a == Callback(JC.ControlResponse(true))
  }

  /** A refused control request, or a confirmed release. */
  predicate TakesControl(a: Action) {
    a == Callback(JC.ControlResponse(false)) || a == Callback(JC.ReleaseResponse(true))
  }

  ghost predicate GivenAt(actions: seq<Action>, i: nat) {
    && i < |actions| && GivesControl(actions[i])
    && forall j :: i < j < |actions| ==> !TakesControl(actions[j])
  }

  /** Control was accepted, and neither refused nor released since. */
  ghost predicate ControlHeld(actions: seq<Action>) {
    exists i: nat :: GivenAt(actions, i)
  }

  /** The status last reported. */
  function LatestStatus(actions: seq<Action>): JC.Status {
    if actions == [] then JC.INITIALIZE
    else
      match actions[|actions| - 1]
      case Callback(ReportStatus(status)) => status
      case _ => LatestStatus(actions[..|actions| - 1])
  }

  lemma ControlStep(actions: seq<Action>, a: Action)
    ensures ControlHeld(actions + [a]) <==> GivesControl(a) || (!TakesControl(a) && ControlHeld(actions))
  {
    var longer := actions + [a];
    hide GivesControl, TakesControl;
    if GivesControl(a) {
      assert GivenAt(longer, |actions|);
    } else if !TakesControl(a) && ControlHeld(actions) {
      var i: nat :| GivenAt(actions, i);
      assert GivenAt(longer, i);
    }
    if ControlHeld(longer) && !GivesControl(a) {
      var i: nat :| GivenAt(longer, i);
      assert longer[|actions|] == a;
      assert forall j :: 0 <= j < |actions| ==> longer[j] == actions[j];
      assert GivenAt(actions, i);
    }
  }

  /** What one action does to the two flags that callbacks carry. */
  lemma ClientStep(w: World, a: Action)
    requires Enabled(w, a)
    ensures Step(w, a).client.controlGranted == (GivesControl(a) || (!TakesControl(a) && w.client.controlGranted))
    ensures Step(w, a).client.currentStatus == match a
      case Callback(ReportStatus(status)) => status
      case _ => w.client.currentStatus
  {
    hide V.RDown, V.Transition, V.HandleResponse, V.Step;
    if a.Proceed? && w.pc.Taken? && w.pc.m.JoystickInput? {
      InputKeepsFlags(w, w.pc.m.report, a.found, a.now);
    }
  }

  lemma InputKeepsFlags(w: World, report: Combined, found: seq<JC.Address>, now: int)
    requires w.pc == Taken(BQ.JoystickInput(report))
    ensures var next := ProceedInput(w, report, found, now).client;
      next.controlGranted == w.client.controlGranted && next.currentStatus == w.client.currentStatus
  {
    hide V.RDown, V.Transition, WE.EffortOf;
    var r := V.HandleInput(w.machine, report, VSM.InputAnswer(w.machine, w.client, found));
    if r.calls != [] && !Resumes(w.machine, report) {
      assert r.calls == [r.calls[0]];
      VSM.AppliedInTurn(w.client, r.calls[0], V.Discover, found);
    }
  }

  /**
   * Over every run of all threads, the client believes what the callbacks said last:
   * about control, and about the status.
   */
  lemma {:induction false} ClientIsHistory(actions: seq<Action>)
    requires Run(actions).Some?
    ensures Run(actions).value.client.controlGranted <==> ControlHeld(actions)
    ensures Run(actions).value.client.currentStatus == LatestStatus(actions)
  {
    hide Step, Enabled, GivesControl, TakesControl, ControlHeld;
    if actions == [] {
      NoneHeld();
    } else {
      var init, a := actions[..|actions| - 1], actions[|actions| - 1];
      ClientIsHistory(init);
      ClientStep(Run(init).value, a);
      ControlStep(init, a);
      assert init + [a] == actions;
    }
  }

  lemma NoneHeld()
    ensures !ControlHeld([])
  {
  }

  /**
   * What a report does in Initialize. With R-Down newly held, the machine goes on to
   * Control exactly if the registry lists a vehicle, and the first one listed becomes
   * the address of every later message; otherwise nothing but the press is noted.
   */
  lemma DiscoveryExactly(w: World, report: Combined, found: seq<JC.Address>, now: int)
    requires w.pc == Taken(BQ.JoystickInput(report)) && w.machine.Initialize? && !w.machine.vehicleFound
    ensures var next := Step(w, Proceed(found, now));
      if V.RDown(report) && !w.machine.rDownPressed && found != [] then
        && next.machine == V.Control(false, false, false)
        && next.client == w.client.(serverAddress := found[0])
      else next.machine == V.Initialize(false, V.RDown(report)) && next.client == w.client
  {
    hide V.RDown;
    VSM.AppliedInTurn(w.client, V.Discover, V.Discover, found);
  }

  /** The messages that are sent to the vehicle's address only if it is valid. */
  predicate NeedsAddress(t: JC.Traffic) {
    t.RequestControl? || t.QueryStatus? || t.Resume?
  }

  ghost predicate NoneNeeds(traffic: seq<JC.Traffic>) {
    forall i :: 0 <= i < |traffic| ==> !NeedsAddress(traffic[i])
  }

  ghost predicate Addressed(w: World) {
    && (NoneNeeds(w.client.traffic) || w.client.serverAddress.valid)
    && (w.machine.Initialize? ==> NoneNeeds(w.client.traffic))
  }

  lemma CallAddressed(c: JC.Client, call: V.Call, found: seq<JC.Address>)
    requires NoneNeeds(c.traffic) || c.serverAddress.valid
    ensures call.Discover? ==> VSM.Applied(c, call, found).traffic == c.traffic
    ensures !call.Discover? ==>
      var next := VSM.Applied(c, call, found);
      next.serverAddress == c.serverAddress && (NoneNeeds(next.traffic) || next.serverAddress.valid)
  {
    hide WE.EffortOf;
  }

  lemma InputAddressed(w: World, report: Combined, found: seq<JC.Address>, now: int)
    requires Addressed(w) && V.Settled(w.machine) && w.pc == Taken(BQ.JoystickInput(report))
    ensures Addressed(ProceedInput(w, report, found, now))
  {
    hide V.RDown, NoneNeeds, VSM.Applied;
    var r := V.HandleInput(w.machine, report, VSM.InputAnswer(w.machine, w.client, found));
    if Resumes(w.machine, report) {
      ResumeAddressed(w.client);
    } else if r.calls != [] {
      assert r.calls == [r.calls[0]];
      VSM.AppliedInTurn(w.client, r.calls[0], V.Discover, found);
      CallAddressed(w.client, r.calls[0], found);
    }
  }

  lemma ResumeAddressed(c: JC.Client)
    requires NoneNeeds(c.traffic) || c.serverAddress.valid
    ensures NoneNeeds(JC.ResumeRequested(c).traffic) || c.serverAddress.valid
  {
  }

  lemma CallbackAddressed(c: JC.Client, incoming: JC.Incoming)
    ensures NoneNeeds(c.traffic) ==> NoneNeeds(JC.Received(c, incoming).traffic)
  {
  }

  lemma StepAddressed(w: World, a: Action)
    requires Addressed(w) && V.Settled(w.machine) && HandlerFits(w) && Enabled(w, a)
    ensures Addressed(Step(w, a))
  {
    hide V.RDown, NoneNeeds, ProceedInput, VSM.AllApplied;
    match a
    case Callback(incoming) => CallbackAddressed(w.client, incoming);
    case Proceed(found, now) =>
      CallAddressed(w.client, V.RequestControl, found);
      CallAddressed(w.client, V.QueryStatus, found);
      match w.pc {
        case Taken(JoystickInput(report)) => InputAddressed(w, report, found, now);
        case _ =>
      }
    case _ =>
  }

  /**
   * Over every run of all threads, no control request, resume or query is on the
   * wire unless the vehicle's address is valid.
   */
  lemma {:induction false} RequestsHaveAddress(actions: seq<Action>)
    requires Run(actions).Some?
    ensures Addressed(Run(actions).value)
  {
    hide Step, Enabled, Addressed, V.Settled, HandlerFits;
    if actions == [] {
      StartAddressed();
    } else {
      var init := actions[..|actions| - 1];
      RequestsHaveAddress(init);
      FitsInRun(init);
      StepAddressed(Run(init).value, actions[|actions| - 1]);
    }
  }

  lemma FitsInRun(actions: seq<Action>)
    requires Run(actions).Some?
    ensures V.Settled(Run(actions).value.machine) && HandlerFits(Run(actions).value)
  {
    hide Run, V.Settled, HandlerFits, WaitKept, ResumesKept, FlagKept, JC.Separated;
    RunKeeps(actions);
  }

  lemma StartAddressed()
    ensures Addressed(START)
  {
  }

  // ------------------------------------------------------- how little is pressed

  /** Only the first action posts a report. */
  ghost predicate OnePost(actions: seq<Action>) {
    actions != [] && forall i :: 1 <= i < |actions| ==> !actions[i].Post?
  }

  /** A response that does not bring control makes ControlState ask for it, pressed or not. */
  lemma AsksAgain(actions: seq<Action>) returns (more: seq<Action>)
    requires Run(actions).Some?
    requires var w := Run(actions).value;
      && w.pc == Taken(BQ.JausResponse) && w.machine.Control? && !w.client.controlGranted
      && w.client.serverAddress.valid && !w.client.requestPending
    ensures OnePost(actions) ==> OnePost(more)
    ensures var w := Run(actions).value;
      var asked := w.client.(requestPending := true, traffic := w.client.traffic + [JC.RequestControl]);
      Run(more) == Some(w.(client := asked, pc := Idle))
  {
    hide Run, OnePost;
    more := Then(actions, Proceed([], 0));
    more := Then(more, Proceed([], 0));
    more := Then(more, Proceed([], 0));
  }

  /** A response that brings what Control or Standby waits for takes the machine on. */
  lemma Accepted(actions: seq<Action>) returns (more: seq<Action>)
    requires Run(actions).Some?
    requires var w := Run(actions).value;
      && w.pc == Taken(BQ.JausResponse)
      && ((w.machine.Control? && w.client.controlGranted) || (w.machine.Standby? && w.client.currentStatus == JC.READY))
    ensures OnePost(actions) ==> OnePost(more)
    ensures var w := Run(actions).value;
      var next := if w.machine.Control? then V.Standby(false, false, false) else V.Ready(false, true, 0);
      Run(more) == Some(w.(machine := next, pc := Idle))
  {
    hide Run, OnePost;
    more := Then(actions, Proceed([], 0));
  }

  /**
   * One press is enough. After R-Down has been held in a single report, status
   * reports that nobody asked for and one accepted control request, which the
   * machine sends of its own accord, make it Ready; no resume request is ever sent.
   */
  lemma OnePressIsEnough() returns (actions: seq<Action>)
    ensures Run(actions).Some? && Run(actions).value.machine.Ready?
    ensures OnePost(actions)
    ensures Run(actions).value.client.traffic == [JC.Callback, JC.RequestControl, JC.Callback, JC.Callback]
  {
    var p, q := TwoReports();
    hide V.RDown, BQ.Usable, Run, OnePost, Held, Step;
    actions := Discovered(p);
    actions := Responded(actions, JC.ReportStatus(JC.READY));
    actions := AsksAgain(actions);
    actions := Responded(actions, JC.ControlResponse(true));
    assert Run(actions).value.machine == V.Control(false, false, false);
    actions := Accepted(actions);
    actions := Responded(actions, JC.ReportStatus(JC.READY));
    actions := Accepted(actions);
    assert [] + [JC.Callback] + [JC.RequestControl] + [JC.Callback] + [JC.Callback]
        == [JC.Callback, JC.RequestControl, JC.Callback, JC.Callback];
  }

  /** One more action. */
  lemma Then(actions: seq<Action>, a: Action) returns (more: seq<Action>)
    requires Run(actions).Some? && Enabled(Run(actions).value, a)
    ensures more == actions + [a] && Run(more) == Some(Step(Run(actions).value, a))
    ensures OnePost(actions) && !a.Post? ==> OnePost(more)
  {
    hide Run, Enabled, Step, Overtaken;
    more := actions + [a];
    RunOne(actions, a);
  }

  /** The first report with R-Down held finds a vehicle. */
  lemma Discovered(p: Combined) returns (actions: seq<Action>)
    requires Held(p) && p != BQ.INITIAL_JS
    ensures OnePost(actions)
    ensures Run(actions) == Some(START.(queue := BQ.Queue(p, []), machine := V.Control(false, false, false),
                                        client := JC.INITIAL.(serverAddress := JC.Address(1, true))))
  {
    hide V.RDown, BQ.Usable, Run;
    RunOfNone();
    assert OnePost([Post(p)]) && [] + [Post(p)] == [Post(p)];
    hide OnePost;
    var found := [JC.Address(1, true)];
    actions := Then([], Post(p));
    assert [] + [BQ.JoystickInput(p)] == [BQ.JoystickInput(p)];
    actions := Then(actions, Take);
    assert Run(actions).value == START.(queue := BQ.Queue(p, []), pc := Taken(BQ.JoystickInput(p)));
    VSM.AppliedInTurn(JC.INITIAL, V.Discover, V.Discover, found);
    actions := Then(actions, Proceed(found, 0));
  }

  /** A callback whose response the idle service thread takes at once. */
  lemma Responded(actions: seq<Action>, incoming: JC.Incoming) returns (more: seq<Action>)
    requires Run(actions).Some?
    requires var w := Run(actions).value; w.pc == Idle && w.running && w.queue.pending == [] && w.posting == 0
    ensures OnePost(actions) ==> OnePost(more)
    ensures var w := Run(actions).value;
      Run(more) == Some(w.(client := JC.Received(w.client, incoming), pc := Taken(BQ.JausResponse)))
  {
    hide Run, OnePost;
    more := Then(actions, Callback(incoming));
    more := Then(more, PostResponse);
    var w := Run(actions).value;
    assert w.queue.pending + [BQ.JausResponse] == [BQ.JausResponse];
    more := Then(more, Take);
    assert Run(more).value.queue == w.queue;
  }

  // ------------------------------------------------------------ stopping the loop

  /** How many turns of the service thread are left once the loop is to stop. */
  function TurnsLeft(pc: Pc): nat {
    match pc
    case Ended => 0
    case Idle => 1
    case FlagWrite => 2
    case Taken(_) => 4
    case _ => 3
  }

  predicate IsTurn(a: Action) {
    a.Proceed? || a.Leave?
  }

  function Turns(actions: seq<Action>): nat {
    if actions == [] then 0
    else Turns(actions[..|actions| - 1]) + if IsTurn(actions[|actions| - 1]) then 1 else 0
  }

  lemma StoppedStep(w: World, a: Action)
    requires !w.running && Enabled(w, a)
    ensures var next := Step(w, a);
      && !next.running && w.queue.pending <= next.queue.pending
      && TurnsLeft(next.pc) + (if IsTurn(a) then 1 else 0) <= TurnsLeft(w.pc)
  {
    hide V.RDown, BQ.Usable, V.HandleInput, V.HandleResponse, V.Transition, VSM.AllApplied;
  }

  /**
   * Stopping ends the service thread, whatever the other threads do meanwhile: it
   * takes no further message, has at most four turns left, and until it has ended
   * one of them is possible, so that joining it returns.
   */
  lemma {:induction false} StopEndsThread(w: World, actions: seq<Action>)
    requires !w.running && RunFrom(w, actions).Some?
    ensures var w' := RunFrom(w, actions).value;
      && w.queue.pending <= w'.queue.pending
      && Turns(actions) + TurnsLeft(w'.pc) <= TurnsLeft(w.pc) <= 4
      && !w'.running
      && (w'.pc != Ended ==> Enabled(w', if w'.pc == Idle then Leave else Proceed([], 0)))
  {
    if actions != [] {
      hide Step;
      var init, a := actions[..|actions| - 1], actions[|actions| - 1];
      StopEndsThread(w, init);
      StoppedStep(RunFrom(w, init).value, a);
    }
  }
}
