/**
 * The vehicle state machine (include/fort_agent/jaus/vehicleStateMachine.h and
 * its states) against a client that may answer anything, over whole runs.
 */
module Vehicle {
  import opened Report

  datatype VehicleState =
    | Initialize(vehicleFound: bool, rDownPressed: bool)
    | Control(controlRequested: bool, controlGranted: bool, rDownPressed: bool)
    | Standby(resumeRequested: bool, readyStateGranted: bool, rDownPressed: bool)
    | Ready(emergencyTriggered: bool, hasControl: bool, lastHeartbeatCheck: int)
    | Emergency

  const START: VehicleState := Initialize(false, false)

  /** The client calls that a state makes. */
  datatype Call = Discover | RequestControl | Resume | QueryStatus | WrenchEffort(report: Combined)

  /**
   * An event together with what the client answers: discoverVehicle,
   * sendRequestControl or sendRequestResume for an input; hasControl or
   * hasReadyState for a response; heartbeat and control for an update.
   */
  datatype Event =
    | Input(report: Combined, answer: bool, now: int)
    | Response(answer: bool, now: int)
    | Update(alive: bool, control: bool, now: int)

  predicate RDown(report: Combined) {
    RDownPressed(ButtonStatus(report))
  }

  /** A state's reaction, before any transition. */
  datatype Reaction = Reaction(state: VehicleState, calls: seq<Call>)

  function HandleInput(s: VehicleState, report: Combined, answer: bool): Reaction {
    match s
    case Initialize(found, pressed) =>
      if RDown(report) && !pressed then Reaction(Initialize(answer, true), [Discover])
      else Reaction(Initialize(found, pressed && RDown(report)), [])
    case Control(requested, granted, pressed) =>
      if RDown(report) && !pressed && !requested then Reaction(Control(answer, granted, true), [RequestControl])
      else Reaction(Control(requested, granted, RDown(report)), [])
    case Standby(requested, granted, pressed) =>
      if RDown(report) && !pressed && !requested then Reaction(Standby(answer, granted, true), [Resume, QueryStatus])
      else Reaction(Standby(requested, granted, RDown(report)), [])
    case Ready(_, _, _) => Reaction(s, [WrenchEffort(report)])
    case Emergency => Reaction(s, [])
  }

  function HandleResponse(s: VehicleState, answer: bool): Reaction {
    match s
    case Control(requested, granted, pressed) =>
      if answer then Reaction(Control(requested, true, pressed), []) else Reaction(s, [RequestControl])
    case Standby(requested, granted, pressed) =>
      if answer then Reaction(Standby(requested, true, pressed), []) else Reaction(s, [QueryStatus])
    case _ => Reaction(s, [])
  }

  /** The heartbeat is looked at when more than a second (in nanoseconds) has passed. */
  const HEARTBEAT_PERIOD: int := 1_000_000_000

  function HandleUpdate(s: VehicleState, alive: bool, control: bool, now: int): Reaction {
    match s
    case Ready(emergency, hasControl, last) =>
      var due := now - last > HEARTBEAT_PERIOD;
      Reaction(Ready(emergency || (due && !alive), hasControl && control, if due then now else last), [])
    case _ => Reaction(s, [])
  }

  function Handle(s: VehicleState, e: Event): Reaction {
    match e
    case Input(report, answer, _) => HandleInput(s, report, answer)
    case Response(answer, _) => HandleResponse(s, answer)
    case Update(alive, control, now) => HandleUpdate(s, alive, control, now)
  }

  /** transitionIfNeeded: a freshly constructed successor, or the same state. */
  function Transition(s: VehicleState, now: int): VehicleState {
    match s
    case Initialize(found, _) => if found then Control(false, false, false) else s
    case Control(_, granted, _) => if granted then Standby(false, false, false) else s
    case Standby(_, granted, _) => if granted then Ready(false, true, now) else s
    case Ready(emergency, _, _) => if emergency then Emergency else s
    case Emergency => s
  }

  function Step(s: VehicleState, e: Event): VehicleState {
    Transition(Handle(s, e).state, e.now)
  }

  /** The state after a run. */
  function After(events: seq<Event>): VehicleState {
    if events == [] then START else Step(After(events[..|events| - 1]), events[|events| - 1])
  }

  /** The state in which event k finds the machine, and the calls it causes. */
  function Before(events: seq<Event>, k: nat): VehicleState
    requires k < |events|
  {
    After(events[..k])
  }

  function CallsAt(events: seq<Event>, k: nat): seq<Call>
    requires k < |events|
  {
    Handle(Before(events, k), events[k]).calls
  }

  lemma AfterNext(events: seq<Event>, k: nat)
    requires k < |events|
    ensures After(events[..k + 1]) == Step(Before(events, k), events[k])
  {
    assert events[..k + 1][..k] == events[..k];
  }

  // ------------------------------------------------------------------ phases

  function Phase(s: VehicleState): nat {
    match s
    case Initialize(_, _) => 0
    case Control(_, _, _) => 1
    case Standby(_, _, _) => 2
    case Ready(_, _, _) => 3
    case Emergency => 4
  }

  lemma StepAdvances(s: VehicleState, e: Event)
    ensures Phase(s) <= Phase(Step(s, e)) <= Phase(s) + 1
    ensures s.Emergency? ==> Step(s, e).Emergency? && Handle(s, e).calls == []
  {
  }

  /** Phases never go back, one event advances by at most one, and Emergency is absorbing and silent. */
  lemma {:induction false} PhasesAdvance(events: seq<Event>, i: nat, j: nat)
    requires i <= j <= |events|
    ensures Phase(After(events[..i])) <= Phase(After(events[..j])) <= Phase(After(events[..i])) + (j - i)
    ensures After(events[..i]).Emergency? ==> After(events[..j]).Emergency?
    ensures After(events[..i]).Emergency? && j < |events| ==> CallsAt(events, j) == []
  {
    hide Step, Handle;
    if j < |events| {
      StepAdvances(Before(events, j), events[j]);
    }
    if i < j {
      PhasesAdvance(events, i, j - 1);
      AfterNext(events, j - 1);
      StepAdvances(Before(events, j - 1), events[j - 1]);
      if j < |events| {
        StepAdvances(Before(events, j), events[j]);
      }
    }
  }

  // ------------------------------------------------------------- R-Down edges

  /** The latest input before event k had R-Down held. */
  ghost predicate HeldBefore(events: seq<Event>, k: nat)
    requires k <= |events|
  {
    exists j :: 0 <= j < k && events[j].Input? && RDown(events[j].report)
             && forall i :: j < i < k ==> !events[i].Input?
  }

  /** Event k is an input on which R-Down goes from released to pressed. */
  ghost predicate RisingEdge(events: seq<Event>, k: nat)
    requires k < |events|
  {
    events[k].Input? && RDown(events[k].report) && !HeldBefore(events, k)
  }

  lemma {:induction false} PressedIsHeld(events: seq<Event>, k: nat)
    requires k <= |events|
    ensures After(events[..k]).Initialize? ==> (After(events[..k]).rDownPressed <==> HeldBefore(events, k))
  {
    if k > 0 {
      var n := k - 1;
      PressedIsHeld(events, n);
      AfterNext(events, n);
      StepAdvances(Before(events, n), events[n]);
      if events[n].Input? {
        assert RDown(events[n].report) ==> HeldBefore(events, k);
        if HeldBefore(events, k) {
          assert RDown(events[n].report);
        }
      } else {
        HeldAcross(events, n);
      }
    }
  }

  lemma HeldAcross(events: seq<Event>, n: nat)
    requires n < |events| && !events[n].Input?
    ensures HeldBefore(events, n) <==> HeldBefore(events, n + 1)
  {
    if HeldBefore(events, n) {
      var j :| 0 <= j < n && events[j].Input? && RDown(events[j].report) && forall i :: j < i < n ==> !events[i].Input?;
      assert forall i :: j < i < n + 1 ==> !events[i].Input?;
    }
    if HeldBefore(events, n + 1) {
      var j :| 0 <= j < n + 1 && events[j].Input? && RDown(events[j].report)
               && forall i :: j < i < n + 1 ==> !events[i].Input?;
      assert j < n;
    }
  }

  /** Discovery is tried on exactly the R-Down edges seen in Initialize, once each. */
  lemma DiscoveryOnEdges(events: seq<Event>, k: nat)
    requires k < |events|
    ensures CallsAt(events, k) == [Discover] <==> Before(events, k).Initialize? && RisingEdge(events, k)
    ensures Discover in CallsAt(events, k) ==> CallsAt(events, k) == [Discover]
  {
    PressedIsHeld(events, k);
  }

  ghost function Discoveries(events: seq<Event>, n: nat): nat
    requires n <= |events|
  {
    if n == 0 then 0 else Discoveries(events, n - 1) + if Discover in CallsAt(events, n - 1) then 1 else 0
  }

  ghost function EdgesInInitialize(events: seq<Event>, n: nat): nat
    requires n <= |events|
  {
    if n == 0 then 0
    else
      var here := if Before(events, n - 1).Initialize? && RisingEdge(events, n - 1) then 1 else 0;
      EdgesInInitialize(events, n - 1) + here
  }

  lemma {:induction false} DiscoveriesCountEdges(events: seq<Event>, n: nat)
    requires n <= |events|
    ensures Discoveries(events, n) == EdgesInInitialize(events, n)
  {
    hide CallsAt, RisingEdge, Before;
    if n > 0 {
      DiscoveriesCountEdges(events, n - 1);
      DiscoveryOnEdges(events, n - 1);
    }
  }

  // --------------------------------------------------------------- milestones

  /** A successful discovery on an R-Down edge. */
  ghost predicate Found(events: seq<Event>, a: nat) {
    && a < |events| && Before(events, a).Initialize? && RisingEdge(events, a) && events[a].answer
    && CallsAt(events, a) == [Discover]
  }

  /** A response seen in Control with control held. */
  ghost predicate Granted(events: seq<Event>, b: nat) {
    b < |events| && Before(events, b).Control? && events[b].Response? && events[b].answer
  }

  /** A response seen in Standby with status READY. */
  ghost predicate Activated(events: seq<Event>, c: nat) {
    c < |events| && Before(events, c).Standby? && events[c].Response? && events[c].answer
  }

  /** An update in Ready, more than a second after the last check, with the heartbeat gone. */
  ghost predicate HeartbeatLost(events: seq<Event>, d: nat) {
    && d < |events| && Before(events, d).Ready? && events[d].Update? && !events[d].alive
    && events[d].now - Before(events, d).lastHeartbeatCheck > HEARTBEAT_PERIOD
  }

  /** What a state's own flags say about a pending transition: never left standing between events. */
  ghost predicate Settled(s: VehicleState) {
    match s
    case Initialize(found, _) => !found
    case Control(_, granted, _) => !granted
    case Standby(_, granted, _) => !granted
    case Ready(emergency, _, _) => !emergency
    case Emergency => true
  }

  lemma {:induction false} AlwaysSettled(events: seq<Event>)
    ensures Settled(After(events))
  {
    if events != [] {
      AlwaysSettled(events[..|events| - 1]);
    }
  }

  /** Each phase reached has its cause, and the causes come in order. */
  lemma {:induction false} Milestones(events: seq<Event>, k: nat) returns (a: nat, b: nat, c: nat, d: nat)
    requires k <= |events|
    ensures Phase(After(events[..k])) >= 1 ==> a < k && Found(events, a)
    ensures Phase(After(events[..k])) >= 2 ==> a < b < k && Granted(events, b)
    ensures Phase(After(events[..k])) >= 3 ==> b < c < k && Activated(events, c)
    ensures Phase(After(events[..k])) >= 4 ==> c < d < k && HeartbeatLost(events, d)
  {
    a, b, c, d := 0, 0, 0, 0;
    if k > 0 {
      var n := k - 1;
      a, b, c, d := Milestones(events, n);
      AfterNext(events, n);
      AlwaysSettled(events[..n]);
      StepAdvances(Before(events, n), events[n]);
      DiscoveryOnEdges(events, n);
      var phase := Phase(Before(events, n));
      if Phase(After(events[..k])) > phase {
        if phase == 0 {
          a := n;
        } else if phase == 1 {
          b := n;
        } else if phase == 2 {
          c := n;
        } else {
          d := n;
        }
      }
    }
  }

  lemma PhaseAfter(events: seq<Event>, k: nat, phase: nat)
    requires k < |events| && Phase(Before(events, k)) >= phase
    requires if phase == 0 then Found(events, k) else events[k].Response? && events[k].answer && phase <= 2
    ensures Phase(After(events[..k + 1])) >= phase + 1
  {
    AfterNext(events, k);
    StepAdvances(Before(events, k), events[k]);
    AlwaysSettled(events[..k]);
    hide RisingEdge;
  }

  /** A discovery and two responses that let the machine go on, in this order. */
  ghost predicate Reaches(events: seq<Event>, a: nat, b: nat, c: nat) {
    && a < b < c < |events| && Found(events, a)
    && events[b].Response? && events[b].answer
    && events[c].Response? && events[c].answer
  }

  /**
   * Exactly when Ready is reached: after one successful discovery on an R-Down
   * edge, two responses with a good answer are enough, and needed. The machine
   * reacts to any response, so presses in Control and Standby play no part.
   */
  lemma ReadyExactly(events: seq<Event>)
    ensures Phase(After(events)) >= 3 <==> exists a, b, c :: Reaches(events, a, b, c)
  {
    assert events[..|events|] == events;
    if Phase(After(events)) >= 3 {
      var a, b, c, d := Milestones(events, |events|);
      assert Reaches(events, a, b, c);
    }
    if exists a, b, c :: Reaches(events, a, b, c) {
      var a, b, c :| Reaches(events, a, b, c);
      hide Found, Step, Handle, After, Before, Phase;
      ReachesReady(events, a, b, c);
    }
  }

  lemma ReachesReady(events: seq<Event>, a: nat, b: nat, c: nat)
    requires Reaches(events, a, b, c)
    ensures Phase(After(events[..|events|])) >= 3
  {
    hide Found, Step, Handle, After, Phase;
    PhaseAfter(events, a, 0);
    PhasesAdvance(events, a + 1, b);
    PhaseAfter(events, b, 1);
    PhasesAdvance(events, b + 1, c);
    PhaseAfter(events, c, 2);
    PhasesAdvance(events, c + 1, |events|);
  }

  /**
   * Run safety: every wrench effort is preceded, in this order and at distinct
   * events, by a successful discovery on an R-Down edge, a response with control
   * held, and a response with READY.
   */
  lemma WrenchIsPreceded(events: seq<Event>, k: nat, report: Combined) returns (a: nat, b: nat, c: nat)
    requires k < |events| && WrenchEffort(report) in CallsAt(events, k)
    ensures a < b < c < k
    ensures Found(events, a) && Granted(events, b) && Activated(events, c)
    ensures Before(events, k).Ready? && events[k].Input? && events[k].report == report
  {
    var d;
    a, b, c, d := Milestones(events, k);
  }

  /** With a client whose heartbeat is always alive, as JAUSClientImpl's is, Emergency is never entered. */
  lemma AliveNeverEmergency(events: seq<Event>)
    requires forall k :: 0 <= k < |events| && events[k].Update? ==> events[k].alive
    ensures !After(events).Emergency?
  {
    assert events[..|events|] == events;
    var a, b, c, d := Milestones(events, |events|);
  }

  // ------------------------------------------- every report in Ready is an effort

  /** The reports of the wrench efforts among some calls, in order. */
  function WrenchReports(calls: seq<Call>): seq<Combined> {
    if calls == [] then []
    else
      WrenchReports(calls[..|calls| - 1]) +
      match calls[|calls| - 1]
      case WrenchEffort(report) => [report]
      case _ => []
  }

  /** The reports of all wrench efforts that the first n events cause. */
  ghost function WrenchesSent(events: seq<Event>, n: nat): seq<Combined>
    requires n <= |events|
  {
    if n == 0 then [] else WrenchesSent(events, n - 1) + WrenchReports(CallsAt(events, n - 1))
  }

  /** The reports among the first n events that find the machine in Ready. */
  ghost function ReportsInReady(events: seq<Event>, n: nat): seq<Combined>
    requires n <= |events|
  {
    if n == 0 then []
    else
      var here := events[n - 1].Input? && Before(events, n - 1).Ready?;
      ReportsInReady(events, n - 1) + if here then [events[n - 1].report] else []
  }

  lemma WrenchOfOneEvent(s: VehicleState, e: Event)
    ensures WrenchReports(Handle(s, e).calls) == if e.Input? && s.Ready? then [e.report] else []
  {
    hide RDown;
    var calls := Handle(s, e).calls;
    if |calls| == 1 {
      assert calls[..0] == [];
    } else if |calls| == 2 {
      assert calls[..1] == [calls[0]] && calls[..1][..0] == [];
    }
  }

  /**
   * Over every run the wrench efforts are exactly the reports that find the machine
   * in Ready: one for each, whatever is pressed, in order, and no other.
   */
  lemma {:induction false} EveryReportInReady(events: seq<Event>, n: nat)
    requires n <= |events|
    ensures WrenchesSent(events, n) == ReportsInReady(events, n)
  {
    hide CallsAt, Before, WrenchReports;
    if n > 0 {
      EveryReportInReady(events, n - 1);
      WrenchAt(events, n - 1);
    }
  }

  lemma WrenchAt(events: seq<Event>, k: nat)
    requires k < |events|
    ensures WrenchReports(CallsAt(events, k))
         == if events[k].Input? && Before(events, k).Ready? then [events[k].report] else []
  {
    WrenchOfOneEvent(Before(events, k), events[k]);
    hide Handle, Before, WrenchReports;
  }
}
