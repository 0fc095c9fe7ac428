/** The state objects and their dispatcher, working on the real client; proved against module Vehicle. */
module VehicleStateMachine {
  import opened Report
  import JC = JausClient
  import V = Vehicle

  /** What a call of a state does to the client. */
  function Applied(c: JC.Client, call: V.Call, pdList: seq<JC.Address>): JC.Client {
    match call
    case Discover => JC.Discovered(c, pdList)
    case RequestControl => JC.ControlRequested(c)
    case Resume => JC.ResumeRequested(c)
    case QueryStatus => JC.StatusQueried(c)
    case WrenchEffort(report) => JC.WrenchSent(c, report)
  }

  function AllApplied(c: JC.Client, calls: seq<V.Call>, pdList: seq<JC.Address>): JC.Client
    decreases |calls|
  {
    if calls == [] then c else AllApplied(Applied(c, calls[0], pdList), calls[1..], pdList)
  }

  lemma AppliedInTurn(c: JC.Client, first: V.Call, second: V.Call, pdList: seq<JC.Address>)
    ensures AllApplied(c, [], pdList) == c
    ensures AllApplied(c, [first], pdList) == Applied(c, first, pdList)
    ensures AllApplied(c, [first, second], pdList) == Applied(Applied(c, first, pdList), second, pdList)
  {
    var both := [first, second];
    assert both[1..] == [second] && both[1..][1..] == [];
    assert AllApplied(c, both, pdList) == AllApplied(Applied(c, first, pdList), [second], pdList);
  }

  /** The client's answer to the call that an input triggers. */
  function InputAnswer(s: V.VehicleState, c: JC.Client, pdList: seq<JC.Address>): bool {
    if s.Initialize? then pdList != [] else c.serverAddress.valid
  }

  /** The client's answer to the question that a response triggers. */
  function ResponseAnswer(s: V.VehicleState, c: JC.Client): bool {
    if s.Control? then c.controlGranted else c.currentStatus == JC.READY
  }

  class InitializeState {
    const client: JC.JausClientImpl
    var vehicleFound: bool
    var rDownPressed: bool

    ghost function Value(): V.VehicleState
      reads this
    {
      V.Initialize(vehicleFound, rDownPressed)
    }

    constructor (client: JC.JausClientImpl)
      ensures this.client == client && Value() == V.Initialize(false, false)
    {
      this.client := client;
      vehicleFound, rDownPressed := false, false;
    }

    method HandleInput(report: Combined, pdList: seq<JC.Address>)
      modifies this, client
      ensures var r := old(V.HandleInput(Value(), report, InputAnswer(Value(), client.Value(), pdList)));
        Value() == r.state && client.Value() == AllApplied(old(client.Value()), r.calls, pdList)
    {
      AppliedInTurn(client.Value(), V.Discover, V.Discover, pdList);
      if V.RDown(report) && !rDownPressed {
        rDownPressed := true;
        vehicleFound := client.DiscoverVehicle(pdList);
      } else if !V.RDown(report) {
        rDownPressed := false;
      }
    }
  }

  class ControlState {
    const client: JC.JausClientImpl
    var controlRequested: bool
    var controlGranted: bool
    var rDownPressed: bool

    ghost function Value(): V.VehicleState
      reads this
    {
      V.Control(controlRequested, controlGranted, rDownPressed)
    }

    constructor (client: JC.JausClientImpl)
      ensures this.client == client && Value() == V.Control(false, false, false)
    {
      this.client := client;
      controlRequested, controlGranted, rDownPressed := false, false, false;
    }

    method HandleInput(report: Combined)
      modifies this, client
      ensures var r := old(V.HandleInput(Value(), report, InputAnswer(Value(), client.Value(), [])));
        Value() == r.state && client.Value() == AllApplied(old(client.Value()), r.calls, [])
    {
      AppliedInTurn(client.Value(), V.RequestControl, V.RequestControl, []);
      if V.RDown(report) && !rDownPressed {
        rDownPressed := true;
        if !controlRequested {
          controlRequested := client.SendRequestControl();
        }
      } else if !V.RDown(report) {
        rDownPressed := false;
      }
    }

    method HandleResponse()
      modifies this, client
      ensures var r := old(V.HandleResponse(Value(), ResponseAnswer(Value(), client.Value())));
        Value() == r.state && client.Value() == AllApplied(old(client.Value()), r.calls, [])
    {
      AppliedInTurn(client.Value(), V.RequestControl, V.RequestControl, []);
      if client.HasControl() {
        controlGranted := true;
      } else {
        var sent := client.SendRequestControl();
      }
    }
  }

  class StandbyState {
    const client: JC.JausClientImpl
    var resumeRequested: bool
    var readyStateGranted: bool
    var rDownPressed: bool

    ghost function Value(): V.VehicleState
      reads this
    {
      V.Standby(resumeRequested, readyStateGranted, rDownPressed)
    }

    constructor (client: JC.JausClientImpl)
      ensures this.client == client && Value() == V.Standby(false, false, false)
    {
      this.client := client;
      resumeRequested, readyStateGranted, rDownPressed := false, false, false;
    }

    method HandleInput(report: Combined)
      modifies this, client
      ensures var r := old(V.HandleInput(Value(), report, InputAnswer(Value(), client.Value(), [])));
        Value() == r.state && client.Value() == AllApplied(old(client.Value()), r.calls, [])
    {
      AppliedInTurn(client.Value(), V.Resume, V.QueryStatus, []);
      if V.RDown(report) && !rDownPressed {
        rDownPressed := true;
        if !resumeRequested {
          resumeRequested := client.SendRequestResume();
          var sent := client.SendQueryStatus();
        }
      } else if !V.RDown(report) {
        rDownPressed := false;
      }
    }

    method HandleResponse()
      modifies this, client
      ensures var r := old(V.HandleResponse(Value(), ResponseAnswer(Value(), client.Value())));
        Value() == r.state && client.Value() == AllApplied(old(client.Value()), r.calls, [])
    {
      AppliedInTurn(client.Value(), V.QueryStatus, V.QueryStatus, []);
      if !client.HasReadyState() {
        var sent := client.SendQueryStatus();
      } else {
        readyStateGranted := true;
      }
    }
  }

  class ReadyState {
    const client: JC.JausClientImpl
    var emergencyTriggered: bool
    var hasControl: bool
    var lastHeartbeatCheck: int

    ghost function Value(): V.VehicleState
      reads this
    {
      V.Ready(emergencyTriggered, hasControl, lastHeartbeatCheck)
    }

    constructor (client: JC.JausClientImpl, now: int)
      ensures this.client == client && Value() == V.Ready(false, true, now)
    {
      this.client := client;
      emergencyTriggered, hasControl, lastHeartbeatCheck := false, true, now;
    }

    method HandleInput(report: Combined)
      modifies client
      ensures var r := old(V.HandleInput(Value(), report, InputAnswer(Value(), client.Value(), [])));
        Value() == r.state && client.Value() == AllApplied(old(client.Value()), r.calls, [])
    {
      AppliedInTurn(client.Value(), V.WrenchEffort(report), V.Discover, []);
      client.SendWrenchEffort(report);
    }

    /** The heartbeat answer comes from the client. */
    method Update(alive: bool, now: int)
      modifies this
      ensures Value() == old(V.HandleUpdate(Value(), alive, client.HasControl(), now)).state
    {
      if now - lastHeartbeatCheck > V.HEARTBEAT_PERIOD {
        lastHeartbeatCheck := now;
        if !alive {
          emergencyTriggered := true;
        }
      }
      if !client.HasControl() {
        hasControl := false;
      }
    }
  }

  /** The pointer to the current state object. */
  datatype StateRef =
    | InitializeRef(i: InitializeState)
    | ControlRef(c: ControlState)
    | StandbyRef(s: StandbyState)
    | ReadyRef(r: ReadyState)
    | EmergencyRef

  class Machine {
    const client: JC.JausClientImpl
    var currentState: StateRef

    ghost function Objects(): set<object>
      reads this
    {
      match currentState
      case InitializeRef(i) => {i}
      case ControlRef(c) => {c}
      case StandbyRef(s) => {s}
      case ReadyRef(r) => {r}
      case EmergencyRef => {}
    }

    ghost predicate Valid()
      reads this
    {
      match currentState
      case InitializeRef(i) => i.client == client
      case ControlRef(c) => c.client == client
      case StandbyRef(s) => s.client == client
      case ReadyRef(r) => r.client == client
      case EmergencyRef => true
    }

    ghost function Value(): V.VehicleState
      reads this, Objects()
    {
      match currentState
      case InitializeRef(i) => i.Value()
      case ControlRef(c) => c.Value()
      case StandbyRef(s) => s.Value()
      case ReadyRef(r) => r.Value()
      case EmergencyRef => V.Emergency
    }

    constructor (client: JC.JausClientImpl)
      ensures this.client == client && Valid() && fresh(Objects())
      ensures Value() == V.START
    {
      this.client := client;
      var i := new InitializeState(client);
      currentState := InitializeRef(i);
    }

    /** Asks the current state for its successor. */
    method TransitionIfNeeded(now: int)
      requires Valid()
      modifies this
      ensures Valid() && Value() == old(V.Transition(Value(), now))
      ensures fresh(Objects() - old(Objects()))
    {
      match currentState {
        case InitializeRef(i) =>
          if i.vehicleFound {
            var next := new ControlState(client);
            currentState := ControlRef(next);
          }
        case ControlRef(c) =>
          if c.controlGranted {
            var next := new StandbyState(client);
            currentState := StandbyRef(next);
          }
        case StandbyRef(s) =>
          if s.readyStateGranted {
            var next := new ReadyState(client, now);
            currentState := ReadyRef(next);
          }
        case ReadyRef(r) =>
          if r.emergencyTriggered {
            currentState := EmergencyRef;
          }
        case EmergencyRef =>
      }
    }

    /** An input, answered by the real client: pdList is what its registry lists at that moment. */
    method HandleInput(report: Combined, pdList: seq<JC.Address>, now: int)
      requires Valid()
      modifies this, Objects(), client
      ensures Valid() && fresh(Objects() - old(Objects()))
      ensures var e := V.Input(report, old(InputAnswer(Value(), client.Value(), pdList)), now);
        && Value() == V.Step(old(Value()), e)
        && client.Value() == AllApplied(old(client.Value()), V.Handle(old(Value()), e).calls, pdList)
    {
      match currentState {
        case InitializeRef(i) => i.HandleInput(report, pdList);
        case ControlRef(c) => NoDiscovery(c.Value(), client.Value(), report, pdList); c.HandleInput(report);
        case StandbyRef(s) => NoDiscovery(s.Value(), client.Value(), report, pdList); s.HandleInput(report);
        case ReadyRef(r) => NoDiscovery(r.Value(), client.Value(), report, pdList); r.HandleInput(report);
        case EmergencyRef =>
      }
      TransitionIfNeeded(now);
    }

    method HandleResponse(now: int)
      requires Valid()
      modifies this, Objects(), client
      ensures Valid() && fresh(Objects() - old(Objects()))
      ensures var e := V.Response(old(ResponseAnswer(Value(), client.Value())), now);
        && Value() == V.Step(old(Value()), e)
        && client.Value() == AllApplied(old(client.Value()), V.Handle(old(Value()), e).calls, [])
    {
      match currentState {
        case InitializeRef(_) =>
        case ControlRef(c) => c.HandleResponse();
        case StandbyRef(s) => s.HandleResponse();
        case ReadyRef(_) =>
        case EmergencyRef =>
      }
      TransitionIfNeeded(now);
    }

    method Update(now: int)
      requires Valid()
      modifies this, Objects()
      ensures Valid() && fresh(Objects() - old(Objects()))
      ensures Value() == V.Step(old(Value()), V.Update(client.IsHeartbeatAlive(), old(client.HasControl()), now))
    {
      match currentState {
        case ReadyRef(r) => r.Update(client.IsHeartbeatAlive(), now);
        case _ =>
      }
      TransitionIfNeeded(now);
    }
  }

  /** Only Initialize consults the registry. */
  lemma NoDiscovery(s: V.VehicleState, c: JC.Client, report: Combined, pdList: seq<JC.Address>)
    requires !s.Initialize?
    ensures InputAnswer(s, c, []) == InputAnswer(s, c, pdList)
    ensures var calls := V.HandleInput(s, report, InputAnswer(s, c, [])).calls;
      AllApplied(c, calls, []) == AllApplied(c, calls, pdList)
  {
    AppliedInTurn(c, V.Resume, V.QueryStatus, []);
    AppliedInTurn(c, V.Resume, V.QueryStatus, pdList);
    AppliedInTurn(c, V.RequestControl, V.Discover, []);
    AppliedInTurn(c, V.RequestControl, V.Discover, pdList);
    AppliedInTurn(c, V.WrenchEffort(report), V.Discover, []);
    AppliedInTurn(c, V.WrenchEffort(report), V.Discover, pdList);
  }
}
