/**
 * The class of src/jaus/JausBridge.cpp: two producers, one queue, and the service
 * loop that drives the state machine.
 */
module JausBridge {
  import opened Bytes
  import opened Report
  import JC = JausClient
  import V = Vehicle
  import BQ = BridgeQueue
  import opened VehicleStateMachine

  class Bridge {
    const jausClient: JC.JausClientImpl
    const stateMachine: Machine
    var inputQueue: seq<BQ.Message>
    var lastJs: Combined
    var running: bool

    ghost function Queue(): BQ.Queue
      reads this
    {
      BQ.Queue(lastJs, inputQueue)
    }

    ghost predicate Valid()
      reads this, stateMachine
    {
      stateMachine.Valid() && stateMachine.client == jausClient
    }

    /** As startServiceLoop leaves it. */
    constructor ()
      ensures Valid() && running && Queue() == BQ.Queue(BQ.INITIAL_JS, [])
      ensures stateMachine.Value() == V.START && jausClient.Value() == JC.INITIAL
    {
      var client := new JC.JausClientImpl();
      jausClient := client;
      stateMachine := new Machine(client);
      inputQueue, lastJs, running := [], BQ.INITIAL_JS, true;
    }

    method PostInput(input: Combined)
      modifies this`inputQueue, this`lastJs
      ensures Queue() == BQ.Posted(old(Queue()), BQ.JoystickInput(input))
    {
      if input == lastJs {
        return;
      }
      lastJs := input;
      if !DataOk(LeftXAxis(input)) {
        // reported on the console only
      } else if PausePressed(ButtonStatus(input)) {
        // reported on the console only
      } else {
        inputQueue := inputQueue + [BQ.JoystickInput(input)];
      }
    }

    method PostJausResponse()
      modifies this`inputQueue
      ensures Queue() == BQ.Posted(old(Queue()), BQ.JausResponse)
    {
      inputQueue := inputQueue + [BQ.JausResponse];
    }

    /** The combined-report case of evaluateCoapJausMessage: only a report with both CRCs right is posted. */
    method EvaluateCombined(payload: seq<byte>) returns (posted: bool)
      modifies this`inputQueue, this`lastJs
      ensures posted <==> Accepts(payload)
      ensures Queue() == if posted then BQ.Posted(old(Queue()), BQ.JoystickInput(payload[..SIZE])) else old(Queue())
    {
      posted := DecodeCombinedPayload(payload);
      if posted {
        PostInput(payload[..SIZE]);
      }
    }

    /** A callback of the JAUS middleware: the client's flags, then a posted response. */
    method OnJaus(incoming: JC.Incoming)
      modifies this`inputQueue, jausClient
      ensures jausClient.Value() == JC.Received(old(jausClient.Value()), incoming)
      ensures Queue() == BQ.Posted(old(Queue()), BQ.JausResponse)
    {
      jausClient.Receive(incoming);
      PostJausResponse();
    }

    method StopServiceLoop()
      modifies this`running
      ensures !running
    {
      running := false;
    }

    /**
     * One turn of the service loop after its wait: the queue is non-empty or the
     * loop has been stopped. Takes the oldest message and hands it on.
     */
    method ServiceStep(pdList: seq<JC.Address>, now: int) returns (stopped: bool)
      requires Valid() && (inputQueue != [] || !running)
      modifies this`inputQueue, stateMachine, stateMachine.Objects(), jausClient
      ensures Valid() && fresh(stateMachine.Objects() - old(stateMachine.Objects()))
      ensures stopped <==> !running
      ensures stopped ==>
        && Queue() == old(Queue())
        && stateMachine.Value() == old(stateMachine.Value()) && jausClient.Value() == old(jausClient.Value())
      ensures !stopped ==>
        && inputQueue == old(inputQueue)[1..] && lastJs == old(lastJs)
        && var e := EventOf(old(inputQueue)[0], old(stateMachine.Value()), old(jausClient.Value()), pdList, now);
        && stateMachine.Value() == V.Step(old(stateMachine.Value()), e)
        && jausClient.Value() == AllApplied(old(jausClient.Value()), V.Handle(old(stateMachine.Value()), e).calls,
                                            if e.Input? then pdList else [])
    {
      if !running {
        return true;
      }
      var msg := inputQueue[0];
      inputQueue := inputQueue[1..];
      match msg {
        case JoystickInput(report) => stateMachine.HandleInput(report, pdList, now);
        case JausResponse => stateMachine.HandleResponse(now);
      }
      stopped := false;
    }
  }

  /** The event that a queued message means to the machine, with the real client's answers. */
  function EventOf(m: BQ.Message, s: V.VehicleState, c: JC.Client, pdList: seq<JC.Address>, now: int): V.Event {
    match m
    case JoystickInput(report) => V.Input(report, InputAnswer(s, c, pdList), now)
    case JausResponse => V.Response(ResponseAnswer(s, c), now)
  }
}
