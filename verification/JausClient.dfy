/** The request flags of src/jaus/JausClientImpl.cpp. The JAUS middleware itself is an arbitrary peer. */
module JausClient {
  import opened Report
  import WE = WrenchEffort

  /** reportstatusrec::Status. */
  datatype Status = INITIALIZE | READY | STANDBY | SHUTDOWN | FAILURE | EMERGENCY

  /** A transport address as far as the client looks at it. */
  datatype Address = Address(id: nat, valid: bool)

  /** What passes between the client and the wire. */
  datatype Traffic = RequestControl | QueryStatus | Resume | WrenchEffort(effort: WE.Effort) | Callback

  /** The client's fields, and all its traffic so far. */
  datatype Client = Client(
    serverAddress: Address, requestPending: bool, controlGranted: bool, currentStatus: Status, traffic: seq<Traffic>)

  const INITIAL: Client := Client(Address(0, false), false, false, INITIALIZE, [])

  /** discoverVehicle, given the addresses that the system registry lists. */
  function Discovered(c: Client, found: seq<Address>): Client {
    if found == [] then c else c.(serverAddress := found[0])
  }

  /** sendRequestControl; it returns whether the server address is valid. */
  function ControlRequested(c: Client): Client {
    if !c.serverAddress.valid || c.requestPending then c
    else c.(requestPending := true, traffic := c.traffic + [RequestControl])
  }

  /** sendRequestResume; it returns whether the server address is valid. */
  function ResumeRequested(c: Client): Client {
    if !c.serverAddress.valid then c else c.(traffic := c.traffic + [Resume])
  }

  /** queryStatus. */
  function StatusQueried(c: Client): Client {
    if !c.serverAddress.valid || c.requestPending then c
    else c.(requestPending := true, traffic := c.traffic + [QueryStatus])
  }

  function WrenchSent(c: Client, report: Combined): Client {
    c.(traffic := c.traffic + [WrenchEffort(WE.EffortOf(report))])
  }

  /** The callbacks that touch the flags; each also posts a JAUS response to the bridge. */
  datatype Incoming =
    | ControlResponse(accepted: bool)
    | ReleaseResponse(released: bool)
    | ReportStatus(status: Status)

  function Received(c: Client, i: Incoming): Client {
    var granted := match i
      case ControlResponse(accepted) => accepted
      case ReleaseResponse(released) => if released then false else c.controlGranted
      case ReportStatus(_) => c.controlGranted;
    var status := match i
      case ReportStatus(s) => s
      case _ => c.currentStatus;
    Client(c.serverAddress, false, granted, status, c.traffic + [Callback])
  }

  class JausClientImpl {
    var serverAddress: Address
    var requestPending: bool
    var controlGranted: bool
    var currentStatus: Status
    ghost var traffic: seq<Traffic>

    ghost function Value(): Client
      reads this
    {
      Client(serverAddress, requestPending, controlGranted, currentStatus, traffic)
    }

    constructor ()
      ensures Value() == INITIAL
    {
      serverAddress, requestPending, controlGranted := Address(0, false), false, false;
      currentStatus, traffic := INITIALIZE, [];
    }

    method DiscoverVehicle(pdList: seq<Address>) returns (found: bool)
      modifies this
      ensures found == (pdList != []) && Value() == Discovered(old(Value()), pdList)
    {
      if |pdList| == 0 {
        return false;
      }
      serverAddress := pdList[0];
      found := true;
    }

    predicate IsRequestPending()
      reads this
    {
      requestPending
    }

    predicate HasControl()
      reads this
    {
      controlGranted
    }

    predicate HasReadyState()
      reads this
    {
      currentStatus == READY
    }

    predicate IsHeartbeatAlive() {
      true
    }

    method SendRequestControl() returns (sent: bool)
      modifies this
      ensures sent == old(serverAddress).valid && Value() == ControlRequested(old(Value()))
    {
      if !serverAddress.valid {
        return false;
      }
      if IsRequestPending() {
        return true;
      }
      traffic := traffic + [RequestControl];
      requestPending := true;
      sent := true;
    }

    method SendRequestResume() returns (sent: bool)
      modifies this
      ensures sent == old(serverAddress).valid && Value() == ResumeRequested(old(Value()))
    {
      if !serverAddress.valid {
        return false;
      }
      traffic := traffic + [Resume];
      sent := true;
    }

    method SendQueryStatus() returns (sent: bool)
      modifies this
      ensures sent == (old(serverAddress).valid && !old(requestPending)) && Value() == StatusQueried(old(Value()))
    {
      if !serverAddress.valid {
        return false;
      }
      if IsRequestPending() {
        return false;
      }
      traffic := traffic + [QueryStatus];
      requestPending := true;
      sent := true;
    }

    method SendWrenchEffort(report: Combined)
      modifies this
      ensures Value() == WrenchSent(old(Value()), report)
    {
      var effort := WE.Effort(
        WE.Normalized(WE.AxisData(LeftXAxis(report))),
        WE.Normalized(WE.AxisData(WE.Axis(report, 1))),
        WE.Normalized(WE.AxisData(WE.Axis(report, 2))),
        WE.Normalized(WE.AxisData(WE.Axis(report, 3))),
        WE.Normalized(WE.AxisData(WE.Axis(report, 4))),
        WE.Normalized(WE.AxisData(WE.Axis(report, 5))));
      traffic := traffic + [WrenchEffort(effort)];
    }

    /** One callback: flags first, then the response is posted; the caller does the posting. */
    method Receive(incoming: Incoming)
      modifies this
      ensures Value() == Received(old(Value()), incoming)
    {
      match incoming {
        case ControlResponse(accepted) =>
          if accepted {
            controlGranted := true;
          } else {
            controlGranted := false;
          }
        case ReleaseResponse(released) =>
          if released {
            controlGranted := false;
          }
        case ReportStatus(status) =>
          currentStatus := status;
      }
      requestPending := false;
      traffic := traffic + [Callback];
    }
  }

  // ------------------------------ one request at a time among those that await an answer

  /** A control request or a status query; a resume request sets no flag and awaits nothing. */
  predicate AwaitsAnswer(t: Traffic) {
    t.RequestControl? || t.QueryStatus?
  }

  /** Some request that awaits an answer has had no callback since. */
  ghost predicate Open(traffic: seq<Traffic>) {
    traffic != [] &&
      var last := traffic[|traffic| - 1];
      AwaitsAnswer(last) || (!last.Callback? && Open(traffic[..|traffic| - 1]))
  }

  /** Between any two requests that await an answer there is a callback. */
  ghost predicate Separated(traffic: seq<Traffic>) {
    forall i, j :: 0 <= i < j < |traffic| && AwaitsAnswer(traffic[i]) && AwaitsAnswer(traffic[j]) ==>
      exists k :: i < k < j && traffic[k].Callback?
  }

  /**
   * The pending flag says exactly that a control request or status query is
   * unanswered, and no second one is sent on top of it.
   */
  ghost predicate Disciplined(c: Client) {
    (c.requestPending <==> Open(c.traffic)) && Separated(c.traffic)
  }

  lemma {:induction false} ClosedAfterCallback(traffic: seq<Traffic>, i: nat) returns (k: nat)
    requires !Open(traffic) && i < |traffic| && AwaitsAnswer(traffic[i])
    ensures i < k < |traffic| && traffic[k].Callback?
  {
    var n := |traffic| - 1;
    if traffic[n].Callback? {
      k := n;
    } else {
      k := ClosedAfterCallback(traffic[..n], i);
    }
  }

  lemma TrafficGrows(traffic: seq<Traffic>, t: Traffic)
    requires Separated(traffic) && (AwaitsAnswer(t) ==> !Open(traffic))
    ensures Separated(traffic + [t])
    ensures Open(traffic + [t]) <==> AwaitsAnswer(t) || (!t.Callback? && Open(traffic))
  {
    var longer := traffic + [t];
    assert longer[..|traffic|] == traffic;
    forall i, j | 0 <= i < j < |longer| && AwaitsAnswer(longer[i]) && AwaitsAnswer(longer[j])
      ensures exists k :: i < k < j && longer[k].Callback?
    {
      if j == |traffic| {
        var k := ClosedAfterCallback(traffic, i);
        assert longer[k].Callback?;
      } else {
        var k :| i < k < j && traffic[k].Callback?;
        assert longer[k].Callback?;
      }
    }
  }

  /** Every uninterrupted call and every callback keeps the discipline. */
  lemma CallsAreDisciplined(c: Client, found: seq<Address>, report: Combined, i: Incoming)
    requires Disciplined(c)
    ensures Disciplined(Discovered(c, found)) && Disciplined(ControlRequested(c)) && Disciplined(ResumeRequested(c))
    ensures Disciplined(StatusQueried(c)) && Disciplined(WrenchSent(c, report)) && Disciplined(Received(c, i))
  {
    hide Separated, Open;
    TrafficGrows(c.traffic, Resume);
    TrafficGrows(c.traffic, WrenchEffort(WE.EffortOf(report)));
    TrafficGrows(c.traffic, Callback);
    if !c.requestPending {
      TrafficGrows(c.traffic, RequestControl);
      TrafficGrows(c.traffic, QueryStatus);
    }
  }
}
