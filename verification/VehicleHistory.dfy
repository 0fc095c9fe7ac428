/**
 * Every flag of the vehicle states told from the history of events: what is pressed
 * and asked for in a state, when the heartbeat was judged, and with these exactly
 * when each call is made and each phase reached.
 */
module VehicleHistory {
  import opened Bytes
  import opened Report
  import opened Vehicle

  /** The latest input had R-Down held, and found the machine in the phase it is in now. */
  ghost predicate HeldHere(events: seq<Event>, k: nat)
    requires k <= |events|
  {
    exists j :: 0 <= j < k && HeldAt(events, j, k)
  }

  ghost predicate HeldAt(events: seq<Event>, j: nat, k: nat)
    requires j < k <= |events|
  {
    && events[j].Input? && RDown(events[j].report)
    && Phase(After(events[..j])) == Phase(After(events[..k]))
    && forall i :: j < i < k ==> !events[i].Input?
  }

  /** In this phase an input has already made a call, and its answer was good. */
  ghost predicate AskedHere(events: seq<Event>, k: nat)
    requires k <= |events|
  {
    exists j :: 0 <= j < k && AskedAt(events, j, k)
  }

  ghost predicate AskedAt(events: seq<Event>, j: nat, k: nat)
    requires j < k <= |events|
  {
    && events[j].Input? && events[j].answer && CallsAt(events, j) != []
    && Phase(After(events[..j])) == Phase(After(events[..k]))
  }

  /** The flags of Control and Standby. */
  predicate Flags(s: VehicleState, requested: bool, pressed: bool) {
    match s
    case Control(r, _, p) => r == requested && p == pressed
    case Standby(r, _, p) => r == requested && p == pressed
    case _ => true
  }

  lemma EarlierPhase(events: seq<Event>, j: nat, k: nat)
    requires j <= k <= |events|
    ensures Phase(After(events[..j])) <= Phase(After(events[..k]))
  {
    hide After, Phase;
    PhasesAdvance(events, j, k);
  }

  lemma FreshPhase(events: seq<Event>, k: nat)
    requires k < |events| && Phase(After(events[..k + 1])) > Phase(After(events[..k]))
    ensures !HeldHere(events, k + 1) && !AskedHere(events, k + 1)
  {
    hide After, Phase, CallsAt, RDown;
    forall j | 0 <= j < k + 1 ensures Phase(After(events[..j])) < Phase(After(events[..k + 1])) {
      EarlierPhase(events, j, k);
    }
  }

  /** One event that does not change the phase. */
  lemma SamePhase(events: seq<Event>, k: nat)
    requires k < |events| && Phase(After(events[..k + 1])) == Phase(After(events[..k]))
    ensures HeldHere(events, k + 1) <==> if events[k].Input? then RDown(events[k].report) else HeldHere(events, k)
    ensures AskedHere(events, k + 1)
       <==> AskedHere(events, k) || (events[k].Input? && events[k].answer && CallsAt(events, k) != [])
  {
    hide After, Phase, CallsAt, RDown;
    HeldStep(events, k);
    AskedStep(events, k);
  }

  lemma HeldStep(events: seq<Event>, k: nat)
    requires k < |events| && Phase(After(events[..k + 1])) == Phase(After(events[..k]))
    ensures HeldHere(events, k + 1) <==> if events[k].Input? then RDown(events[k].report) else HeldHere(events, k)
  {
    hide After, Phase, RDown;
    if events[k].Input? {
      if RDown(events[k].report) {
        assert HeldAt(events, k, k + 1);
      }
    } else {
      if HeldHere(events, k) {
        var j :| 0 <= j < k && HeldAt(events, j, k);
        assert HeldAt(events, j, k + 1);
      }
      if HeldHere(events, k + 1) {
        var j :| 0 <= j < k + 1 && HeldAt(events, j, k + 1);
        assert HeldAt(events, j, k);
      }
    }
  }

  lemma AskedStep(events: seq<Event>, k: nat)
    requires k < |events| && Phase(After(events[..k + 1])) == Phase(After(events[..k]))
    ensures AskedHere(events, k + 1)
       <==> AskedHere(events, k) || (events[k].Input? && events[k].answer && CallsAt(events, k) != [])
  {
    hide After, Phase, CallsAt;
    if AskedHere(events, k) {
      var j :| 0 <= j < k && AskedAt(events, j, k);
      assert AskedAt(events, j, k + 1);
    }
    if events[k].Input? && events[k].answer && CallsAt(events, k) != [] {
      assert AskedAt(events, k, k + 1);
    }
    if AskedHere(events, k + 1) {
      var j :| 0 <= j < k + 1 && AskedAt(events, j, k + 1);
      if j < k {
        assert AskedAt(events, j, k);
      }
    }
  }

  /** What one event does to the flags of a settled state that keeps its phase, and of one that changes it. */
  lemma FlagsStep(s: VehicleState, e: Event, requested: bool, pressed: bool)
    requires Settled(s) && Flags(s, requested, pressed)
    ensures Phase(Step(s, e)) > Phase(s) ==> Flags(Step(s, e), false, false)
    ensures Phase(Step(s, e)) == Phase(s) ==>
      Flags(Step(s, e), requested || (e.Input? && e.answer && Handle(s, e).calls != []),
            if e.Input? then RDown(e.report) else pressed)
  {
    hide RDown;
  }

  /** Over every run the flags of Control and Standby say what was pressed and asked for there. */
  lemma {:induction false} FlagsAreHistory(events: seq<Event>, k: nat)
    requires k <= |events|
    ensures Flags(After(events[..k]), AskedHere(events, k), HeldHere(events, k))
  {
    if k == 0 {
      assert events[..0] == [];
    } else {
      hide Flags, HeldHere, AskedHere, Handle, Step, Phase, Settled;
      var n := k - 1;
      FlagsAreHistory(events, n);
      AfterNext(events, n);
      AlwaysSettled(events[..n]);
      FlagsStep(Before(events, n), events[n], AskedHere(events, n), HeldHere(events, n));
      EarlierPhase(events, n, k);
      if Phase(After(events[..k])) > Phase(After(events[..n])) {
        FreshPhase(events, n);
      } else {
        SamePhase(events, n);
      }
    }
  }

  /**
   * Exactly what is called in Control and Standby. A report with R-Down newly held,
   * for the first time in the phase or after a failed call, asks for control in
   * Control, and resumes and queries in Standby; a response that does not bring what
   * is waited for asks or queries again; nothing else calls anything.
   */
  lemma CallsExactly(events: seq<Event>, k: nat)
    requires k < |events|
    ensures var e := events[k];
      var press := e.Input? && RDown(e.report) && !HeldHere(events, k) && !AskedHere(events, k);
      var again := e.Response? && !e.answer;
      && (Before(events, k).Control? ==> CallsAt(events, k) == if press || again then [RequestControl] else [])
      && (Before(events, k).Standby? ==>
            CallsAt(events, k) == if press then [Resume, QueryStatus] else if again then [QueryStatus] else [])
  {
    FlagsAreHistory(events, k);
    hide RDown, HeldHere, AskedHere, After;
  }

  // ------------------------------------------------------- all phases, exactly

  /** A successful discovery, and a good response after it. */
  ghost predicate FoundThenGood(events: seq<Event>, a: nat, b: nat) {
    a < b < |events| && Found(events, a) && events[b].Response? && events[b].answer
  }

  lemma FoundReaches(events: seq<Event>, a: nat)
    requires Found(events, a)
    ensures Phase(After(events[..|events|])) >= 1
  {
    FoundInside(events, a);
    hide Found, Phase, After;
    PhaseAfter(events, a, 0);
    EarlierPhase(events, a + 1, |events|);
  }

  lemma GoodReaches(events: seq<Event>, a: nat, b: nat)
    requires FoundThenGood(events, a, b)
    ensures Phase(After(events[..|events|])) >= 2
  {
    hide Found, Phase, After;
    PhaseAfter(events, a, 0);
    EarlierPhase(events, a + 1, b);
    PhaseAfter(events, b, 1);
    EarlierPhase(events, b + 1, |events|);
  }

  /** Control is reached exactly by a successful discovery on an R-Down edge, Standby by a good response after that. */
  lemma EarlyPhasesExactly(events: seq<Event>)
    ensures Phase(After(events)) >= 1 <==> exists a: nat :: Found(events, a)
    ensures Phase(After(events)) >= 2 <==> exists a: nat, b: nat :: FoundThenGood(events, a, b)
  {
    assert events[..|events|] == events;
    var a0, b0, c0, d0 := Milestones(events, |events|);
    if Phase(After(events)) >= 2 {
      assert FoundThenGood(events, a0, b0);
    }
    hide Found, Phase, After, Before, FoundThenGood, Granted, Activated, HeartbeatLost;
    forall a: nat | Found(events, a) ensures Phase(After(events)) >= 1 {
      FoundReaches(events, a);
    }
    forall a: nat, b: nat | FoundThenGood(events, a, b) ensures Phase(After(events)) >= 2 {
      GoodReaches(events, a, b);
    }
  }

  lemma FoundInside(events: seq<Event>, a: nat)
    requires Found(events, a)
    ensures a < |events|
  {
  }

  /** An update in Ready that judges the heartbeat: more than a second after the last judgement or the entry. */
  ghost predicate Judged(events: seq<Event>, d: nat) {
    && d < |events| && Before(events, d).Ready? && events[d].Update?
    && events[d].now - Before(events, d).lastHeartbeatCheck > 1_000_000_000
  }

  /** Event j made the machine Ready, or judged the heartbeat. */
  ghost predicate Checked(events: seq<Event>, j: nat) {
    && j < |events|
    && (Judged(events, j) || (Phase(Before(events, j)) < 3 && Phase(After(events[..j + 1])) >= 3))
  }

  /** The latest such event before event k. */
  ghost predicate LastChecked(events: seq<Event>, j: nat, k: nat) {
    j < k <= |events| && Checked(events, j) && forall i :: j < i < k ==> !Checked(events, i)
  }

  lemma ReadyStep(s: VehicleState, e: Event)
    requires Settled(s) && Step(s, e).Ready?
    ensures Phase(s) >= 2
    ensures s.Ready? || s.Standby?
    ensures Step(s, e).lastHeartbeatCheck ==
      if s.Standby? || (e.Update? && e.now - s.lastHeartbeatCheck > 1_000_000_000) then e.now
      else s.lastHeartbeatCheck
    ensures Step(s, e).hasControl == (s.Standby? || (s.hasControl && (e.Update? ==> e.control)))
  {
    hide RDown;
  }

  lemma NotReadyAtFirst(events: seq<Event>, k: nat)
    requires k <= |events| && After(events[..k]).Ready?
    ensures k > 0
  {
  }

  /** Over every run, in Ready, the time kept is that of the latest judgement, or of the entry. */
  lemma {:induction false} LastCheckIsHistory(events: seq<Event>, k: nat) returns (j: nat)
    requires k <= |events| && After(events[..k]).Ready?
    ensures LastChecked(events, j, k) && After(events[..k]).lastHeartbeatCheck == events[j].now
  {
    NotReadyAtFirst(events, k);
    var n := k - 1;
    AfterNext(events, n);
    AlwaysSettled(events[..n]);
    ReadyStep(Before(events, n), events[n]);
    hide Step, Handle, Settled;
    if Checked(events, n) {
      j := n;
    } else {
      j := LastCheckIsHistory(events, n);
    }
  }

  lemma JudgedReaches(events: seq<Event>, d: nat)
    requires Judged(events, d) && !events[d].alive
    ensures Phase(After(events[..|events|])) == 4
  {
    AfterNext(events, d);
    assert Phase(After(events[..d + 1])) == 4;
    hide Judged, After, Step, Handle;
    EarlierPhase(events, d + 1, |events|);
  }

  /** Emergency is entered exactly by a judged update that finds the heartbeat gone. */
  lemma EmergencyExactly(events: seq<Event>)
    ensures Phase(After(events)) == 4 <==> exists d: nat :: Judged(events, d) && !events[d].alive
  {
    assert events[..|events|] == events;
    var a0, b0, c0, d0 := Milestones(events, |events|);
    if Phase(After(events)) == 4 {
      assert Judged(events, d0);
    }
    hide Found, Phase, After, Before, Judged, Granted, Activated, HeartbeatLost;
    forall d: nat | Judged(events, d) && !events[d].alive ensures Phase(After(events)) == 4 {
      JudgedReaches(events, d);
    }
  }

  /** In Ready, control counts as held exactly if every update there has found it so. */
  lemma {:induction false} ControlNoted(events: seq<Event>, k: nat)
    requires k <= |events| && After(events[..k]).Ready?
    ensures After(events[..k]).hasControl
       <==> forall i :: 0 <= i < k && Before(events, i).Ready? && events[i].Update? ==> events[i].control
  {
    NotReadyAtFirst(events, k);
    var n := k - 1;
    AfterNext(events, n);
    AlwaysSettled(events[..n]);
    ReadyStep(Before(events, n), events[n]);
    if Before(events, n).Ready? {
      ControlNoted(events, n);
    } else {
      forall i | 0 <= i < k ensures !Before(events, i).Ready? {
        EarlierPhase(events, i, n);
      }
    }
  }
}
