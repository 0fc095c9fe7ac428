/** The MID map over whole runs: what a lookup gives is determined by the history of tracks, sweeps and clears. */
module MidHistory {
  import opened Bytes
  import opened Coap
  import opened Tracker

  datatype Event =
    | Track(port: uint16, mid: uint16, at: int)
    | Sweep(at: int)
    | Clear(at: int)

  function Step(mids: Mids, e: Event): Mids {
    match e
    case Track(port, mid, at) => Tracked(mids, port, mid, at)
    case Sweep(at) => Swept(mids, at)
    case Clear(_) => map[]
  }

  function Run(events: seq<Event>): Mids {
    if events == [] then map[] else Step(Run(events[..|events| - 1]), events[|events| - 1])
  }

  /** Event i is the most recent track of the MID, and nothing was cleared since. */
  ghost predicate IsCurrentTrack(events: seq<Event>, mid: uint16, i: nat) {
    && i < |events| && events[i].Track? && events[i].mid == mid
    && forall j :: i < j < |events| ==> !events[j].Clear? && !(events[j].Track? && events[j].mid == mid)
  }

  /** A sweep ran when track i was already 250 seconds old. */
  ghost predicate SweptAway(events: seq<Event>, i: nat)
    requires i < |events|
  {
    exists j :: i < j < |events| && events[j].Sweep? && events[j].at - events[i].at >= MID_TIMEOUT
  }

  /** Event i is a current track that no sweep found expired. */
  ghost predicate Live(events: seq<Event>, mid: uint16, i: nat) {
    IsCurrentTrack(events, mid, i) && !SweptAway(events, i)
  }

  /**
   * The map refines its history: a MID is in the map exactly when it has a live
   * track, and its entry is that track's port and time.
   */
  lemma {:induction false} LookupIsHistory(events: seq<Event>, mid: uint16)
    ensures mid in Run(events) <==> exists i: nat :: Live(events, mid, i)
    ensures forall i: nat :: Live(events, mid, i) ==>
              mid in Run(events) && Run(events)[mid] == MappedMid(events[i].port, events[i].at)
  {
    if events != [] {
      var n := |events| - 1;
      var init, e := events[..n], events[n];
      LookupIsHistory(init, mid);
      forall i: nat | Live(events, mid, i)
        ensures mid in Run(events) && Run(events)[mid] == MappedMid(events[i].port, events[i].at)
      {
        if i < n {
          LiveBefore(events, mid, i);
        }
      }
      if mid in Run(events) {
        if e.Track? && e.mid == mid {
          assert Live(events, mid, n);
        } else {
          var i: nat :| Live(init, mid, i);
          LiveAfter(events, mid, i);
        }
      }
    }
  }

  lemma LiveBefore(events: seq<Event>, mid: uint16, i: nat)
    requires i + 1 < |events| && Live(events, mid, i)
    ensures Live(events[..|events| - 1], mid, i)
  {
    var init := events[..|events| - 1];
    assert forall j :: 0 <= j < |init| ==> init[j] == events[j];
  }

  lemma LiveAfter(events: seq<Event>, mid: uint16, i: nat)
    requires events != [] && mid in Run(events)
    requires var init := events[..|events| - 1];
      Live(init, mid, i) && mid in Run(init) && Run(init)[mid] == MappedMid(init[i].port, init[i].at)
    requires var e := events[|events| - 1]; !(e.Track? && e.mid == mid)
    ensures Live(events, mid, i)
  {
    var n := |events| - 1;
    var init, e := events[..n], events[n];
    assert forall j :: 0 <= j < n ==> init[j] == events[j];
    assert !e.Clear?;
    assert e.Sweep? ==> !Expired(Run(init)[mid], e.at);
  }

  /** The clock never runs backwards. */
  ghost predicate Timed(events: seq<Event>) {
    forall i, j :: 0 <= i < j < |events| ==> events[i].at <= events[j].at
  }

  /** An entry younger than 250 seconds is never lost, except to a later track of its MID or a clear. */
  lemma YoungEntryKept(events: seq<Event>, mid: uint16, i: nat, now: int)
    requires Timed(events) && IsCurrentTrack(events, mid, i)
    requires forall j :: 0 <= j < |events| ==> events[j].at <= now
    requires now - events[i].at < MID_TIMEOUT
    ensures mid in Run(events) && Run(events)[mid] == MappedMid(events[i].port, events[i].at)
  {
    LookupIsHistory(events, mid);
    assert Live(events, mid, i);
  }

  /** Right after a sweep no entry is 250 seconds old. */
  lemma SweepLeavesNoneOld(events: seq<Event>, at: int, mid: uint16)
    ensures mid in Run(events + [Sweep(at)]) ==> at - Run(events + [Sweep(at)])[mid].timeCreated < MID_TIMEOUT
  {
    assert (events + [Sweep(at)])[..|events|] == events;
  }

  /**
   * The fallback over a whole run: a response that repeats the MID of a request
   * tracked less than 250 seconds ago goes, unchanged, to the port of the latest
   * such track exactly when its own token does not pass for a tag.
   */
  lemma FallbackRouting(events: seq<Event>, i: nat, now: int, defaultPort: uint16, response: seq<byte>)
    requires |response| >= 1 && LooksLikeCoap(response) && IsResponse(response)
    requires Timed(events) && IsCurrentTrack(events, GetMid(response), i)
    requires forall j :: 0 <= j < |events| ==> events[j].at <= now
    requires now - events[i].at < MID_TIMEOUT
    ensures ToUdp(Run(events), defaultPort, response) == Ok(Inbound(events[i].port, response))
        <==> !HasTag(Token(response))
  {
    hide MarkerByte, Run;
    YoungEntryKept(events, GetMid(response), i, now);
    if HasTag(Token(response)) {
      TagShortens(Run(events), defaultPort, events[i].port, response);
    }
  }
}
