// The health loops of a running forward. Both count consecutive failed probes
// of the local port; they differ in what else ends or touches the session.
// What arrives on the select of each loop is an arbitrary sequence of events.
module Health {
  import opened Wrappers

  // ---------------------------------------------------------------------
  // The specification shared by both loops
  // ---------------------------------------------------------------------

  /** The last t probes were made, and all of them failed. */
  ghost predicate LastFailed(probes: seq<bool>, t: nat) {
    t <= |probes| && forall i | |probes| - t <= i < |probes| :: !probes[i]
  }

  /** The length of the run of failures at the end. */
  function Streak(probes: seq<bool>): nat {
    if probes == [] || probes[|probes| - 1] then 0 else Streak(probes[..|probes| - 1]) + 1
  }

  /** The counter of the code is right about the last t probes, for every t. */
  lemma {:induction false} StreakMeansLastFailed(probes: seq<bool>, t: nat)
    ensures Streak(probes) >= t <==> LastFailed(probes, t)
  {
    if probes == [] || probes[|probes| - 1] {
    } else if t > 0 {
      var init := probes[..|probes| - 1];
      StreakMeansLastFailed(init, t - 1);
      assert forall i | 0 <= i < |init| :: init[i] == probes[i];
    }
  }

  lemma StreakStep(probes: seq<bool>, open: bool, t: nat)
    ensures Streak(probes + [open]) == if open then 0 else Streak(probes) + 1
    ensures Streak(probes + [open]) >= t <==> LastFailed(probes + [open], t)
  {
    assert (probes + [open])[..|probes|] == probes;
    StreakMeansLastFailed(probes + [open], t);
  }

  // ---------------------------------------------------------------------
  // The shared-tunnel loop
  // ---------------------------------------------------------------------

  /** streamErrors is the counter as read at the tick; open is the probe. */
  datatype MuxEvent = TunnelClosed | Cancelled | MaxAge | Replacement | Tick(streamErrors: nat, open: bool)

  datatype MuxEnd =
    | Running | Closed | Stopped | AgeReached | Preempted
    | Degraded(streamErrors: nat) | Unhealthy(failures: nat)

  function MuxProbes(events: seq<MuxEvent>): seq<bool> {
    if events == [] then []
    else
      var e := events[|events| - 1];
      MuxProbes(events[..|events| - 1]) + (if e.Tick? then [e.open] else [])
  }

  lemma MuxProbesStep(events: seq<MuxEvent>, i: nat)
    requires i < |events|
    ensures MuxProbes(events[..i + 1])
         == if events[i].Tick? then MuxProbes(events[..i]) + [events[i].open] else MuxProbes(events[..i])
  {
    assert events[..i + 1][..i] == events[..i];
    assert MuxProbes(events[..i]) + [] == MuxProbes(events[..i]);
  }

  /** What event i ends the loop with, if it does. */
  ghost function MuxVerdict(events: seq<MuxEvent>, i: nat, threshold: nat, errorsAtStart: nat): MuxEnd
    requires i < |events|
  {
    match events[i]
    case TunnelClosed => Closed
    case Cancelled => Stopped
    case MaxAge => AgeReached
    case Replacement => Preempted
    case Tick(errors, open) =>
      if errors > errorsAtStart then Degraded(errors)
      else if LastFailed(MuxProbes(events[..i + 1]), threshold) then Unhealthy(threshold)
      else Running
  }

  /** Event i and the t - 1 events before it are ticks whose probe failed. */
  ghost predicate TicksFailed(events: seq<MuxEvent>, i: nat, t: nat) {
    i < |events| && t <= i + 1 && forall j | i + 1 - t <= j <= i :: events[j].Tick? && !events[j].open
  }

  lemma {:induction false} ProbesOfTicks(events: seq<MuxEvent>, k: nat)
    requires k <= |events| && forall j | 0 <= j < k :: events[j].Tick?
    ensures |MuxProbes(events[..k])| == k
    ensures forall j | 0 <= j < k :: MuxProbes(events[..k])[j] == events[j].open
  {
    if k > 0 {
      ProbesOfTicks(events, k - 1);
      MuxProbesStep(events, k - 1);
    }
  }

  /** What a loop that is still going at event i ends with there, told by the
      events alone. */
  ghost function EndAt(events: seq<MuxEvent>, i: nat, threshold: nat, errorsAtStart: nat): MuxEnd
    requires i < |events|
  {
    if events[i] == TunnelClosed then Closed
    else if events[i] == Cancelled then Stopped
    else if events[i] == MaxAge then AgeReached
    else if events[i] == Replacement then Preempted
    else if events[i].streamErrors > errorsAtStart then Degraded(events[i].streamErrors)
    else if TicksFailed(events, i, threshold) then Unhealthy(threshold)
    else Running
  }

  lemma {:induction false} VerdictByEvents(events: seq<MuxEvent>, i: nat, threshold: nat, errorsAtStart: nat)
    requires threshold >= 1 && i < |events|
    requires forall j | 0 <= j < i :: MuxVerdict(events, j, threshold, errorsAtStart).Running?
    ensures MuxVerdict(events, i, threshold, errorsAtStart) == EndAt(events, i, threshold, errorsAtStart)
    ensures forall j | 0 <= j < i :: EndAt(events, j, threshold, errorsAtStart).Running?
  {
    if i > 0 { VerdictByEvents(events, i - 1, threshold, errorsAtStart); }
    forall j | 0 <= j < i ensures events[j].Tick? { assert MuxVerdict(events, j, threshold, errorsAtStart).Running?; }
    if events[i].Tick? { ProbesOfTicks(events, i + 1); }
  }

  /** The counter and the verdict from one event to the next. */
  lemma MuxStep(events: seq<MuxEvent>, i: nat, threshold: nat, errorsAtStart: nat, count: nat)
    requires i < |events| && count == Streak(MuxProbes(events[..i])) < threshold
    ensures events[i].Tick? ==>
              var e := events[i];
              && Streak(MuxProbes(events[..i + 1])) == (if e.open then 0 else count + 1)
              && MuxVerdict(events, i, threshold, errorsAtStart)
                 == if e.streamErrors > errorsAtStart then Degraded(e.streamErrors)
                    else if !e.open && count + 1 >= threshold then Unhealthy(threshold)
                    else Running
  {
    MuxProbesStep(events, i);
    if events[i].Tick? { StreakStep(MuxProbes(events[..i]), events[i].open, threshold); }
  }

  /** Ends at the first event whose verdict is not Running, with that verdict:
      for health exactly at the first tick whose last threshold probes failed. */
  method MuxHealthLoop(events: seq<MuxEvent>, threshold: nat, errorsAtStart: nat) returns (end: MuxEnd, at: nat)
    requires threshold >= 1
    ensures at <= |events|
    ensures forall i | 0 <= i < at :: MuxVerdict(events, i, threshold, errorsAtStart).Running?
    ensures end.Running? <==> at == |events|
    ensures at < |events| ==> end == MuxVerdict(events, at, threshold, errorsAtStart)
  {
    var failCount := 0;
    at := 0;
    while at < |events|
      invariant at <= |events|
      invariant failCount == Streak(MuxProbes(events[..at])) < threshold
      invariant forall i | 0 <= i < at :: MuxVerdict(events, i, threshold, errorsAtStart).Running?
    {
      MuxStep(events, at, threshold, errorsAtStart, failCount);
      match events[at] {
        case TunnelClosed => return Closed, at;
        case Cancelled => return Stopped, at;
        case MaxAge => return AgeReached, at;
        case Replacement => return Preempted, at;
        case Tick(errors, open) =>
          if errors > errorsAtStart {
            return Degraded(errors), at;
          }
          if !open {
            failCount := failCount + 1;
            if failCount >= threshold {
              return Unhealthy(failCount), at;
            }
          } else {
            failCount := 0;
          }
      }
      at := at + 1;
    }
    return Running, at;
  }

  // ---------------------------------------------------------------------
  // The isolated loop
  // ---------------------------------------------------------------------

  datatype Pod = Pod(name: string, targetPort: int)

  const NO_POD: Pod := Pod("", 0)

  /** A replacement hint carries the outcome of resolving the pod again. */
  datatype IsolatedEvent = Cancel | Expired | Hint(resolved: Option<Pod>) | Probe(open: bool)

  datatype IsolatedEnd = StillRunning | CtxDone | GaveUp(failures: nat)

  function IsolatedProbes(events: seq<IsolatedEvent>): seq<bool> {
    if events == [] then []
    else
      var e := events[|events| - 1];
      IsolatedProbes(events[..|events| - 1]) + (if e.Probe? then [e.open] else [])
  }

  lemma IsolatedProbesStep(events: seq<IsolatedEvent>, i: nat)
    requires i < |events|
    ensures IsolatedProbes(events[..i + 1])
         == if events[i].Probe? then IsolatedProbes(events[..i]) + [events[i].open] else IsolatedProbes(events[..i])
  {
    assert events[..i + 1][..i] == events[..i];
    assert IsolatedProbes(events[..i]) + [] == IsolatedProbes(events[..i]);
  }

  ghost function IsolatedVerdict(events: seq<IsolatedEvent>, i: nat, threshold: nat): IsolatedEnd
    requires i < |events|
  {
    match events[i]
    case Cancel => CtxDone
    case Probe(_) => if LastFailed(IsolatedProbes(events[..i + 1]), threshold) then GaveUp(threshold) else StillRunning
    case Expired => StillRunning
    case Hint(_) => StillRunning
  }

  /** The counter and the verdict from one event to the next. */
  lemma IsolatedStep(events: seq<IsolatedEvent>, i: nat, threshold: nat, count: nat)
    requires i < |events| && count == Streak(IsolatedProbes(events[..i])) < threshold
    ensures var e := events[i];
            && Streak(IsolatedProbes(events[..i + 1])) == (if !e.Probe? then count else if e.open then 0 else count + 1)
            && IsolatedVerdict(events, i, threshold)
               == if e.Cancel? then CtxDone
                  else if e.Probe? && !e.open && count + 1 >= threshold then GaveUp(threshold)
                  else StillRunning
  {
    IsolatedProbesStep(events, i);
    if events[i].Probe? { StreakStep(IsolatedProbes(events[..i]), events[i].open, threshold); }
  }

  /** The pod new clients go to: the last one resolved, unless it has expired. */
  function PodAfter(start: Pod, events: seq<IsolatedEvent>): Pod {
    if events == [] then start
    else
      match events[|events| - 1]
      case Expired => NO_POD
      case Hint(Some(pod)) => pod
      case _ => PodAfter(start, events[..|events| - 1])
  }

  lemma PodAfterStep(start: Pod, events: seq<IsolatedEvent>, i: nat)
    requires i < |events|
    ensures PodAfter(start, events[..i + 1])
         == if events[i].Expired? then NO_POD
            else if events[i].Hint? && events[i].resolved.Some? then events[i].resolved.value
            else PodAfter(start, events[..i])
  {
    assert events[..i + 1][..i] == events[..i];
  }

  /** The probes are the answers of the probe events, in order. */
  lemma {:induction false} ProbesInOrder(a: seq<IsolatedEvent>, b: seq<IsolatedEvent>)
    ensures IsolatedProbes(a + b) == IsolatedProbes(a) + IsolatedProbes(b)
    ensures forall open :: IsolatedProbes([Probe(open)]) == [open]
    ensures forall e: IsolatedEvent | !e.Probe? :: IsolatedProbes([e]) == []
  {
    if b == [] {
      assert a + b == a;
    } else {
      assert (a + b)[..|a + b| - 1] == a + b[..|b| - 1];
      ProbesInOrder(a, b[..|b| - 1]);
    }
    assert forall e: IsolatedEvent :: [e][..0] == [];
  }

  /** The pod is what the last event that changes it says: none after an expiry,
      the resolved one after a hint; hints that resolve nothing change nothing. */
  lemma {:induction false} PodIsTheLastChange(start: Pod, events: seq<IsolatedEvent>, m: nat)
    requires m <= |events|
    requires forall i | m <= i < |events| :: events[i].Probe? || events[i].Cancel? || events[i] == Hint(None)
    ensures m == 0 ==> PodAfter(start, events) == start
    ensures m > 0 && events[m - 1].Expired? ==> PodAfter(start, events) == Pod("", 0)
    ensures m > 0 && events[m - 1].Hint? && events[m - 1].resolved.Some? ==>
              PodAfter(start, events) == events[m - 1].resolved.value
    decreases |events|
  {
    if m < |events| { PodIsTheLastChange(start, events[..|events| - 1], m); }
  }

  class IsolatedSession {
    var current: Pod

    /** Age and replacement hints change the pod and never the counter. */
    method Supervise(events: seq<IsolatedEvent>, threshold: nat) returns (end: IsolatedEnd, at: nat)
      requires threshold >= 1
      modifies this
      ensures at <= |events|
      ensures forall i | 0 <= i < at :: IsolatedVerdict(events, i, threshold).StillRunning?
      ensures end.StillRunning? <==> at == |events|
      ensures at < |events| ==> end == IsolatedVerdict(events, at, threshold)
      ensures current == PodAfter(old(current), events[..at])
    {
      var failCount := 0;
      at := 0;
      while at < |events|
        invariant at <= |events|
        invariant failCount == Streak(IsolatedProbes(events[..at])) < threshold
        invariant forall i | 0 <= i < at :: IsolatedVerdict(events, i, threshold).StillRunning?
        invariant current == PodAfter(old(current), events[..at])
      {
        IsolatedStep(events, at, threshold, failCount);
        PodAfterStep(old(current), events, at);
        match events[at] {
          case Cancel => return CtxDone, at;
          case Expired => current := NO_POD;
          case Hint(None) =>
          case Hint(Some(pod)) => current := pod;
          case Probe(open) =>
            if !open {
              failCount := failCount + 1;
              if failCount >= threshold {
                return GaveUp(failCount), at;
              }
            } else {
              failCount := 0;
            }
        }
        at := at + 1;
      }
      return StillRunning, at;
    }
  }
}
