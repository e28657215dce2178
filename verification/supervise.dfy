// The restart loop around one forward: attempts, restart accounting, the
// events it fires, and the exponential backoff between attempts. Durations
// are integer nanoseconds; doubling wraps like the 64-bit integers they are
// stored in.
module Supervise {

  // ---------------------------------------------------------------------
  // Durations
  // ---------------------------------------------------------------------

  const TWO_62: int := 0x4000_0000_0000_0000
  const TWO_63: int := 0x8000_0000_0000_0000
  const TWO_64: int := 0x1_0000_0000_0000_0000
  const THIRTY_SECONDS: int := 30_000_000_000

  /** The value of x in a signed 64-bit integer. */
  function Wrap64(x: int): int {
    var m := x % TWO_64;
    if m < TWO_63 then m else m - TWO_64
  }

  function Min(a: int, b: int): int { if a <= b then a else b }

  /** The update of the backoff after a wait. */
  function NextBackoff(backoff: int, max: int): int {
    Min(Wrap64(backoff * 2), max)
  }

  /** The backoff after k updates. */
  function Backoff(initial: int, max: int, k: nat): int {
    if k == 0 then initial else NextBackoff(Backoff(initial, max, k - 1), max)
  }

  function Pow2(k: nat): int { if k == 0 then 1 else 2 * Pow2(k - 1) }

  /** The documented schedule: doubling from initial, capped at max. */
  function Schedule(initial: int, max: int, k: nat): int {
    Min(initial * Pow2(k), max)
  }

  lemma SmallDoesNotWrap(x: int)
    requires 0 <= x < TWO_63
    ensures Wrap64(x) == x
  {}

  lemma {:induction false} BackoffFollowsSchedule(initial: int, max: int, k: nat)
    requires 0 < initial <= max < TWO_62
    ensures Backoff(initial, max, k) == Schedule(initial, max, k) && 0 < Backoff(initial, max, k) <= max
  {
    if k > 0 {
      BackoffFollowsSchedule(initial, max, k - 1);
      var b := Backoff(initial, max, k - 1);
      SmallDoesNotWrap(2 * b);
      DoubledStep(initial, Pow2(k - 1), max, b);
    } else {
      assert initial * Pow2(0) == initial;
    }
  }

  /** Doubling what is capped, and capping again, doubles under the cap. */
  lemma DoubledStep(initial: int, p: int, max: int, b: int)
    requires b == Min(initial * p, max) && 0 < b
    ensures Min(2 * b, max) == Min(initial * (2 * p), max)
  {
    assert initial * (2 * p) == 2 * (initial * p);
  }

  lemma {:induction false} Pow2Positive(k: nat)
    ensures Pow2(k) >= 1
  {
    if k > 0 { Pow2Positive(k - 1); }
  }

  ghost predicate FollowsSchedule(initial: int, max: int) {
    forall k: nat :: Backoff(initial, max, k) == Schedule(initial, max, k)
  }

  predicate Doubles(initial: int, max: int) {
    0 <= initial <= max && (initial == 0 || max < TWO_62)
  }

  lemma DoublingFollowsSchedule(initial: int, max: int, k: nat)
    requires Doubles(initial, max)
    ensures Backoff(initial, max, k) == Schedule(initial, max, k) >= 0
  {
    if initial == 0 {
      ZeroStays(max, k);
    } else {
      BackoffFollowsSchedule(initial, max, k);
      Pow2Positive(k);
      assert 0 <= initial * Pow2(k);
    }
  }

  predicate IsDuration(d: int) { -TWO_63 <= d < TWO_63 }

  /** The schedule is followed for ever exactly when the first backoff is not
      above the maximum and is zero, or positive with a maximum below 2^62
      nanoseconds (146 years). A larger first backoff is waited out uncapped;
      with a larger maximum a doubling overflows, the backoff turns negative, and
      the loop retries at once; and a negative backoff overflows sooner or later. */
  lemma BackoffFollowsScheduleIff(initial: int, max: int)
    requires IsDuration(initial) && IsDuration(max)
    ensures FollowsSchedule(initial, max) <==>
            0 <= initial <= max && (initial == 0 || max < 0x4000_0000_0000_0000)
  {
    if initial > max {
      assert Backoff(initial, max, 0) == initial != Schedule(initial, max, 0);
    } else if initial < 0 {
      NegativeOverflows(initial, max);
    } else if Doubles(initial, max) {
      forall k: nat ensures Backoff(initial, max, k) == Schedule(initial, max, k) {
        DoublingFollowsSchedule(initial, max, k);
      }
    } else {
      LargeMaximumOverflows(initial, max);
    }
  }

  lemma {:induction false} ZeroStays(max: int, k: nat)
    requires 0 <= max
    ensures Backoff(0, max, k) == 0 && Schedule(0, max, k) == 0
  {
    if k > 0 { ZeroStays(max, k - 1); }
  }

  lemma {:induction false} BackoffIsDuration(initial: int, max: int, k: nat)
    requires IsDuration(initial) && IsDuration(max)
    ensures IsDuration(Backoff(initial, max, k))
  {
    if k > 0 { BackoffIsDuration(initial, max, k - 1); }
  }

  lemma NegativeOverflows(initial: int, max: int)
    requires IsDuration(initial) && IsDuration(max) && initial < 0
    ensures Backoff(initial, max, 64) != Schedule(initial, max, 64)
  {
    BackoffIsDuration(initial, max, 64);
    Pow2Sixty2();
    assert initial * Pow2(64) <= -TWO_64;
  }

  lemma LargeMaximumOverflows(initial: int, max: int)
    requires 0 < initial <= max && TWO_62 <= max < TWO_63
    ensures || Backoff(initial, max, 62) != Schedule(initial, max, 62)
            || Backoff(initial, max, 63) != Schedule(initial, max, 63)
  {
    if Backoff(initial, max, 62) == Schedule(initial, max, 62) {
      Pow2Sixty2();
      assert initial * TWO_62 >= TWO_62;
      var b := Backoff(initial, max, 62);
      assert TWO_62 <= b < TWO_63;
      assert Backoff(initial, max, 63) == NextBackoff(b, max) == 2 * b - TWO_64;
      Pow2Positive(63);
      assert initial * Pow2(63) > 0;
      assert Schedule(initial, max, 63) > 0;
    }
  }

  lemma Pow2Sixty2()
    ensures Pow2(62) == TWO_62 && Pow2(64) == TWO_64
  {
    assert Pow2(8) == 256;
    Pow2Adds(8, 8);
    Pow2Adds(16, 16);
    Pow2Adds(32, 32);
    assert Pow2(64) == 2 * Pow2(63) == 4 * Pow2(62);
  }

  lemma {:induction false} Pow2Adds(a: nat, b: nat)
    ensures Pow2(a + b) == Pow2(a) * Pow2(b)
  {
    if a > 0 {
      Pow2Adds(a - 1, b);
      assert Pow2(a + b) == 2 * Pow2(a - 1 + b);
    }
  }

  /** Conversion of a float to an integer duration truncates towards zero. */
  function Truncate(x: real): int {
    if x >= 0.0 then x.Floor else -((-x).Floor)
  }

  function Offset(rand: real, jitter: real): real { rand * 2.0 * jitter - jitter }

  /** addJitter; rand is the random number, drawn from [0, 1). */
  function AddJitter(d: int, rand: real): int {
    var jitter := d as real * 0.25;
    d + Truncate(Offset(rand, jitter))
  }

  lemma JitterIsAQuarter(d: int, rand: real)
    requires 0 <= d && 0.0 <= rand < 1.0
    ensures 4 * (AddJitter(d, rand) - d) <= d
    ensures 4 * (d - AddJitter(d, rand)) <= d
  {
    var jitter := d as real * 0.25;
    OffsetIsBounded(rand, jitter);
    TruncateIsBounded(Offset(rand, jitter), jitter);
    QuarterInIntegers(d, Truncate(Offset(rand, jitter)), jitter);
  }

  /** And it grows with the random number, from three quarters of the duration to
      five, to within a nanosecond. */
  lemma JitterIsLinear(d: int, rand: real)
    ensures d as real * (0.75 + 0.5 * rand) - 1.0 < AddJitter(d, rand) as real
    ensures AddJitter(d, rand) as real < d as real * (0.75 + 0.5 * rand) + 1.0
  {
    var j := d as real * 0.25;
    assert rand * 2.0 * j == 0.5 * rand * d as real;
    assert d as real + Offset(rand, j) == d as real * (0.75 + 0.5 * rand);
    assert -1.0 < Truncate(Offset(rand, j)) as real - Offset(rand, j) < 1.0;
  }

  lemma QuarterInIntegers(d: int, t: int, jitter: real)
    requires jitter == d as real * 0.25 && -jitter <= t as real <= jitter
    ensures 4 * t <= d && -4 * t <= d
  {
    assert 4.0 * jitter == d as real;
    assert (4 * t) as real <= d as real && (-4 * t) as real <= d as real;
  }

  lemma OffsetIsBounded(rand: real, jitter: real)
    requires 0.0 <= rand < 1.0 && 0.0 <= jitter
    ensures -jitter <= Offset(rand, jitter) <= jitter
  {
    ScaledIsBounded(rand * 2.0 - 1.0, jitter);
    assert rand * 2.0 * jitter - jitter == (rand * 2.0 - 1.0) * jitter;
  }

  lemma ScaledIsBounded(f: real, j: real)
    requires -1.0 <= f <= 1.0 && 0.0 <= j
    ensures -j <= f * j <= j
  {
    assert (1.0 - f) * j >= 0.0 && (1.0 + f) * j >= 0.0;
  }

  lemma TruncateIsBounded(x: real, j: real)
    requires -j <= x <= j
    ensures -j <= Truncate(x) as real <= j
  {}

  // ---------------------------------------------------------------------
  // The loop as a step function
  // ---------------------------------------------------------------------

  /** How an attempt ends: preempted by a pod event, or dropped after a time
      with some number of failed stream creations. */
  datatype Outcome = Preempted | Dropped(duration: int, streamErrors: nat)

  /** What the environment does in one iteration: whether the manager stops
      before, during or in the wait after the attempt, how the attempt ends,
      and the random number for the jitter. */
  datatype Attempt = Attempt(stopBefore: bool, outcome: Outcome, stopDuring: bool, stopInWait: bool, rand: real)

  datatype Event =
    | Started
    | Disconnected(restarts: nat)
    | ForwardFailed(restarts: nat)
    | ForwardStopped
    | Waiting(base: int, delay: int)

  datatype State = Starting | Failed | Stopped

  datatype Settings = Settings(maxRestarts: int, backoffInitial: int, backoffMax: int)

  /** live: the loop has not returned. */
  datatype Supervisor = Supervisor(
    live: bool, state: State, restarts: nat, preemptions: nat, backoff: int, trace: seq<Event>)

  function Initially(c: Settings): Supervisor {
    Supervisor(true, Starting, 0, 0, c.backoffInitial, [])
  }

  predicate Healthy(o: Outcome) {
    o.Dropped? && o.duration > THIRTY_SECONDS && o.streamErrors == 0
  }

  /** What a wait after this outcome is based on. */
  function WaitBase(c: Settings, backoff: int, o: Outcome): int {
    if Healthy(o) then c.backoffInitial else backoff
  }

  /** One iteration. */
  function Iterate(c: Settings, s: Supervisor, a: Attempt): Supervisor {
    if !s.live then s
    else if a.stopBefore then s.(live := false, state := Stopped, trace := s.trace + [ForwardStopped])
    else
      var t := s.trace + [Started];
      if a.stopDuring then s.(live := false, state := Stopped, trace := t)
      else if a.outcome.Preempted? then
        s.(state := Starting, preemptions := s.preemptions + 1, backoff := c.backoffInitial, trace := t)
      else
        var restarts := s.restarts + 1;
        var u := t + [Disconnected(restarts)];
        if c.maxRestarts > 0 && restarts >= c.maxRestarts then
          s.(live := false, state := Failed, restarts := restarts, trace := u + [ForwardFailed(restarts)])
        else
          var base := WaitBase(c, s.backoff, a.outcome);
          var w := u + [Waiting(base, AddJitter(base, a.rand))];
          if a.stopInWait then s.(live := false, state := Failed, restarts := restarts, backoff := base, trace := w)
          else s.(state := Failed, restarts := restarts, backoff := NextBackoff(base, c.backoffMax), trace := w)
  }

  function Run(c: Settings, script: seq<Attempt>): Supervisor {
    if script == [] then Initially(c)
    else Iterate(c, Run(c, script[..|script| - 1]), script[|script| - 1])
  }

  // ---------------------------------------------------------------------
  // Accounting
  // ---------------------------------------------------------------------

  function Starts(trace: seq<Event>): nat {
    if trace == [] then 0
    else Starts(trace[..|trace| - 1]) + if trace[|trace| - 1] == Started then 1 else 0
  }

  /** The restart numbers the disconnected events carry, in order. */
  function Disconnects(trace: seq<Event>): seq<nat> {
    if trace == [] then []
    else
      var e := trace[|trace| - 1];
      Disconnects(trace[..|trace| - 1]) + if e.Disconnected? then [e.restarts] else []
  }

  lemma {:induction false} CountsAppend(a: seq<Event>, b: seq<Event>)
    ensures Starts(a + b) == Starts(a) + Starts(b)
    ensures Disconnects(a + b) == Disconnects(a) + Disconnects(b)
  {
    if b == [] {
      assert a + b == a;
    } else {
      assert (a + b)[..|a + b| - 1] == a + b[..|b| - 1];
      CountsAppend(a, b[..|b| - 1]);
    }
  }

  /** 1, 2, ..., n */
  function UpTo(n: nat): seq<nat> { if n == 0 then [] else UpTo(n - 1) + [n] }

  /** A final event is the last one, and the loop has returned. */
  ghost predicate FinalIsLast(c: Settings, s: Supervisor) {
    && (forall i | 0 <= i < |s.trace| && s.trace[i].ForwardFailed? ::
          i == |s.trace| - 1 && s.trace[i].restarts == s.restarts == c.maxRestarts && !s.live)
    && (forall i | 0 <= i < |s.trace| && s.trace[i].ForwardStopped? :: i == |s.trace| - 1 && !s.live)
  }

  ghost predicate WithinLimit(c: Settings, s: Supervisor) {
    c.maxRestarts > 0 ==>
      && s.restarts <= c.maxRestarts
      && (s.live ==> s.restarts < c.maxRestarts)
      && (s.restarts == c.maxRestarts ==> s.trace != [] && s.trace[|s.trace| - 1] == ForwardFailed(s.restarts))
  }

  ghost predicate Accounted(c: Settings, s: Supervisor) {
    && Disconnects(s.trace) == UpTo(s.restarts)
    && (s.live ==> Starts(s.trace) == s.restarts + s.preemptions)
    && s.restarts + s.preemptions <= Starts(s.trace) <= s.restarts + s.preemptions + 1
    && FinalIsLast(c, s)
    && WithinLimit(c, s)
  }

  lemma NewEvents(s: Supervisor, n: nat, wait: Event)
    requires wait.Waiting? || wait.ForwardFailed?
    ensures Starts([Started]) == 1 && Disconnects([Started]) == []
    ensures Starts([Started, Disconnected(n), wait]) == 1 && Disconnects([Started, Disconnected(n), wait]) == [n]
    ensures Starts([ForwardStopped]) == 0 && Disconnects([ForwardStopped]) == []
  {
    assert [Started, Disconnected(n), wait][..2] == [Started, Disconnected(n)];
    assert [Started, Disconnected(n)][..1] == [Started];
    assert [Started][..0] == [];
    assert [ForwardStopped][..0] == [];
  }

  /** The events one iteration of a live loop fires. */
  function NewEventsOf(c: Settings, s: Supervisor, a: Attempt): seq<Event> {
    var n := s.restarts + 1;
    if a.stopBefore then [ForwardStopped]
    else if a.stopDuring || a.outcome.Preempted? then [Started]
    else if c.maxRestarts > 0 && n >= c.maxRestarts then [Started, Disconnected(n), ForwardFailed(n)]
    else
      var base := WaitBase(c, s.backoff, a.outcome);
      [Started, Disconnected(n), Waiting(base, AddJitter(base, a.rand))]
  }

  lemma IterateAppends(c: Settings, s: Supervisor, a: Attempt)
    requires s.live
    ensures Iterate(c, s, a).trace == s.trace + NewEventsOf(c, s, a)
    ensures Starts(Iterate(c, s, a).trace) == Starts(s.trace) + Starts(NewEventsOf(c, s, a))
    ensures Disconnects(Iterate(c, s, a).trace) == Disconnects(s.trace) + Disconnects(NewEventsOf(c, s, a))
  {
    CountsAppend(s.trace, NewEventsOf(c, s, a));
  }

  lemma NewEventsCount(c: Settings, s: Supervisor, a: Attempt)
    ensures var news, r := NewEventsOf(c, s, a), s.restarts + 1;
            && news != []
            && Starts(news) == (if a.stopBefore then 0 else 1)
            && Disconnects(news) == (if a.stopBefore || a.stopDuring || a.outcome.Preempted? then [] else [r])
  {
    var n, base := s.restarts + 1, WaitBase(c, s.backoff, a.outcome);
    NewEvents(s, n, ForwardFailed(n));
    NewEvents(s, n, Waiting(base, AddJitter(base, a.rand)));
  }

  lemma IterateCounts(c: Settings, s: Supervisor, a: Attempt)
    requires Accounted(c, s) && s.live
    ensures var r := Iterate(c, s, a);
            && Disconnects(r.trace) == UpTo(r.restarts)
            && (r.live ==> Starts(r.trace) == r.restarts + r.preemptions)
            && r.restarts + r.preemptions <= Starts(r.trace) <= r.restarts + r.preemptions + 1
  {
    IterateAppends(c, s, a);
    NewEventsCount(c, s, a);
    assert UpTo(s.restarts) + [] == UpTo(s.restarts);
  }

  lemma IterateEnds(c: Settings, s: Supervisor, a: Attempt)
    requires FinalIsLast(c, s) && WithinLimit(c, s) && s.live
    ensures FinalIsLast(c, Iterate(c, s, a)) && WithinLimit(c, Iterate(c, s, a))
  {
    var s', news := Iterate(c, s, a), NewEventsOf(c, s, a);
    IterateAppends(c, s, a);
    NoFinalYet(c, s, s', news);
    assert s'.trace[|s'.trace| - 1] == news[|news| - 1];
  }

  lemma IterateKeepsAccounts(c: Settings, s: Supervisor, a: Attempt)
    requires Accounted(c, s) && s.live
    ensures Accounted(c, Iterate(c, s, a))
  {
    IterateCounts(c, s, a);
    IterateEnds(c, s, a);
  }

  lemma NoFinalYet(c: Settings, s: Supervisor, s': Supervisor, news: seq<Event>)
    requires FinalIsLast(c, s) && s.live && s'.trace == s.trace + news
    requires forall i | 0 <= i < |news| && (news[i].ForwardFailed? || news[i].ForwardStopped?) ::
               i == |news| - 1 && !s'.live
    requires forall i | 0 <= i < |news| && news[i].ForwardFailed? :: news[i].restarts == s'.restarts == c.maxRestarts
    ensures FinalIsLast(c, s')
  {
    assert forall i | 0 <= i < |s'.trace| :: s'.trace[i] == if i < |s.trace| then s.trace[i] else news[i - |s.trace|];
  }

  /** For every script of outcomes: the disconnected events number the restarts
      1, 2, 3, ...; forward:failed occurs at most once, last, and exactly when
      the limit is reached; a loop that goes on has started one attempt per
      restart and per preemption and is below the limit. */
  lemma {:induction false} RestartsAreAccounted(c: Settings, script: seq<Attempt>)
    ensures Accounted(c, Run(c, script))
  {
    if script != [] {
      RestartsAreAccounted(c, script[..|script| - 1]);
      if Run(c, script[..|script| - 1]).live {
        IterateKeepsAccounts(c, Run(c, script[..|script| - 1]), script[|script| - 1]);
      }
    }
  }

  // ---------------------------------------------------------------------
  // Backoff over a run
  // ---------------------------------------------------------------------

  /** How many waits lie between the last reset and the end of the script: a
      preemption resets before the next wait, a healthy connection before its
      own. */
  function WaitsSinceReset(script: seq<Attempt>): nat {
    if script == [] then 0
    else
      var a := script[|script| - 1];
      if a.outcome.Preempted? then 0
      else if Healthy(a.outcome) then 1
      else WaitsSinceReset(script[..|script| - 1]) + 1
  }

  lemma {:induction false} BackoffAtHead(c: Settings, script: seq<Attempt>)
    requires Run(c, script).live
    ensures Run(c, script).backoff == Backoff(c.backoffInitial, c.backoffMax, WaitsSinceReset(script))
  {
    if script != [] {
      var prefix := script[..|script| - 1];
      assert Run(c, prefix).live;
      BackoffAtHead(c, prefix);
      assert Backoff(c.backoffInitial, c.backoffMax, 1) == NextBackoff(c.backoffInitial, c.backoffMax);
    }
  }

  /** Whether this iteration reaches the wait. */
  predicate Waits(c: Settings, s: Supervisor, a: Attempt) {
    s.live && !a.stopBefore && !a.stopDuring && a.outcome.Dropped?
    && !(c.maxRestarts > 0 && s.restarts + 1 >= c.maxRestarts)
  }

  lemma BaseFollowsSchedule(c: Settings, script: seq<Attempt>, o: Outcome)
    requires Doubles(c.backoffInitial, c.backoffMax) && Run(c, script).live
    ensures WaitBase(c, Run(c, script).backoff, o)
         == Schedule(c.backoffInitial, c.backoffMax, if Healthy(o) then 0 else WaitsSinceReset(script)) >= 0
  {
    BackoffAtHead(c, script);
    DoublingFollowsSchedule(c.backoffInitial, c.backoffMax, WaitsSinceReset(script));
    DoublingFollowsSchedule(c.backoffInitial, c.backoffMax, 0);
  }

  lemma JitterStaysClose(base: int, rand: real)
    requires 0 <= base && 0.0 <= rand < 1.0
    ensures base - base / 4 <= AddJitter(base, rand) <= base + base / 4
  {
    JitterIsAQuarter(base, rand);
  }

  lemma WaitsOnce(c: Settings, s: Supervisor, a: Attempt) returns (base: int, delay: int)
    requires Waits(c, s, a)
    ensures base == WaitBase(c, s.backoff, a.outcome) && delay == AddJitter(base, a.rand)
    ensures Iterate(c, s, a).trace == s.trace + [Started, Disconnected(s.restarts + 1), Waiting(base, delay)]
  {
    base := WaitBase(c, s.backoff, a.outcome);
    delay := AddJitter(base, a.rand);
    IterateAppends(c, s, a);
    assert NewEventsOf(c, s, a) == [Started, Disconnected(s.restarts + 1), Waiting(base, delay)];
  }

  /** Every wait of every run: the k-th since a reset is based on
      min(initial * 2^k, max) and is within a quarter of that. */
  lemma WaitsFollowSchedule(c: Settings, script: seq<Attempt>, a: Attempt) returns (base: int, delay: int)
    requires Doubles(c.backoffInitial, c.backoffMax) && 0.0 <= a.rand < 1.0
    requires Waits(c, Run(c, script), a)
    ensures var s, s' := Run(c, script), Iterate(c, Run(c, script), a);
            && s'.trace == s.trace + [Started, Disconnected(s.restarts + 1), Waiting(base, delay)]
            && base == Schedule(c.backoffInitial, c.backoffMax,
                                if Healthy(a.outcome) then 0 else WaitsSinceReset(script))
            && base - base / 4 <= delay <= base + base / 4
  {
    BaseFollowsSchedule(c, script, a.outcome);
    base, delay := WaitsOnce(c, Run(c, script), a);
    JitterStaysClose(base, a.rand);
  }

  /** The connection dropped, and had not been up for more than thirty seconds
      without a stream error. */
  ghost predicate Fell(o: Outcome) {
    o.Dropped? && (o.duration <= 30_000_000_000 || o.streamErrors > 0)
  }

  lemma {:induction false} WaitsSince(script: seq<Attempt>, m: nat)
    requires m <= |script| && forall i | m <= i < |script| :: Fell(script[i].outcome)
    requires m == 0 || !Fell(script[m - 1].outcome)
    ensures WaitsSinceReset(script)
         == |script| - m + if m > 0 && script[m - 1].outcome.Dropped? then 1 else 0
    decreases |script|
  {
    if m < |script| { WaitsSince(script[..|script| - 1], m); }
  }

  /** Counting attempts: after m attempts the last of which healed or was
      preempted, and then only attempts that fell, the wait is based on the
      initial backoff doubled once per wait since, and capped. */
  lemma KthWait(c: Settings, script: seq<Attempt>, m: nat, a: Attempt) returns (base: int, delay: int)
    requires Doubles(c.backoffInitial, c.backoffMax) && 0.0 <= a.rand < 1.0 && Waits(c, Run(c, script), a)
    requires m <= |script| && forall i | m <= i < |script| :: Fell(script[i].outcome)
    requires m == 0 || !Fell(script[m - 1].outcome)
    ensures Iterate(c, Run(c, script), a).trace
         == Run(c, script).trace + [Started, Disconnected(Run(c, script).restarts + 1), Waiting(base, delay)]
    ensures var waits := if !Fell(a.outcome) then 0
                         else |script| - m + if m > 0 && script[m - 1].outcome.Dropped? then 1 else 0;
            var doubled := c.backoffInitial * Pow2(waits);
            && base == (if doubled <= c.backoffMax then doubled else c.backoffMax)
            && base - base / 4 <= delay <= base + base / 4
  {
    WaitsSince(script, m);
    base, delay := WaitsFollowSchedule(c, script, a);
  }

  /** What state a forward shows follows from the last event of its loop, and
      from whether the loop has returned. */
  ghost predicate ShowsLastEvent(s: Supervisor) {
    if s.trace == [] then s.live && s.state == Starting
    else
      match s.trace[|s.trace| - 1]
      case Started => s.state == if s.live then Starting else Stopped
      case Disconnected(_) => false
      case ForwardFailed(_) => !s.live && s.state == Failed
      case ForwardStopped => !s.live && s.state == Stopped
      case Waiting(_, _) => s.state == Failed
  }

  lemma {:induction false} StateShowsLastEvent(c: Settings, script: seq<Attempt>)
    ensures ShowsLastEvent(Run(c, script))
  {
    if script != [] {
      var s := Run(c, script[..|script| - 1]);
      StateShowsLastEvent(c, script[..|script| - 1]);
      if s.live {
        var news := NewEventsOf(c, s, script[|script| - 1]);
        IterateAppends(c, s, script[|script| - 1]);
        assert (s.trace + news)[|s.trace + news| - 1] == news[|news| - 1];
      }
    }
  }

  // ---------------------------------------------------------------------
  // The loop itself
  // ---------------------------------------------------------------------

  class PortForward {
    var state: State
    var restarts: nat
    var trace: seq<Event>
    ghost var preemptions: nat

    constructor ()
      ensures state == Starting && restarts == 0 && trace == [] && preemptions == 0
    {
      state, restarts, trace, preemptions := Starting, 0, [], 0;
    }

    method Fire(e: Event)
      modifies this`trace
      ensures trace == old(trace) + [e]
    {
      trace := trace + [e];
    }

    /** Runs until the script of outcomes is used up or the loop returns. */
    method SuperviseSingle(c: Settings, script: seq<Attempt>) returns (live: bool, ghost backoffAtEnd: int)
      requires state == Starting && restarts == 0 && trace == [] && preemptions == 0
      modifies this
      ensures Supervisor(live, state, restarts, preemptions, backoffAtEnd, trace) == Run(c, script)
      ensures Accounted(c, Supervisor(live, state, restarts, preemptions, backoffAtEnd, trace))
    {
      var backoff := c.backoffInitial;
      var i := 0;
      live := true;
      while live && i < |script|
        invariant i <= |script|
        invariant Supervisor(live, state, restarts, preemptions, backoff, trace) == Run(c, script[..i])
      {
        var a := script[i];
        RunStep(c, script, i);
        i := i + 1;
        if a.stopBefore {
          state := Stopped;
          Fire(ForwardStopped);
          live := false;
          continue;
        }
        state := Starting;
        Fire(Started);
        if a.stopDuring {
          state := Stopped;
          live := false;
          continue;
        }
        if a.outcome.Preempted? {
          preemptions := preemptions + 1;
          backoff := c.backoffInitial;
          continue;
        }
        state := Failed;
        restarts := restarts + 1;
        Fire(Disconnected(restarts));
        if c.maxRestarts > 0 && restarts >= c.maxRestarts {
          Fire(ForwardFailed(restarts));
          live := false;
          continue;
        }
        if Healthy(a.outcome) {
          backoff := c.backoffInitial;
        }
        var delay := AddJitter(backoff, a.rand);
        Fire(Waiting(backoff, delay));
        if a.stopInWait {
          live := false;
          continue;
        }
        backoff := Min(Wrap64(backoff * 2), c.backoffMax);
      }
      assert script[..|script|] == script;
      if !live {
        DeadStaysDead(c, script, i);
      }
      RestartsAreAccounted(c, script);
      backoffAtEnd := backoff;
    }
  }

  lemma RunStep(c: Settings, script: seq<Attempt>, i: nat)
    requires i < |script|
    ensures Run(c, script[..i + 1]) == Iterate(c, Run(c, script[..i]), script[i])
  {
    assert script[..i + 1][..i] == script[..i];
  }

  /** Once the loop has returned, nothing more happens. */
  lemma {:induction false} DeadStaysDead(c: Settings, script: seq<Attempt>, i: nat)
    requires i <= |script| && !Run(c, script[..i]).live
    ensures Run(c, script) == Run(c, script[..i])
    decreases |script|
  {
    if i == |script| {
      assert script[..i] == script;
    } else {
      var prefix := script[..|script| - 1];
      assert prefix[..i] == script[..i];
      DeadStaysDead(c, prefix, i);
    }
  }
}
