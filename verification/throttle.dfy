// The bandwidth limiter: a token bucket whose balance may go negative, shared
// by every stream of one forward.
//
// Time is an integer number of nanoseconds, which is what the clock and the
// timer of the original work in. The bucket's balance is a real number of
// bytes in the class, as in the original, and an integer number of
// byte-nanoseconds in the specification; the class invariant says that the
// two agree, so nothing is rounded except the sleep itself.
module Throttle {
  import opened Wrappers

  const NANOS: int := 1_000_000_000

  // ---------------------------------------------------------------------
  // Specification: the bucket as a value
  // ---------------------------------------------------------------------

  /** A call to Wait: the clock reading taken under the lock, and the byte count. */
  datatype Call = Call(now: int, n: nat)

  /** credit is the balance in byte-nanoseconds; last is the time of the last refill. */
  datatype Bucket = Bucket(rate: int, credit: int, last: int) {
    ghost predicate Valid() {
      0 < rate && credit <= rate * NANOS
    }
  }

  function Min(a: int, b: int): int { if a <= b then a else b }

  function Max(a: int, b: int): int { if a <= b then b else a }

  /** A new bucket holds one second of burst. */
  function Full(rate: int, now: int): Bucket {
    Bucket(rate, rate * NANOS, now)
  }

  /** Refill for the elapsed time, cap at one second of burst, consume n bytes. */
  function Step(b: Bucket, c: Call): Bucket {
    Bucket(b.rate, Min(b.rate * NANOS, b.credit + (c.now - b.last) * b.rate) - c.n * NANOS, c.now)
  }

  /** The sleep that pays a deficit off, floored to whole nanoseconds. */
  function Sleep(b: Bucket): nat
    requires 0 < b.rate
  {
    if b.credit >= 0 then 0 else (-b.credit) / b.rate
  }

  /** The bucket after a sequence of calls, whichever streams made them. */
  function After(b: Bucket, calls: seq<Call>): Bucket
    decreases |calls|
  {
    if calls == [] then b else Step(After(b, calls[..|calls| - 1]), calls[|calls| - 1])
  }

  /** Clock readings never go backwards, starting from the bucket's last refill. */
  ghost predicate Timely(b: Bucket, calls: seq<Call>) {
    && (forall i | 0 <= i < |calls| :: b.last <= calls[i].now)
    && (forall i, j | 0 <= i <= j < |calls| :: calls[i].now <= calls[j].now)
  }

  /** When call k may proceed: the time of the call plus its sleep. */
  function Release(b: Bucket, calls: seq<Call>, k: nat): int
    requires 0 < b.rate && k < |calls|
  {
    AfterKeepsRate(b, calls[..k + 1]);
    calls[k].now + Sleep(After(b, calls[..k + 1]))
  }

  function Bytes(calls: seq<Call>): nat {
    if calls == [] then 0 else Bytes(calls[..|calls| - 1]) + calls[|calls| - 1].n
  }

  // ---------------------------------------------------------------------
  // Reference: virtual scheduling
  // ---------------------------------------------------------------------

  /** rate times the instant at which the debt will be paid off. Unlike the
      balance it does not mention the clock, and a call moves it by a maximum
      and an addition. */
  function Horizon(b: Bucket): int { b.last * b.rate - b.credit }

  lemma AfterKeepsRate(b: Bucket, calls: seq<Call>)
    ensures After(b, calls).rate == b.rate
    ensures calls != [] ==> After(b, calls).last == calls[|calls| - 1].now
    decreases |calls|
  {
    if calls != [] {
      AfterKeepsRate(b, calls[..|calls| - 1]);
    }
  }

  /** The bucket refines virtual scheduling: an arrival pushes the horizon to
      max(horizon, now - 1s) and then adds the cost of its bytes. */
  lemma StepIsVirtualScheduling(b: Bucket, c: Call)
    ensures Horizon(Step(b, c)) == Max(Horizon(b), (c.now - NANOS) * b.rate) + c.n * NANOS
  {
    var r := b.rate;
    assert (c.now - b.last) * r == c.now * r - b.last * r;
    assert (c.now - NANOS) * r == c.now * r - NANOS * r;
  }

  lemma MulMono(a: int, b: int, r: int)
    requires a <= b && 0 <= r
    ensures a * r <= b * r
  {
    assert (b - a) * r >= 0;
  }

  lemma CancelMul(a: int, b: int, r: int)
    requires 0 < r && a * r < b * r
    ensures a < b
  {
    if b <= a { MulMono(b, a, r); }
  }

  lemma QuotientIs(a: int, r: int, q: int, m: int)
    requires 0 < r && 0 <= m < r && a == q * r + m
    ensures a / r == q
  {
    var q', m' := a / r, a % r;
    assert a == q' * r + m';
    assert (q + 1) * r == q * r + r && (q' + 1) * r == q' * r + r;
    CancelMul(q, q' + 1, r);
    CancelMul(q', q + 1, r);
  }

  lemma FloorOfShift(a: int, t: int, r: int)
    requires 0 < r
    ensures (a - t * r) / r == a / r - t
  {
    var q, m := a / r, a % r;
    assert a == q * r + m;
    assert (q - t) * r == q * r - t * r;
    QuotientIs(a - t * r, r, q - t, m);
  }

  lemma FloorMono(a: int, c: int, r: int)
    requires 0 < r && a <= c
    ensures a / r <= c / r
  {
    var q, q' := a / r, c / r;
    assert a == q * r + a % r && c == q' * r + c % r;
    assert (q' + 1) * r == q' * r + r;
    CancelMul(q, q' + 1, r);
  }

  lemma FloorOfSum(a: int, c: int, r: int)
    requires 0 < r
    ensures a / r + c / r <= (a + c) / r <= a / r + c / r + 1
  {
    var qa, ma, qc, mc := a / r, a % r, c / r, c % r;
    assert a == qa * r + ma && c == qc * r + mc;
    assert (qa + qc) * r == qa * r + qc * r;
    if ma + mc < r {
      QuotientIs(a + c, r, qa + qc, ma + mc);
    } else {
      assert (qa + qc + 1) * r == qa * r + qc * r + r;
      QuotientIs(a + c, r, qa + qc + 1, ma + mc - r);
    }
  }

  /** The release time, in terms of the horizon alone. */
  lemma ReleaseFromHorizon(b: Bucket, now: int)
    requires 0 < b.rate && b.last == now
    ensures now + Sleep(b) == Max(now, Horizon(b) / b.rate)
    ensures b.rate * (now + Sleep(b)) >= Horizon(b) - (b.rate - 1)
    ensures b.credit < 0 ==> b.rate * (now + Sleep(b)) <= Horizon(b)
    ensures b.credit >= 0 ==> Sleep(b) == 0 && Horizon(b) <= now * b.rate
  {
    var r, h := b.rate, Horizon(b);
    FloorOfShift(h, now, r);
    assert h - now * r == -b.credit;
    var q, m := h / r, h % r;
    assert h == q * r + m;
    QuotientIs(now * r, r, now, 0);
    if b.credit >= 0 {
      FloorMono(h, now * r, r);
    } else {
      FloorMono(now * r, h, r);
      assert now + Sleep(b) == q;
    }
  }

  // ---------------------------------------------------------------------
  // Theorems over whole runs
  // ---------------------------------------------------------------------

  /** The horizon after the first k calls. */
  function HorizonAfter(b: Bucket, calls: seq<Call>, k: nat): int
    requires k <= |calls|
  {
    Horizon(After(b, calls[..k]))
  }

  lemma HorizonStep(b: Bucket, calls: seq<Call>, k: nat)
    requires k < |calls|
    ensures HorizonAfter(b, calls, k + 1)
         == Max(HorizonAfter(b, calls, k), (calls[k].now - NANOS) * b.rate) + calls[k].n * NANOS
  {
    assert calls[..k + 1][..k] == calls[..k];
    AfterKeepsRate(b, calls[..k]);
    StepIsVirtualScheduling(After(b, calls[..k]), calls[k]);
  }

  lemma BytesSplit(calls: seq<Call>, i: nat, k: nat)
    requires i <= k < |calls|
    ensures Bytes(calls[i..k + 1]) == Bytes(calls[i..k]) + calls[k].n
  {
    assert calls[i..k + 1][..k - i] == calls[i..k];
  }

  /** Every byte since call i has been charged to the horizon. */
  lemma {:induction false} HorizonGrows(b: Bucket, calls: seq<Call>, i: nat, k: nat)
    requires i <= k <= |calls|
    ensures HorizonAfter(b, calls, k) >= HorizonAfter(b, calls, i) + NANOS * Bytes(calls[i..k])
    decreases k
  {
    if i < k {
      HorizonGrows(b, calls, i, k - 1);
      HorizonStep(b, calls, k - 1);
      BytesSplit(calls, i, k - 1);
    }
  }

  /** A busy period that starts with call i, or with the creation of the
      bucket when i is 0, ends no earlier than this. */
  function BusySince(b: Bucket, calls: seq<Call>, i: nat, k: nat): int
    requires i <= k <= |calls|
  {
    (if i == 0 then Horizon(b) else (calls[i - 1].now - NANOS) * b.rate)
    + NANOS * Bytes(calls[if i == 0 then 0 else i - 1..k])
  }

  lemma BusyStep(b: Bucket, calls: seq<Call>, i: nat, k: nat)
    requires i < k <= |calls|
    ensures BusySince(b, calls, i, k) == BusySince(b, calls, i, k - 1) + NANOS * calls[k - 1].n
  {
    BytesSplit(calls, if i == 0 then 0 else i - 1, k - 1);
  }

  lemma LastBusyPeriod(b: Bucket, calls: seq<Call>, k: nat)
    requires 0 < k <= |calls|
    ensures BusySince(b, calls, k, k) == (calls[k - 1].now - NANOS) * b.rate + NANOS * calls[k - 1].n
  {
    BytesSplit(calls, k - 1, k - 1);
    assert calls[k - 1..k - 1] == [];
  }

  /** Work conservation, exactly: the horizon is the latest end over all the
      busy periods that could have led to it. Nothing is delayed for longer
      than some busy period of the run demands, and nothing for less. */
  lemma {:induction false} HorizonIsLatestBusyPeriod(b: Bucket, calls: seq<Call>, k: nat)
    requires k <= |calls|
    ensures forall i: nat | i <= k :: BusySince(b, calls, i, k) <= HorizonAfter(b, calls, k)
    ensures exists i: nat :: i <= k && BusySince(b, calls, i, k) == HorizonAfter(b, calls, k)
    decreases k
  {
    if k == 0 {
      assert calls[..0] == [] && calls[0..0] == [];
      assert BusySince(b, calls, 0, 0) == HorizonAfter(b, calls, 0);
    } else {
      HorizonIsLatestBusyPeriod(b, calls, k - 1);
      HorizonStep(b, calls, k - 1);
      LastBusyPeriod(b, calls, k);
      forall i: nat | i < k
        ensures BusySince(b, calls, i, k) == BusySince(b, calls, i, k - 1) + NANOS * calls[k - 1].n
      {
        BusyStep(b, calls, i, k);
      }
      var i: nat :| i <= k - 1 && BusySince(b, calls, i, k - 1) == HorizonAfter(b, calls, k - 1);
      var best := if HorizonAfter(b, calls, k - 1) >= (calls[k - 1].now - NANOS) * b.rate then i else k;
      assert BusySince(b, calls, best, k) == HorizonAfter(b, calls, k);
    }
  }

  lemma ReleaseAt(b: Bucket, calls: seq<Call>, k: nat)
    requires 0 < b.rate && k < |calls|
    ensures Release(b, calls, k) == Max(calls[k].now, HorizonAfter(b, calls, k + 1) / b.rate)
    ensures b.rate * Release(b, calls, k) >= HorizonAfter(b, calls, k + 1) - (b.rate - 1)
    ensures b.rate * Release(b, calls, k) <= HorizonAfter(b, calls, k + 1)
         || (Release(b, calls, k) == calls[k].now
             && HorizonAfter(b, calls, k + 1) <= calls[k].now * b.rate)
  {
    AfterKeepsRate(b, calls[..k + 1]);
    ReleaseFromHorizon(After(b, calls[..k + 1]), calls[k].now);
  }

  /** The window bound, in byte-nanoseconds: between the releases of any two
      calls i <= k no more passes than one burst (or the first request, when
      that alone is larger) plus the rate times the time between the releases.
      The last summand is what flooring the sleep to a nanosecond can cost. */
  lemma WindowBound(b: Bucket, calls: seq<Call>, i: nat, k: nat)
    requires 0 < b.rate && i <= k < |calls| && Timely(b, calls)
    ensures 1_000_000_000 * Bytes(calls[i..k + 1])
         <= 1_000_000_000 * Max(b.rate, calls[i].n)
            + b.rate * (Release(b, calls, k) - Release(b, calls, i)) + (b.rate - 1)
  {
    HorizonGrows(b, calls, i + 1, k + 1);
    BytesFirst(calls, i, k);
    ReleaseAt(b, calls, i);
    ReleaseAt(b, calls, k);
    FirstHorizon(b, calls, i);
    WindowArithmetic(b.rate, calls[i].n, HorizonAfter(b, calls, i + 1), HorizonAfter(b, calls, k + 1),
                     Release(b, calls, i), Release(b, calls, k));
  }

  /** What one call leaves on the horizon, at least. */
  lemma FirstHorizon(b: Bucket, calls: seq<Call>, i: nat)
    requires i < |calls|
    ensures HorizonAfter(b, calls, i + 1) >= calls[i].now * b.rate - NANOS * b.rate + NANOS * calls[i].n
  {
    HorizonStep(b, calls, i);
    assert (calls[i].now - NANOS) * b.rate == calls[i].now * b.rate - NANOS * b.rate;
  }

  lemma WindowArithmetic(r: int, n: nat, hi: int, hk: int, ri: int, rk: int)
    requires r * rk >= hk - (r - 1)
    requires r * ri <= hi || hi >= ri * r - NANOS * r + NANOS * n
    ensures NANOS * n + hk - hi <= NANOS * Max(r, n) + r * (rk - ri) + (r - 1)
  {
    assert r * (rk - ri) == r * rk - r * ri;
  }

  lemma {:induction false} BytesFirst(calls: seq<Call>, i: nat, k: nat)
    requires i <= k < |calls|
    ensures Bytes(calls[i..k + 1]) == calls[i].n + Bytes(calls[i + 1..k + 1])
    decreases k
  {
    BytesSplit(calls, i, k);
    if i == k {
      assert calls[i..k] == [] && calls[i + 1..k + 1] == [];
    } else {
      BytesFirst(calls, i, k - 1);
      BytesSplit(calls, i + 1, k);
    }
  }

  // ---------------------------------------------------------------------
  // When the bound needs no slack
  // ---------------------------------------------------------------------

  /** The window bound without the last summand. */
  ghost predicate WithinWindow(b: Bucket, calls: seq<Call>, i: nat, k: nat)
    requires 0 < b.rate && i <= k < |calls|
  {
    NANOS * Bytes(calls[i..k + 1])
    <= NANOS * Max(b.rate, calls[i].n) + b.rate * (Release(b, calls, k) - Release(b, calls, i))
  }

  lemma MultipleOf(q: int, r: int)
    requires 0 < r
    ensures q * r % r == 0 && q * r / r == q
  {
    QuotientIs(q * r, r, q, 0);
    assert q * r == q * r / r * r + q * r % r;
  }

  lemma SumOfMultiples(a: int, c: int, r: int)
    requires 0 < r && a % r == 0 && c % r == 0
    ensures (a + c) % r == 0 && (a + c) / r == a / r + c / r
  {
    assert a == a / r * r && c == c / r * r;
    assert (a / r + c / r) * r == a / r * r + c / r * r;
    MultipleOf(a / r + c / r, r);
  }

  lemma CostIsMultiple(n: nat, r: int)
    requires 0 < r && NANOS % r == 0
    ensures n * NANOS % r == 0 && n * NANOS / r == n * (NANOS / r)
  {
    assert n * NANOS == n * (NANOS / r) * r by { assert NANOS == NANOS / r * r; }
    MultipleOf(n * (NANOS / r), r);
  }

  /** When the rate divides the nanoseconds of a second, the horizon of a
      limiter that started full falls on whole nanoseconds. */
  lemma {:induction false} HorizonIsMultiple(rate: int, start: int, calls: seq<Call>, k: nat)
    requires 0 < rate && NANOS % rate == 0 && k <= |calls|
    ensures HorizonAfter(Full(rate, start), calls, k) % rate == 0
    decreases k
  {
    var b := Full(rate, start);
    if k == 0 {
      assert calls[..0] == [];
      assert Horizon(b) == (start - NANOS) * rate;
      MultipleOf(start - NANOS, rate);
    } else {
      HorizonIsMultiple(rate, start, calls, k - 1);
      HorizonStep(b, calls, k - 1);
      MultipleOf(calls[k - 1].now - NANOS, rate);
      CostIsMultiple(calls[k - 1].n, rate);
      SumOfMultiples(Max(HorizonAfter(b, calls, k - 1), (calls[k - 1].now - NANOS) * rate),
                     calls[k - 1].n * NANOS, rate);
    }
  }

  lemma DivisorNeedsNoSlack(rate: int, start: int, calls: seq<Call>, i: nat, k: nat)
    requires 0 < rate && NANOS % rate == 0 && i <= k < |calls| && Timely(Full(rate, start), calls)
    ensures WithinWindow(Full(rate, start), calls, i, k)
  {
    var b := Full(rate, start);
    var hi, hk := HorizonAfter(b, calls, i + 1), HorizonAfter(b, calls, k + 1);
    HorizonGrows(b, calls, i + 1, k + 1);
    BytesFirst(calls, i, k);
    ReleaseAt(b, calls, i);
    ReleaseAt(b, calls, k);
    FirstHorizon(b, calls, i);
    HorizonIsMultiple(rate, start, calls, k + 1);
    CoversMultiple(rate, hk, calls[k].now);
    ExactWindowArithmetic(rate, calls[i].n, hi, hk, Release(b, calls, i), Release(b, calls, k));
  }

  lemma CoversMultiple(r: int, h: int, now: int)
    requires 0 < r && h % r == 0
    ensures r * Max(now, h / r) >= h
  {
    assert h == h / r * r;
    MulMono(h / r, Max(now, h / r), r);
  }

  lemma ExactWindowArithmetic(r: int, n: nat, hi: int, hk: int, ri: int, rk: int)
    requires r * rk >= hk
    requires r * ri <= hi || hi >= ri * r - NANOS * r + NANOS * n
    ensures NANOS * n + hk - hi <= NANOS * Max(r, n) + r * (rk - ri)
  {
    assert r * (rk - ri) == r * rk - r * ri;
  }

  /** One second of burst at once and one byte more. */
  lemma BurstAndOneReleases(rate: int)
    requires 0 < rate
    ensures var b, calls := Full(rate, 0), [Call(0, rate), Call(0, 1)];
            && Timely(b, calls) && Bytes(calls[0..2]) == rate + 1
            && Release(b, calls, 0) == 0 && Release(b, calls, 1) == NANOS / rate
  {
    var b, first, second := Full(rate, 0), Call(0, rate), Call(0, 1);
    var calls := [first, second];
    assert calls[..1] == [first] && calls[..2] == calls && calls[0..2] == calls && [first][..0] == [];
    assert After(b, [first]) == Step(b, first) == Bucket(rate, 0, 0) by { assert (0 - 0) * rate == 0; }
    assert After(b, calls) == Step(Bucket(rate, 0, 0), second) == Bucket(rate, -NANOS, 0) by {
      assert (0 - 0) * rate == 0;
    }
    assert Bytes([first]) == rate;
  }

  lemma BurstAndOne(rate: int)
    requires 0 < rate
    ensures var b, calls := Full(rate, 0), [Call(0, rate), Call(0, 1)];
            Timely(b, calls) && (WithinWindow(b, calls, 0, 1) <==> NANOS % rate == 0)
  {
    BurstAndOneReleases(rate);
    FloorFallsShort(rate, NANOS / rate);
  }

  lemma FloorFallsShort(r: int, q: int)
    requires 0 < r && q == NANOS / r
    ensures r * (q - 0) >= NANOS <==> NANOS % r == 0
  {
    assert NANOS == r * q + NANOS % r;
  }

  /** Over all runs of a limiter that starts full, the bound holds without slack
      if and only if the rate divides the nanoseconds of a second. */
  lemma WindowBoundExactIff(rate: int)
    requires 0 < rate
    ensures (forall start: int, calls: seq<Call>, i: nat, k: nat
               | i <= k < |calls| && Timely(Full(rate, start), calls) :: WithinWindow(Full(rate, start), calls, i, k))
       <==> NANOS % rate == 0
  {
    if NANOS % rate == 0 {
      forall start: int, calls: seq<Call>, i: nat, k: nat | i <= k < |calls| && Timely(Full(rate, start), calls)
        ensures WithinWindow(Full(rate, start), calls, i, k)
      {
        DivisorNeedsNoSlack(rate, start, calls, i, k);
      }
    } else {
      BurstAndOne(rate);
      assert !WithinWindow(Full(rate, 0), [Call(0, rate), Call(0, 1)], 0, 1);
    }
  }

  /** First come, first served: releases are in call order. */
  lemma ReleasesInOrder(b: Bucket, calls: seq<Call>, i: nat, k: nat)
    requires 0 < b.rate && i <= k < |calls| && Timely(b, calls)
    ensures Release(b, calls, i) <= Release(b, calls, k)
  {
    ReleaseAt(b, calls, i);
    ReleaseAt(b, calls, k);
    HorizonGrows(b, calls, i + 1, k + 1);
    FloorMono(HorizonAfter(b, calls, i + 1), HorizonAfter(b, calls, k + 1), b.rate);
  }

  /** Call k + 1 arrives before call k is released. */
  ghost predicate Backlogged(b: Bucket, calls: seq<Call>, k: nat)
    requires 0 < b.rate && k + 1 < |calls|
  {
    Timely(b, calls) && calls[k + 1].now < Release(b, calls, k)
  }

  lemma BackloggedReleases(b: Bucket, calls: seq<Call>, k: nat)
    requires 0 < b.rate && k + 1 < |calls| && Backlogged(b, calls, k)
    ensures var h, w := HorizonAfter(b, calls, k + 1), NANOS * calls[k + 1].n;
            && HorizonAfter(b, calls, k + 2) == h + w
            && Release(b, calls, k) == h / b.rate && Release(b, calls, k + 1) == (h + w) / b.rate
  {
    ReleaseAt(b, calls, k);
    ReleaseAt(b, calls, k + 1);
    HorizonStep(b, calls, k + 1);
    assert calls[k].now <= calls[k + 1].now;
    PacingArithmetic(b.rate, calls[k].now, calls[k + 1].now, HorizonAfter(b, calls, k + 1), NANOS * calls[k + 1].n);
  }

  /** Pacing: a call that arrives before the previous release is served the
      cost of its own bytes later, to the nanosecond in exact time (the
      horizon) and to within one nanosecond after flooring. */
  lemma BackloggedPacing(b: Bucket, calls: seq<Call>, k: nat)
    requires 0 < b.rate && k + 1 < |calls| && Backlogged(b, calls, k)
    ensures HorizonAfter(b, calls, k + 2) == HorizonAfter(b, calls, k + 1) + NANOS * calls[k + 1].n
    ensures var cost := NANOS * calls[k + 1].n / b.rate;
            cost <= Release(b, calls, k + 1) - Release(b, calls, k) <= cost + 1
  {
    BackloggedReleases(b, calls, k);
    FloorOfSum(HorizonAfter(b, calls, k + 1), NANOS * calls[k + 1].n, b.rate);
  }

  /** The pace is exactly the rate: what passes is what the time allows. */
  ghost predicate PacedExactly(b: Bucket, calls: seq<Call>, k: nat)
    requires 0 < b.rate && k + 1 < |calls|
  {
    b.rate * (Release(b, calls, k + 1) - Release(b, calls, k)) == NANOS * calls[k + 1].n
  }

  /** It is so for any one call, of any bucket, exactly when its own cost is a
      whole number of nanoseconds. */
  lemma PacedExactlyIff(b: Bucket, calls: seq<Call>, k: nat)
    requires 0 < b.rate && k + 1 < |calls| && Backlogged(b, calls, k)
    ensures PacedExactly(b, calls, k) <==> NANOS * calls[k + 1].n % b.rate == 0
  {
    BackloggedReleases(b, calls, k);
    ExactShiftIff(b.rate, HorizonAfter(b, calls, k + 1), NANOS * calls[k + 1].n);
  }

  lemma ShiftByMultiple(r: int, h: int, q: int)
    requires 0 < r
    ensures (h + q * r) / r - h / r == q
  {
    FloorOfShift(h, -q, r);
    assert -q * r == -(q * r);
  }

  lemma ProductIsMultiple(r: int, x: int, w: int)
    requires 0 < r && r * x == w
    ensures w % r == 0
  {
    MultipleOf(x, r);
  }

  lemma ExactShiftIff(r: int, h: int, w: int)
    requires 0 < r
    ensures r * ((h + w) / r - h / r) == w <==> w % r == 0
  {
    var d := (h + w) / r - h / r;
    if w % r == 0 {
      var q := w / r;
      assert w == q * r;
      ShiftByMultiple(r, h, q);
      assert d == q;
    } else if r * d == w {
      ProductIsMultiple(r, d, w);
    }
  }

  /** For a rate that divides the nanoseconds of a second, every call's cost is,
      whatever the bucket started with. */
  lemma BackloggedPacingExact(b: Bucket, calls: seq<Call>, k: nat)
    requires 0 < b.rate && NANOS % b.rate == 0 && k + 1 < |calls| && Backlogged(b, calls, k)
    ensures Release(b, calls, k + 1) == Release(b, calls, k) + calls[k + 1].n * (NANOS / b.rate)
  {
    var n := calls[k + 1].n;
    BackloggedReleases(b, calls, k);
    CostInWholes(n, b.rate, NANOS / b.rate);
    ShiftByMultiple(b.rate, HorizonAfter(b, calls, k + 1), n * (NANOS / b.rate));
  }

  lemma CostInWholes(n: nat, r: int, q: int)
    requires 0 < r && NANOS % r == 0 && q == NANOS / r
    ensures NANOS * n == n * q * r
  {
    assert NANOS == q * r;
  }

  /** So it is for every backlogged call of every run that starts full exactly
      when the rate divides the nanoseconds of a second. */
  lemma AllPacedExactlyIff(rate: int)
    requires 0 < rate
    ensures (forall start: int, calls: seq<Call>, k: nat
               | k + 1 < |calls| && Backlogged(Full(rate, start), calls, k) ::
                    PacedExactly(Full(rate, start), calls, k))
       <==> NANOS % rate == 0
  {
    if NANOS % rate == 0 {
      forall start: int, calls: seq<Call>, k: nat | k + 1 < |calls| && Backlogged(Full(rate, start), calls, k)
        ensures PacedExactly(Full(rate, start), calls, k)
      {
        PacedExactlyIff(Full(rate, start), calls, k);
        CostIsMultiple(calls[k + 1].n, rate);
      }
    } else {
      TwiceAndOne(rate);
      assert !PacedExactly(Full(rate, 0), [Call(0, 2 * rate), Call(0, 1)], 0);
    }
  }

  /** Two seconds of burst at once and one byte more. */
  lemma TwiceAndOne(rate: int)
    requires 0 < rate
    ensures var b, calls := Full(rate, 0), [Call(0, 2 * rate), Call(0, 1)];
            Backlogged(b, calls, 0) && (PacedExactly(b, calls, 0) <==> NANOS % rate == 0)
  {
    var b, first, second := Full(rate, 0), Call(0, 2 * rate), Call(0, 1);
    var calls := [first, second];
    assert calls[..1] == [first] && [first][..0] == [];
    assert Step(b, first) == Bucket(rate, -rate * NANOS, 0) by { assert (0 - 0) * rate == 0; }
    assert After(b, [first]) == Step(b, first);
    MultipleOf(NANOS, rate);
    assert Release(b, calls, 0) == NANOS;
    PacedExactlyIff(b, calls, 0);
  }

  lemma PacingArithmetic(r: int, before: int, now: int, h: int, w: nat)
    requires 0 < r && before <= now < Max(before, h / r)
    ensures (now - NANOS) * r <= h
    ensures Max(before, h / r) == h / r && Max(now, (h + w) / r) == (h + w) / r
  {
    FloorMono(h, h + w, r);
    assert h == h / r * r + h % r;
    MulMono(now - NANOS, h / r, r);
  }

  // ---------------------------------------------------------------------
  // The limiter object
  // ---------------------------------------------------------------------

  datatype WaitResult = Proceed(at: int) | Cancelled(at: int)

  lemma FloorOfQuotient(a: int, r: int)
    requires 0 <= a && 0 < r
    ensures (a as real / r as real).Floor == a / r
  {
    var q, m := a / r, a % r;
    assert a == q * r + m;
    var x := a as real / r as real;
    assert x * r as real == a as real;
    var f := m as real / r as real;
    assert f * r as real == m as real;
    assert 0.0 <= f < 1.0;
    assert (q as real + f) * r as real == a as real;
    assert x == q as real + f;
  }

  /** A number of byte-nanoseconds, in bytes. */
  ghost function AsBytes(credit: int): real { credit as real / NANOS as real }

  lemma AsBytesIsLinear(credit: int, dt: int, r: int)
    ensures AsBytes(credit) + (dt as real / NANOS as real) * r as real == AsBytes(credit + dt * r)
  {
    assert (dt as real / NANOS as real) * r as real == (dt * r) as real / NANOS as real by {
      ProductOfReals(dt, r);
    }
  }

  lemma ProductOfReals(a: int, b: int)
    ensures (a * b) as real == a as real * b as real
  {}

  /** The capped refill, in bytes. */
  ghost function Refilled(tokens: real, dt: int, r: int): real {
    var t := tokens + (dt as real / NANOS as real) * r as real;
    if t > r as real then r as real else t
  }

  lemma RefillAgrees(credit: int, dt: int, r: int)
    ensures Refilled(AsBytes(credit), dt, r) == AsBytes(Min(r * NANOS, credit + dt * r))
  {
    AsBytesIsLinear(credit, dt, r);
    CapAgrees(credit + dt * r, r);
  }

  lemma CapAgrees(credit: int, r: int)
    ensures AsBytes(r * NANOS) == r as real && (AsBytes(credit) > r as real <==> credit > r * NANOS)
  {}

  lemma ConsumeAgrees(credit: int, n: int)
    ensures AsBytes(credit) - n as real == AsBytes(credit - n * NANOS)
    ensures AsBytes(credit) >= 0.0 <==> credit >= 0
  {}

  lemma SleepIsExact(credit: int, r: int)
    requires credit < 0 && 0 < r
    ensures (-AsBytes(credit) / r as real * NANOS as real).Floor == (-credit) / r
  {
    var x, y := (-credit) as real, r as real;
    assert -AsBytes(credit) == x / NANOS as real;
    assert (x / NANOS as real) / y * NANOS as real == x / y;
    FloorOfQuotient(-credit, r);
  }

  class RateLimiter {
    const bytesPerSec: int
    var tokens: real
    var lastRefill: int
    ghost var credit: int

    ghost predicate Valid()
      reads this
    {
      && 0 < bytesPerSec
      && credit <= bytesPerSec * NANOS
      && tokens == AsBytes(credit)
    }

    ghost function Value(): Bucket
      reads this
    {
      Bucket(bytesPerSec, credit, lastRefill)
    }

    constructor (bytesPerSec: int, now: int)
      requires 0 < bytesPerSec
      ensures Valid() && Value() == Full(bytesPerSec, now)
    {
      this.bytesPerSec := bytesPerSec;
      tokens := bytesPerSec as real;
      lastRefill := now;
      credit := bytesPerSec * NANOS;
    }

    /** Add what has flowed in since the last refill, up to one second of burst. */
    method Refill(now: int)
      requires Valid() && lastRefill <= now
      modifies `tokens, `lastRefill, `credit
      ensures Valid() && lastRefill == now
      ensures credit == Min(bytesPerSec * NANOS, old(credit) + (now - old(lastRefill)) * bytesPerSec)
    {
      var rate := bytesPerSec as real;
      var elapsed := (now - lastRefill) as real / NANOS as real;
      RefillAgrees(credit, now - lastRefill, bytesPerSec);
      credit := Min(bytesPerSec * NANOS, credit + (now - lastRefill) * bytesPerSec);
      tokens := tokens + elapsed * rate;
      lastRefill := now;
      if tokens > rate {
        tokens := rate;
      }
    }

    /** Consume n bytes at time now. cancelAfter is how long after the call the
        context is cancelled, if it is; the bytes stay consumed either way. */
    method Wait(now: int, n: nat, cancelAfter: Option<nat>) returns (result: WaitResult)
      requires Valid() && lastRefill <= now
      modifies this
      ensures Valid() && Value() == Step(old(Value()), Call(now, n))
      ensures var sleep := Sleep(Value());
              result == if cancelAfter.Some? && cancelAfter.value < sleep
                        then Cancelled(now + cancelAfter.value)
                        else Proceed(now + sleep)
    {
      Refill(now);
      ConsumeAgrees(credit, n);
      tokens := tokens - n as real;
      credit := credit - n * NANOS;
      ConsumeAgrees(credit, 0);
      if tokens >= 0.0 {
        return Proceed(now);
      }
      var deficit := -tokens;
      var sleep := (deficit / bytesPerSec as real * NANOS as real).Floor;
      SleepIsExact(credit, bytesPerSec);
      if cancelAfter.Some? && cancelAfter.value < sleep {
        return Cancelled(now + cancelAfter.value);
      }
      return Proceed(now + sleep);
    }
  }
}
