// The retry engine of utils.go: durations are integers, the factor and the jitter are fractions.
module Backoff {
  import opened Types

  datatype Fraction = Fraction(num: nat, den: nat)

  datatype Settings = Settings(duration: nat, factor: Fraction, jitter: Fraction, steps: int, cap: nat)
  {
    ghost predicate Sound() {
      factor.den > 0 && jitter.den > 0
    }

    // The duration never shrinks and starts under the cap.
    ghost predicate Growing() {
      Sound() && factor.num >= factor.den && (cap > 0 ==> duration <= cap)
    }
  }

  function Next(b: Settings, duration: nat): nat
    requires b.factor.den > 0
  {
    if b.factor.num == 0 then duration
    else
      var grown := duration * b.factor.num / b.factor.den;
      if b.cap > 0 && grown > b.cap then b.cap else grown
  }

  // The duration before jitter of sleep k.
  function DurationAt(b: Settings, k: nat): nat
    requires b.factor.den > 0
  {
    if k == 0 then b.duration else Next(b, DurationAt(b, k - 1))
  }

  // The sleep for a duration: jitter adds the random extra that was drawn.
  function SleepFor(b: Settings, duration: nat, draw: nat): nat {
    if b.jitter.num > 0 then duration + draw else duration
  }

  class ForeverBackoff {
    const settings: Settings
    var duration: nat
    var steps: int

    constructor (settings: Settings)
      ensures this.settings == settings && duration == settings.duration && steps == settings.steps
    {
      this.settings := settings;
      duration, steps := settings.duration, settings.steps;
    }

    // `draw` is the random extra, used when there is jitter.
    method Step(draw: nat) returns (sleep: nat)
      requires settings.Sound()
      modifies this
      ensures sleep == SleepFor(settings, old(duration), draw)
      ensures if old(steps) < 1 then steps == old(steps) && duration == old(duration)
              else steps == old(steps) - 1 && duration == Next(settings, old(duration))
    {
      if steps < 1 {
        return if settings.jitter.num > 0 then duration + draw else duration;
      }
      steps := steps - 1;
      sleep := duration;
      if settings.factor.num != 0 {
        duration := duration * settings.factor.num / settings.factor.den;
        if settings.cap > 0 && duration > settings.cap {
          duration := settings.cap;
        }
      }
      if settings.jitter.num > 0 {
        sleep := sleep + draw;
      }
    }
  }

  datatype Condition<E> = Done | Again | Abort(error: E)

  datatype Verdict<E> = Finished | TimedOut | Aborted(error: E)

  // answers[k] is what check k of the condition answers, draws[k] the random extra of sleep k.
  method ExponentialBackoffWithForeverCap<E>(b: Settings, answers: seq<Condition<E>>, draws: seq<nat>)
    returns (verdict: Verdict<E>, runs: nat, sleeps: seq<nat>)
    requires b.Sound() && |answers| >= b.steps && |draws| >= b.steps
    ensures b.steps <= 0 ==> verdict == TimedOut && runs == 0 && sleeps == []
    ensures b.steps > 0 ==>
              && 1 <= runs <= b.steps
              && (forall k :: 0 <= k < runs - 1 ==> answers[k] == Again)
              && (answers[runs - 1] == Again ==> runs == b.steps && verdict == TimedOut)
              && (answers[runs - 1] == Done ==> verdict == Finished)
              && (answers[runs - 1].Abort? ==> verdict == Aborted(answers[runs - 1].error))
              && |sleeps| == runs - 1
    ensures forall k :: 0 <= k < |sleeps| ==> sleeps[k] == SleepFor(b, DurationAt(b, k), draws[k])
  {
    var backoff := new ForeverBackoff(b);
    runs, sleeps := 0, [];
    while backoff.steps > 0
      invariant |sleeps| == runs && (runs == 0 || runs < b.steps) && runs <= |answers|
      invariant backoff.settings == b && backoff.steps == b.steps - runs && backoff.duration == DurationAt(b, runs)
      invariant forall k :: 0 <= k < runs ==> answers[k] == Again
      invariant forall k :: 0 <= k < |sleeps| ==> sleeps[k] == SleepFor(b, DurationAt(b, k), draws[k])
      decreases backoff.steps
    {
      var answer := answers[runs];
      if answer.Abort? {
        return Aborted(answer.error), runs + 1, sleeps;
      }
      if answer.Done? {
        return Finished, runs + 1, sleeps;
      }
      if backoff.steps == 1 {
        return TimedOut, runs + 1, sleeps;
      }
      var sleep := backoff.Step(draws[runs]);
      sleeps := sleeps + [sleep];
      runs := runs + 1;
    }
    return TimedOut, runs, sleeps;
  }

  // attempts[k] is what attempt k returns, None for success. The outcome is that of the last attempt, which is the
  // first one that succeeds or fails beyond retrying, or the attempt number `steps`.
  method OnErrorForever<E>(b: Settings, retriable: E -> bool, attempts: seq<Option<E>>, draws: seq<nat>)
    returns (err: Option<E>, runs: nat, sleeps: seq<nat>)
    requires b.Sound() && |attempts| >= b.steps && |draws| >= b.steps
    ensures b.steps <= 0 ==> err == None && runs == 0 && sleeps == []
    ensures b.steps > 0 ==>
              && 1 <= runs <= b.steps
              && (forall k :: 0 <= k < runs - 1 ==> attempts[k].Some? && retriable(attempts[k].value))
              && (runs < b.steps ==> attempts[runs - 1].None? || !retriable(attempts[runs - 1].value))
              && err == attempts[runs - 1]
              && |sleeps| == runs - 1
    ensures forall k :: 0 <= k < |sleeps| ==> sleeps[k] == SleepFor(b, DurationAt(b, k), draws[k])
  {
    var answers := seq(|attempts|, k requires 0 <= k < |attempts| =>
      match attempts[k] case None => Done case Some(e) => if retriable(e) then Again else Abort(e));
    var verdict;
    verdict, runs, sleeps := ExponentialBackoffWithForeverCap(b, answers, draws);
    forall k | 0 <= k < runs - 1
      ensures attempts[k].Some? && retriable(attempts[k].value)
    {
      assert answers[k] == Again;
    }
    match verdict
    case Finished => return None, runs, sleeps;
    case Aborted(e) => return Some(e), runs, sleeps;
    case TimedOut =>
    // the error of the last attempt, if there was one
    return if runs > 0 then attempts[runs - 1] else None, runs, sleeps;
  }

  // ---- the sleeps ----

  lemma ScaleUp(d: nat, p: nat, q: nat)
    requires 0 < q <= p
    ensures d <= d * p / q
  {
    var r := d * p / q;
    ProductMonotone(d, q, p);
    if r < d {
      ProductMonotone(q, r + 1, d);
    }
  }

  lemma ProductMonotone(x: nat, a: nat, b: nat)
    requires a <= b
    ensures x * a <= x * b
  {
  }

  lemma NextGrows(b: Settings, duration: nat)
    requires b.Growing() && (b.cap > 0 ==> duration <= b.cap)
    ensures duration <= Next(b, duration) && (b.cap > 0 ==> Next(b, duration) <= b.cap)
  {
    ScaleUp(duration, b.factor.num, b.factor.den);
  }

  // Sleeps before jitter never get shorter and never exceed the cap, however long the run.
  lemma {:induction false} DurationsGrow(b: Settings, i: nat, j: nat)
    requires b.Growing() && i <= j
    ensures DurationAt(b, i) <= DurationAt(b, j)
    ensures b.cap > 0 ==> DurationAt(b, j) <= b.cap
  {
    if j > 0 {
      DurationsGrow(b, if i < j then i else i - 1, j - 1);
      NextGrows(b, DurationAt(b, j - 1));
    }
  }

  // Without a factor the sleeps stay as they are; with one each is the one before times the factor, rounded down, up to
  // the cap.
  lemma {:induction false} DurationIs(b: Settings, k: nat)
    requires b.Sound()
    ensures b.factor.num == 0 ==> DurationAt(b, k) == b.duration
    ensures b.factor.num > 0 ==>
              var next, exact := DurationAt(b, k + 1) * b.factor.den, DurationAt(b, k) * b.factor.num;
              if b.cap > 0 && exact >= (b.cap + 1) * b.factor.den then DurationAt(b, k + 1) == b.cap
              else next <= exact < next + b.factor.den
  {
    if k > 0 {
      DurationIs(b, k - 1);
    }
    if b.factor.num > 0 {
      Rounded(DurationAt(b, k) * b.factor.num, b.factor.den, b.cap);
    }
  }

  lemma Rounded(exact: nat, den: nat, cap: nat)
    requires den > 0
    ensures (exact / den) * den <= exact < (exact / den) * den + den
    ensures exact / den > cap <==> exact >= (cap + 1) * den
  {
    var q := exact / den;
    if q >= cap + 1 {
      ProductMonotone(den, cap + 1, q);
    } else {
      ProductMonotone(den, q + 1, cap + 1);
    }
  }

  // The sleep is the duration, and at most the drawn extra more, which counts only when there is jitter.
  lemma SleepIs(b: Settings, duration: nat, draw: nat)
    ensures duration <= SleepFor(b, duration, draw) <= duration + draw
    ensures SleepFor(b, duration, draw) == duration <==> b.jitter.num == 0 || draw == 0
  {
  }

  // ---- ErrorBackoff ----

  const SECOND := 1_000_000_000

  // 552 attempts, from one second by 1.2 up to five minutes, with 20% jitter.
  const ERROR_BACKOFF := Settings(SECOND, Fraction(6, 5), Fraction(1, 5), 552, 300 * SECOND)

  function Total(sleeps: seq<nat>): nat {
    if sleeps == [] then 0 else Total(sleeps[..|sleeps| - 1]) + sleeps[|sleeps| - 1]
  }

  // The sum of the durations before jitter of sleeps i to j - 1.
  function TotalDuration(b: Settings, i: nat, j: nat): nat
    requires b.factor.den > 0 && i <= j
    decreases j
  {
    if i == j then 0 else TotalDuration(b, i, j - 1) + DurationAt(b, j - 1)
  }

  const CAP := 300 * SECOND

  lemma ErrorNext(d: nat)
    requires d <= CAP
    ensures var n := Next(ERROR_BACKOFF, d);
            && n == (if d * 6 / 5 > CAP then CAP else d * 6 / 5)
            && d <= n <= CAP && 5 * n <= 6 * d && (n < CAP ==> 5 * n >= 6 * d - 4)
  {
  }

  // Four steps multiply the duration by a little more than two, up to the cap.
  lemma FourSteps(k: nat, low: nat, high: nat)
    requires SECOND <= low <= DurationAt(ERROR_BACKOFF, k) <= high
    ensures var d := DurationAt(ERROR_BACKOFF, k + 4);
            && 1000 * d <= 2074 * high
            && (d == CAP || 100 * d >= 207 * low)
  {
    DurationsGrow(ERROR_BACKOFF, 0, k);
    var d0 := DurationAt(ERROR_BACKOFF, k);
    ErrorNext(d0);
    var d1 := DurationAt(ERROR_BACKOFF, k + 1);
    ErrorNext(d1);
    var d2 := DurationAt(ERROR_BACKOFF, k + 2);
    ErrorNext(d2);
    var d3 := DurationAt(ERROR_BACKOFF, k + 3);
    ErrorNext(d3);
  }

  lemma FirstSixteen(k: nat)
    requires DurationAt(ERROR_BACKOFF, k) == SECOND
    ensures 18_360_368_010 <= DurationAt(ERROR_BACKOFF, k + 16) <= 18_502_695_779
  {
    FourSteps(k, SECOND, SECOND);
    FourSteps(k + 4, SECOND * 207 / 100, SECOND * 2074 / 1000);
    FourSteps(k + 8, 4_284_900_000, 4_301_476_000);
    FourSteps(k + 12, 8_869_743_000, 8_921_261_224);
  }

  lemma NextSixteen(k: nat)
    requires 18_360_368_010 <= DurationAt(ERROR_BACKOFF, k) <= 18_502_695_779
    ensures DurationAt(ERROR_BACKOFF, k + 12) <= 166 * SECOND
    ensures DurationAt(ERROR_BACKOFF, k + 16) == CAP
  {
    FourSteps(k, 18_360_368_010, 18_502_695_779);
    FourSteps(k + 4, 38_005_961_780, 38_374_591_046);
    FourSteps(k + 8, 78_672_340_884, 79_588_901_830);
    FourSteps(k + 12, 162_851_745_629, 165_067_382_396);
  }

  // The sleeps after which the cap is not reached yet, and is.
  const UNDER_CAP := 28
  const AT_CAP := 32

  lemma CapReached()
    ensures DurationAt(ERROR_BACKOFF, UNDER_CAP) <= 166 * SECOND
    ensures DurationAt(ERROR_BACKOFF, AT_CAP) == CAP
  {
    FirstSixteen(0);
    NextSixteen(16);
  }

  // While the cap is not reached, all sleeps together are at most five times the growth.
  lemma {:induction false} EarlySleeps(k: nat)
    requires DurationAt(ERROR_BACKOFF, k) < CAP
    ensures TotalDuration(ERROR_BACKOFF, 0, k) + 5 * SECOND <= 5 * DurationAt(ERROR_BACKOFF, k) + 4 * k
  {
    if k > 0 {
      DurationsGrow(ERROR_BACKOFF, k - 1, k);
      EarlySleeps(k - 1);
      ErrorNext(DurationAt(ERROR_BACKOFF, k - 1));
    }
  }

  lemma {:induction false} LateSleeps(i: nat, j: nat)
    requires i <= j
    ensures TotalDuration(ERROR_BACKOFF, i, j) <= (j - i) * CAP
    ensures DurationAt(ERROR_BACKOFF, i) == CAP ==> TotalDuration(ERROR_BACKOFF, i, j) == (j - i) * CAP
    decreases j
  {
    if i < j {
      LateSleeps(i, j - 1);
      DurationsGrow(ERROR_BACKOFF, i, j - 1);
    }
  }

  lemma {:induction false} TotalSplit(b: Settings, i: nat, j: nat)
    requires b.factor.den > 0 && i <= j
    ensures TotalDuration(b, 0, j) == TotalDuration(b, 0, i) + TotalDuration(b, i, j)
    decreases j
  {
    if i < j {
      TotalSplit(b, i, j - 1);
    }
  }

  // A random extra is at most jitter times the duration.
  ghost predicate DrawFits(b: Settings, duration: nat, draw: nat) {
    draw * b.jitter.den <= b.jitter.num * duration
  }

  lemma {:induction false} JitterBounds(sleeps: seq<nat>, draws: seq<nat>)
    requires |draws| >= |sleeps|
    requires forall k :: 0 <= k < |sleeps| ==>
        sleeps[k] == SleepFor(ERROR_BACKOFF, DurationAt(ERROR_BACKOFF, k), draws[k])
    requires forall k :: 0 <= k < |sleeps| ==> DrawFits(ERROR_BACKOFF, DurationAt(ERROR_BACKOFF, k), draws[k])
    ensures TotalDuration(ERROR_BACKOFF, 0, |sleeps|) <= Total(sleeps)
    ensures 5 * Total(sleeps) <= 6 * TotalDuration(ERROR_BACKOFF, 0, |sleeps|)
  {
    if sleeps != [] {
      var n := |sleeps| - 1;
      JitterBounds(sleeps[..n], draws);
      assert DrawFits(ERROR_BACKOFF, DurationAt(ERROR_BACKOFF, n), draws[n]);
    }
  }

  // There is no sleep after the last attempt.
  const SLEEPS := ERROR_BACKOFF.steps - 1

  lemma ErrorDurations()
    ensures 519 * CAP <= TotalDuration(ERROR_BACKOFF, 0, SLEEPS) <= 523 * CAP + 830 * SECOND
  {
    CapReached();
    EarlySleeps(UNDER_CAP);
    LateSleeps(UNDER_CAP, SLEEPS);
    LateSleeps(AT_CAP, SLEEPS);
    TotalSplit(ERROR_BACKOFF, UNDER_CAP, SLEEPS);
    TotalSplit(ERROR_BACKOFF, AT_CAP, SLEEPS);
  }

  // When an allocation in error state exhausts its retries, between 1.8 and 2.2 days have been slept, whatever the
  // jitter.
  lemma ErrorBackoffLastsTwoDays(sleeps: seq<nat>, draws: seq<nat>)
    requires |sleeps| == SLEEPS && |draws| >= |sleeps|
    requires forall k :: 0 <= k < |sleeps| ==>
        sleeps[k] == SleepFor(ERROR_BACKOFF, DurationAt(ERROR_BACKOFF, k), draws[k])
    requires forall k :: 0 <= k < |sleeps| ==> DrawFits(ERROR_BACKOFF, DurationAt(ERROR_BACKOFF, k), draws[k])
    ensures 18 * 24 * 3600 * SECOND <= 10 * Total(sleeps) <= 22 * 24 * 3600 * SECOND
  {
    ErrorDurations();
    JitterBounds(sleeps, draws);
  }
}
