/**
 * The statistics count-up: each `.stat-number` element counts from 0 to its
 * `data-target` in steps of target / 125, one step per 16 ms tick, and the
 * whole animation is started at most once, the first time the hero section
 * is seen.
 *
 * The running value `current` is a fraction of the target; the model keeps
 * `scaled == 125 * current`, an integer, so that every step is exact.
 */
module Stats {

  /** Length of the count-up in milliseconds. */
  const Duration: int := 2000
  /** Milliseconds between two ticks. */
  const Frame: int := 16
  /** Ticks in one count-up: the step is target / (Duration / Frame); 2000 / 16 is exactly 125. */
  const Ticks: int := Duration / Frame

  /** What one tick does: it either shows the target and stops, or shows the whole part of `current` and goes on. */
  datatype TickOutcome = Continue(scaled: int, shown: int) | Finish(shown: int)

  /**
   * One tick of a counter whose scaled running value is `scaled`: add one
   * step; once `current` has reached the target show the target and stop,
   * otherwise show `floor(current)`.
   */
  function Tick(target: int, scaled: int): (o: TickOutcome)
    ensures o.Finish? <==> scaled + target >= Ticks * target
    ensures o.Finish? ==> o.shown == target
    ensures o.Continue? ==> o.scaled == scaled + target
    ensures o.Continue? ==> o.shown * Ticks <= o.scaled < (o.shown + 1) * Ticks
  {
    var s := scaled + target;
    if s >= Ticks * target then Finish(target) else Continue(s, s / Ticks)
  }

  /** How many ticks the interval runs before it clears itself. */
  function RunLength(target: int): nat
  {
    if target > 0 then Ticks else 1
  }

  /** What tick number `k` (from 1) shows, counted from a fresh start. */
  function ShownAt(target: int, k: nat): int
  {
    if k * target >= Ticks * target then target else (k * target) / Ticks
  }

  /** The values a counter shows, tick by tick, from its first tick to the one that stops it. */
  function Animation(target: int): seq<int>
  {
    seq(RunLength(target), k requires 0 <= k < RunLength(target) => ShownAt(target, k + 1))
  }

  lemma MulMonotone(j: int, k: int, t: int)
    requires j <= k && t >= 0
    ensures j * t <= k * t
  {
    assert k * t == j * t + (k - j) * t;
  }

  lemma MulStrict(j: int, k: int, t: int)
    requires j < k && t > 0
    ensures j * t < k * t
  {
    assert k * t == j * t + (k - j) * t;
    assert (k - j) * t >= t by { MulMonotone(1, k - j, t); }
  }

  /**
   * The interval stops at tick `RunLength(target)` and not before: for a
   * positive target `current` first reaches it at tick 125, otherwise the
   * first tick already reaches it.
   */
  lemma {:induction false} StopsExactlyAtRunLength(target: int, k: nat)
    requires 1 <= k <= RunLength(target)
    ensures k * target >= Ticks * target <==> k == RunLength(target)
  {
    if target > 0 {
      if k < Ticks {
        MulStrict(k, Ticks, target);
      }
    }
  }

  /** The last value shown is exactly the target. */
  lemma AnimationEndsAtTarget(target: int)
    ensures Animation(target)[|Animation(target)| - 1] == target
  {
    StopsExactlyAtRunLength(target, RunLength(target));
  }

  /** For a positive target, every value shown before the last is at least 0 and below the target. */
  lemma AnimationBelowTarget(target: int, k: nat)
    requires target > 0 && k < |Animation(target)| - 1
    ensures 0 <= Animation(target)[k] < target
  {
    StopsExactlyAtRunLength(target, k + 1);
    MulMonotone(0, k + 1, target);
  }

  /** The values shown never decrease. */
  lemma AnimationNondecreasing(target: int, j: nat, k: nat)
    requires j <= k < |Animation(target)|
    ensures Animation(target)[j] <= Animation(target)[k]
  {
    StopsExactlyAtRunLength(target, j + 1);
    StopsExactlyAtRunLength(target, k + 1);
    if target > 0 && k + 1 < Ticks {
      MulMonotone(j + 1, k + 1, target);
      DivMonotone((j + 1) * target, (k + 1) * target);
    } else if target > 0 && j < k {
      AnimationBelowTarget(target, j);
    }
  }

  lemma DivMonotone(a: int, b: int)
    requires a <= b
    ensures a / Ticks <= b / Ticks
  {
  }

  /** A target of 0 or below is shown on the first tick, which stops the interval. */
  lemma NonPositiveTargetShownAtOnce(target: int)
    requires target <= 0
    ensures Animation(target) == [target]
  {
    StopsExactlyAtRunLength(target, 1);
  }

  /**
   * The interval of one counter: starts `current` at 0 and ticks until a
   * tick reaches the target; returns every value it shows, in order.
   */
  method Animate(target: int) returns (shown: seq<int>)
    ensures shown == Animation(target)
  {
    var scaled := 0;
    var running := true;
    shown := [];
    while running
      invariant |shown| <= RunLength(target)
      invariant running ==> |shown| < RunLength(target) && scaled == |shown| * target
      invariant !running ==> |shown| == RunLength(target)
      invariant forall k :: 0 <= k < |shown| ==> shown[k] == ShownAt(target, k + 1)
      decreases RunLength(target) - |shown|
    {
      assert scaled + target == (|shown| + 1) * target;
      StopsExactlyAtRunLength(target, |shown| + 1);
      match Tick(target, scaled)
      case Finish(v) =>
        shown := shown + [v];
        running := false;
      case Continue(s, v) =>
        shown := shown + [v];
        scaled := s;
    }
  }

  /** One run of the animation: every counter, each with its own interval. */
  method AnimateStats(targets: seq<int>) returns (runs: seq<seq<int>>)
    ensures |runs| == |targets|
    ensures forall i :: 0 <= i < |targets| ==> runs[i] == Animation(targets[i])
  {
    runs := [];
    for i := 0 to |targets|
      invariant |runs| == i
      invariant forall j :: 0 <= j < i ==> runs[j] == Animation(targets[j])
    {
      var shown := Animate(targets[i]);
      runs := runs + [shown];
    }
  }

  /**
   * How many times a run of observer callbacks starts the animation, each
   * callback bringing the `isIntersecting` flags of its entries, given
   * whether it had already started.
   */
  function Launches(started: bool, callbacks: seq<seq<bool>>): nat
    decreases callbacks
  {
    if |callbacks| == 0 then 0
    else if !started && true in callbacks[0] then 1 + Launches(true, callbacks[1..])
    else Launches(started, callbacks[1..])
  }

  /** However many callbacks arrive, the animation starts at most once, and never once started. */
  lemma {:induction false} LaunchesAtMostOnce(started: bool, callbacks: seq<seq<bool>>)
    decreases callbacks
    ensures Launches(started, callbacks) <= (if started then 0 else 1)
  {
    if |callbacks| > 0 {
      if !started && true in callbacks[0] {
        LaunchesAtMostOnce(true, callbacks[1..]);
      } else {
        LaunchesAtMostOnce(started, callbacks[1..]);
      }
    }
  }

  /** The observer of the hero section, its one-shot latch, and what the counters show once started. */
  class StatsObserver {
    /** The `data-target` of each counter, in document order. */
    const targets: seq<int>
    var hasAnimated: bool
    /** How many times the animation has been started. */
    var launches: nat
    /** Per counter, the values its interval shows; empty until the animation starts. */
    var displays: seq<seq<int>>

    ghost predicate Valid()
      reads this
    {
      launches == (if hasAnimated then 1 else 0) &&
      (!hasAnimated ==> displays == []) &&
      (hasAnimated ==>
         |displays| == |targets| &&
         forall i :: 0 <= i < |targets| ==> displays[i] == Animation(targets[i]))
    }

    constructor (targets: seq<int>)
      ensures Valid() && this.targets == targets && !hasAnimated
    {
      this.targets := targets;
      hasAnimated := false;
      launches := 0;
      displays := [];
    }

    /** One observer callback with the `isIntersecting` flags of its entries, in order. */
    method OnIntersect(entries: seq<bool>)
      requires Valid()
      modifies this
      ensures Valid()
      ensures hasAnimated == (old(hasAnimated) || true in entries)
      ensures launches == old(launches) + Launches(old(hasAnimated), [entries])
      ensures old(hasAnimated) ==> displays == old(displays)
    {
      var i := 0;
      while i < |entries|
        invariant 0 <= i <= |entries| && Valid()
        invariant hasAnimated == (old(hasAnimated) || true in entries[..i])
        invariant launches == old(launches) + (if !old(hasAnimated) && true in entries[..i] then 1 else 0)
        invariant old(hasAnimated) ==> displays == old(displays)
      {
        assert entries[..i + 1] == entries[..i] + [entries[i]];
        if entries[i] && !hasAnimated {
          displays := AnimateStats(targets);
          hasAnimated := true;
          launches := launches + 1;
        }
        i := i + 1;
      }
      assert entries[..i] == entries;
    }
  }
}
