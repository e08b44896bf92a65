/**
 * The hero slider: a circular index over the slides' "active" flags, moved
 * on by one every time the rotation timer fires.
 */
module Slider {

  /** Milliseconds between two rotations. */
  const SlideInterval: nat := 5000

  /** The index that follows `i` among `n` slides, wrapping from the last to the first. */
  function NextIndex(i: nat, n: nat): (j: nat)
    requires n > 0
    ensures j < n
    ensures i < n - 1 ==> j == i + 1
    ensures i == n - 1 ==> j == 0
  {
    (i + 1) % n
  }

  /** The flags after one rotation from index `i`: the old slide loses "active", the next one gains it. */
  function Rotated(flags: seq<bool>, i: nat): (r: seq<bool>)
    requires i < |flags|
    ensures |r| == |flags|
    ensures r[NextIndex(i, |flags|)]
    ensures NextIndex(i, |flags|) != i ==> !r[i]
    ensures forall j :: 0 <= j < |flags| && j != i && j != NextIndex(i, |flags|) ==> r[j] == flags[j]
  {
    flags[i := false][NextIndex(i, |flags|) := true]
  }

  /** Slide `k` is active and no other slide is. */
  predicate OnlyActive(flags: seq<bool>, k: nat)
  {
    k < |flags| && forall j :: 0 <= j < |flags| ==> (flags[j] <==> j == k)
  }

  /** If exactly slide `i` was active, exactly the next slide is active after a rotation. */
  lemma RotatedKeepsOneActive(flags: seq<bool>, i: nat)
    requires OnlyActive(flags, i)
    ensures OnlyActive(Rotated(flags, i), NextIndex(i, |flags|))
  {
  }

  /** Two flag sequences in which the same single slide is active are equal. */
  lemma OnlyActiveDetermines(a: seq<bool>, b: seq<bool>, k: nat)
    requires OnlyActive(a, k) && OnlyActive(b, k) && |a| == |b|
    ensures a == b
  {
    assert forall j :: 0 <= j < |a| ==> a[j] == b[j];
  }

  /** The index after `k` rotations starting from `i`. */
  function IndexAfter(i: nat, n: nat, k: nat): (j: nat)
    requires n > 0
    ensures j < n || (k == 0 && j == i)
  {
    if k == 0 then i else NextIndex(IndexAfter(i, n, k - 1), n)
  }

  lemma MulAtLeast(a: int, n: int)
    requires a >= 1 && n > 0
    ensures a * n >= n
  {
    assert a * n == (a - 1) * n + n;
  }

  /** Division with remainder is unique: `m == q * n + r` with `0 <= r < n` fixes `m % n` as `r`. */
  lemma ModUnique(m: int, n: int, q: int, r: int)
    requires n > 0 && 0 <= r < n && m == q * n + r
    ensures m % n == r
  {
    var q', r' := m / n, m % n;
    var d := q - q';
    assert d * n == r' - r;
    if d >= 1 {
      MulAtLeast(d, n);
    } else if d <= -1 {
      MulAtLeast(-d, n);
    }
  }

  lemma NextOfMod(m: nat, n: nat)
    requires n > 0
    ensures NextIndex(m % n, n) == (m + 1) % n
  {
    var q, r := m / n, m % n;
    if r + 1 < n {
      ModUnique(m + 1, n, q, r + 1);
      ModUnique(r + 1, n, 0, r + 1);
    } else {
      assert m + 1 == (q + 1) * n + 0;
      ModUnique(m + 1, n, q + 1, 0);
      ModUnique(r + 1, n, 1, 0);
    }
  }

  /** `k` rotations from a valid index `i` land on `(i + k) mod n`. */
  lemma {:induction false} IndexAfterIsMod(i: nat, n: nat, k: nat)
    requires i < n
    ensures IndexAfter(i, n, k) == (i + k) % n
  {
    if k > 0 {
      IndexAfterIsMod(i, n, k - 1);
      NextOfMod(i + k - 1, n);
    }
  }

  /** The index sequence is periodic: after `n` rotations the index is back where it started. */
  lemma IndexPeriodic(i: nat, n: nat)
    requires i < n
    ensures IndexAfter(i, n, n) == i
  {
    IndexAfterIsMod(i, n, n);
    ModUnique(i + n, n, 1, i);
  }

  /** The flags after `k` rotations starting from index `i`. */
  function FlagsAfter(flags: seq<bool>, i: nat, k: nat): (r: seq<bool>)
    requires i < |flags|
    ensures |r| == |flags|
  {
    if k == 0 then flags
    else Rotated(FlagsAfter(flags, i, k - 1), IndexAfter(i, |flags|, k - 1))
  }

  /** Starting with only slide `i` active, after `k` rotations only slide `(i + k) mod n` is active. */
  lemma {:induction false} FlagsAfterOneActive(flags: seq<bool>, i: nat, k: nat)
    requires OnlyActive(flags, i)
    ensures OnlyActive(FlagsAfter(flags, i, k), IndexAfter(i, |flags|, k))
  {
    if k > 0 {
      FlagsAfterOneActive(flags, i, k - 1);
      RotatedKeepsOneActive(FlagsAfter(flags, i, k - 1), IndexAfter(i, |flags|, k - 1));
    }
  }

  /** With one active slide, `n` rotations restore the slides exactly as they were. */
  lemma FlagsPeriodic(flags: seq<bool>, i: nat)
    requires OnlyActive(flags, i)
    ensures FlagsAfter(flags, i, |flags|) == flags
  {
    FlagsAfterOneActive(flags, i, |flags|);
    IndexPeriodic(i, |flags|);
    OnlyActiveDetermines(FlagsAfter(flags, i, |flags|), flags, i);
  }

  /**
   * The index starts at 0 whatever slide the markup marks. The first
   * rotation clears slide 0 and sets slide 1 (slide 0 when there is only
   * one), so afterwards exactly one slide is active iff the markup marks
   * no slide from the third on; such a slide is still active beside it
   * after that rotation, until the index reaches it.
   */
  lemma FirstRotationLeavesOneActive(flags: seq<bool>)
    requires |flags| > 0
    ensures OnlyActive(Rotated(flags, 0), NextIndex(0, |flags|)) <==>
              forall j :: 2 <= j < |flags| ==> !flags[j]
  {
    var r := Rotated(flags, 0);
    if forall j :: 2 <= j < |flags| ==> !flags[j] {
      assert forall j :: 0 <= j < |flags| ==> (r[j] <==> j == NextIndex(0, |flags|));
    } else {
      var j :| 2 <= j < |flags| && flags[j];
      assert r[j] && j != NextIndex(0, |flags|);
    }
  }

  /**
   * The first pass of the index over the slides: after `k` rotations from 0,
   * with `k` below the slide count, the index is `k`, the slides before it
   * have been cleared, and the slides after it are as the markup left them.
   */
  lemma {:induction false} FirstPassClears(flags: seq<bool>, k: nat)
    requires 2 <= |flags| && 1 <= k <= |flags| - 1
    ensures IndexAfter(0, |flags|, k) == k
    ensures forall j :: 0 <= j < |flags| ==>
              FlagsAfter(flags, 0, k)[j] == (if j <= k then j == k else flags[j])
  {
    if k > 1 {
      FirstPassClears(flags, k - 1);
    }
    IndexAfterIsMod(0, |flags|, k);
    ModUnique(k, |flags|, 0, k);
  }

  /**
   * Whatever the markup marks, once the index has gone over every slide
   * (from rotation n - 1 on) exactly one slide is active: the one at the index.
   */
  lemma {:induction false} OneActiveAfterFirstPass(flags: seq<bool>, k: nat)
    requires |flags| >= 2 && k >= |flags| - 1
    ensures OnlyActive(FlagsAfter(flags, 0, k), IndexAfter(0, |flags|, k))
  {
    if k == |flags| - 1 {
      FirstPassClears(flags, k);
    } else {
      OneActiveAfterFirstPass(flags, k - 1);
      RotatedKeepsOneActive(FlagsAfter(flags, 0, k - 1), IndexAfter(0, |flags|, k - 1));
    }
  }

  /** The slides of the hero section and the rotation index. */
  class SlideRotator {
    /** The "active" class of each slide, in document order. */
    const slides: array<bool>
    var current: nat

    ghost predicate Valid()
      reads this
    {
      (slides.Length > 0 ==> current < slides.Length) && (slides.Length == 0 ==> current == 0)
    }

    /** Page load: the slides as the markup marks them, and the index at 0. */
    constructor (markup: seq<bool>)
      ensures Valid() && fresh(slides)
      ensures slides[..] == markup && current == 0
    {
      slides := new bool[|markup|](j requires 0 <= j < |markup| => markup[j]);
      current := 0;
    }

    /**
     * One firing of the rotation timer. With no slides the lookup of the
     * current slide fails, the handler stops and nothing changes (`ok` false).
     */
    method ChangeSlide() returns (ok: bool)
      requires Valid()
      modifies this, slides
      ensures Valid()
      ensures ok == (slides.Length > 0)
      ensures ok ==> current == NextIndex(old(current), slides.Length)
      ensures ok ==> slides[..] == Rotated(old(slides[..]), old(current))
      ensures !ok ==> current == old(current) && slides[..] == old(slides[..])
    {
      if slides.Length == 0 {
        return false;
      }
      slides[current] := false;
      current := (current + 1) % slides.Length;
      slides[current] := true;
      ok := true;
    }
  }

  /** A client view: with one slide active at the index, that stays so across rotations. */
  method RotateTwice(r: SlideRotator)
    requires r.Valid() && OnlyActive(r.slides[..], r.current)
    modifies r, r.slides
    ensures r.Valid() && OnlyActive(r.slides[..], r.current)
    ensures r.current == IndexAfter(old(r.current), r.slides.Length, 2)
  {
    ghost var s0, i0 := r.slides[..], r.current;
    var ok := r.ChangeSlide();
    RotatedKeepsOneActive(s0, i0);
    ghost var s1, i1 := r.slides[..], r.current;
    ok := r.ChangeSlide();
    RotatedKeepsOneActive(s1, i1);
    assert IndexAfter(i0, r.slides.Length, 1) == i1;
  }
}
