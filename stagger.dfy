/** The stagger scheduler of the RotatingText component: each rendered
    character gets an entry delay from its running position across all units
    of the active text. */
module Stagger {
  import opened Segmenter

  /** The `staggerFrom` setting. */
  datatype StaggerFrom = First | Last | Center | Random | Index(n: int)

  function Abs(x: int): nat
  {
    if x < 0 then -x else x
  }

  /** The number of stagger durations `getStaggerDelay(index, total)` waits:
      every origin multiplies its own count by the duration. `draw` stands for
      `Math.floor(Math.random() * total)`, which the host draws afresh on every
      call; only the Random origin reads it. */
  function StaggerSteps(index: nat, total: nat, from: StaggerFrom, draw: int): int
  {
    match from
    case First => index
    case Last => total - 1 - index
    case Center => Abs(total / 2 - index)
    case Random => Abs(draw - index)
    case Index(n) => Abs(n - index)
  }

  /** `getStaggerDelay(index, total)`, in seconds. */
  function StaggerDelay(index: nat, total: nat, from: StaggerFrom, duration: real, draw: int): (r: real)
    ensures duration == 0.0 ==> r == 0.0
  {
    StaggerSteps(index, total, from, draw) as real * duration
  }

  /** The latest delay a text of `total` characters can give. */
  function Ceiling(total: nat, duration: real): real
  {
    (total - 1) as real * duration
  }

  /** The position every origin measures its distance from. */
  function Pivot(from: StaggerFrom, total: nat, draw: int): int
  {
    match from
    case First => 0
    case Last => total - 1
    case Center => total / 2
    case Random => draw
    case Index(n) => n
  }

  /** Whether an origin's pivot lies on a character: always for first, last
      and center when there is a character; for random when the draw is in
      range, as `Math.floor(Math.random() * total)` is; for an explicit index
      when the caller picked one in range. */
  predicate PivotInRange(from: StaggerFrom, total: nat, draw: int)
  {
    0 <= Pivot(from, total, draw) < total
  }

  /** For every rendered character, every origin counts the distance from
      its pivot. */
  lemma StepsAreDistanceToPivot(index: nat, total: nat, from: StaggerFrom, draw: int)
    requires index < total
    ensures StaggerSteps(index, total, from, draw) == Abs(Pivot(from, total, draw) - index)
  {
  }

  /** For every rendered character, every origin's delay is its distance to
      the pivot times the stagger duration. */
  lemma DelayIsDistanceToPivot(index: nat, total: nat, from: StaggerFrom, duration: real, draw: int)
    requires index < total
    ensures StaggerDelay(index, total, from, duration, draw) == Abs(Pivot(from, total, draw) - index) as real * duration
  {
    StepsAreDistanceToPivot(index, total, from, draw);
  }

  /** "last" is the mirror image of "first". */
  lemma LastMirrorsFirst(index: nat, total: nat, duration: real, draw: int)
    requires index < total
    ensures StaggerDelay(index, total, Last, duration, draw) == StaggerDelay(total - 1 - index, total, First, duration, draw)
  {
  }

  lemma MulMonotone(a: real, b: real, d: real)
    requires 0.0 <= a <= b && 0.0 <= d
    ensures 0.0 <= a * d <= b * d
    ensures a == 0.0 ==> a * d == 0.0
  {
  }

  lemma ScaledStrict(a: real, b: real, d: real)
    requires a < b && 0.0 < d
    ensures a * d < b * d
  {
  }

  /** With a non-negative duration and a pivot on a character, a delay is zero
      at the pivot and never exceeds (total - 1) durations. */
  lemma DelayBounds(index: nat, total: nat, from: StaggerFrom, duration: real, draw: int)
    requires index < total && 0.0 <= duration
    requires PivotInRange(from, total, draw)
    ensures 0.0 <= StaggerDelay(index, total, from, duration, draw) <= Ceiling(total, duration)
    ensures index == Pivot(from, total, draw) ==> StaggerDelay(index, total, from, duration, draw) == 0.0
  {
    var steps := StaggerSteps(index, total, from, draw) as real;
    var widest := (total - 1) as real;
    StepsAreDistanceToPivot(index, total, from, draw);
    assert 0.0 <= steps <= widest;
    MulMonotone(steps, widest, duration);
    assert StaggerDelay(index, total, from, duration, draw) == steps * duration;
    assert Ceiling(total, duration) == widest * duration;
  }

  /** "center" is symmetric around the middle character. */
  lemma CenterSymmetric(total: nat, k: nat, duration: real, draw: int)
    requires k <= total / 2 && total / 2 + k < total
    ensures StaggerDelay(total / 2 - k, total, Center, duration, draw)
         == StaggerDelay(total / 2 + k, total, Center, duration, draw)
  {
  }

  // Running character offsets across units (the render's `reduce` sums).

  /** Total number of characters of the units. */
  function SumChars(units: seq<Unit>): nat
  {
    if units == [] then 0 else SumChars(units[..|units| - 1]) + |units[|units| - 1].characters|
  }

  /** `previousCharsCount`: characters in the units before unit `k`. */
  function PreviousCharsCount(units: seq<Unit>, k: nat): nat
    requires k <= |units|
  {
    SumChars(units[..k])
  }

  /** The delay rule's index for character `c` of unit `k`. */
  function GlobalIndex(units: seq<Unit>, k: nat, c: nat): nat
    requires k <= |units|
  {
    PreviousCharsCount(units, k) + c
  }

  /** Whether (k, c) names a rendered character. */
  predicate IsCharacter(units: seq<Unit>, k: nat, c: nat)
  {
    k < |units| && c < |units[k].characters|
  }

  lemma PreviousCharsStep(units: seq<Unit>, k: nat)
    requires k < |units|
    ensures PreviousCharsCount(units, k + 1) == PreviousCharsCount(units, k) + |units[k].characters|
  {
    assert units[..k + 1][..k] == units[..k];
  }

  lemma {:induction false} PreviousCharsMonotone(units: seq<Unit>, j: nat, k: nat)
    requires j <= k <= |units|
    ensures PreviousCharsCount(units, j) <= PreviousCharsCount(units, k)
  {
    if j < k {
      PreviousCharsMonotone(units, j, k - 1);
      PreviousCharsStep(units, k - 1);
    }
  }

  /** Every rendered character's index lies in [0, total). */
  lemma GlobalIndexInRange(units: seq<Unit>, k: nat, c: nat)
    requires IsCharacter(units, k, c)
    ensures GlobalIndex(units, k, c) < SumChars(units)
  {
    PreviousCharsStep(units, k);
    PreviousCharsMonotone(units, k + 1, |units|);
    assert units[..|units|] == units;
  }

  /** The index grows strictly in rendering order, so no two characters share
      one and the stagger runs on across unit boundaries. */
  lemma GlobalIndexOrdered(units: seq<Unit>, k1: nat, c1: nat, k2: nat, c2: nat)
    requires IsCharacter(units, k1, c1) && IsCharacter(units, k2, c2)
    requires k1 < k2 || (k1 == k2 && c1 < c2)
    ensures GlobalIndex(units, k1, c1) < GlobalIndex(units, k2, c2)
  {
    if k1 < k2 {
      PreviousCharsStep(units, k1);
      PreviousCharsMonotone(units, k1 + 1, k2);
    }
  }

  /** Every index in [0, total) belongs to some rendered character. */
  lemma {:induction false} GlobalIndexOnto(units: seq<Unit>, g: nat)
    requires g < SumChars(units)
    ensures exists k: nat, c: nat :: IsCharacter(units, k, c) && GlobalIndex(units, k, c) == g
  {
    var n := |units| - 1;
    var init := units[..n];
    if g < SumChars(init) {
      GlobalIndexOnto(init, g);
      var k: nat, c: nat :| IsCharacter(init, k, c) && GlobalIndex(init, k, c) == g;
      assert init[..k] == units[..k];
      assert IsCharacter(units, k, c) && GlobalIndex(units, k, c) == g;
    } else {
      assert units[..n] == init;
      assert IsCharacter(units, n, g - SumChars(init)) && GlobalIndex(units, n, g - SumChars(init)) == g;
    }
  }

  /** The delay the render gives character `c` of unit `k`: `draw(g)` is the
      random draw made for the character with index `g`. */
  function CharDelay(units: seq<Unit>, k: nat, c: nat, from: StaggerFrom, duration: real, draw: nat -> int): real
    requires k <= |units|
  {
    var g := GlobalIndex(units, k, c);
    StaggerDelay(g, SumChars(units), from, duration, draw(g))
  }

  /** The delays of all rendered characters, unit by unit. */
  function Delays(units: seq<Unit>, from: StaggerFrom, duration: real, draw: nat -> int): (r: seq<seq<real>>)
    ensures |r| == |units|
    ensures forall k :: 0 <= k < |r| ==> |r[k]| == |units[k].characters|
  {
    seq(|units|, k requires 0 <= k < |units| =>
      seq(|units[k].characters|, c requires 0 <= c < |units[k].characters| =>
        CharDelay(units, k, c, from, duration, draw)))
  }

  lemma DelayAt(units: seq<Unit>, from: StaggerFrom, duration: real, draw: nat -> int, k: nat, c: nat)
    requires IsCharacter(units, k, c)
    ensures Delays(units, from, duration, draw)[k][c] == CharDelay(units, k, c, from, duration, draw)
  {
  }

  /** With "first" and a positive duration, a later index waits longer. */
  lemma FirstDelayStrict(i: nat, j: nat, total: nat, duration: real, drawI: int, drawJ: int)
    requires i < j && 0.0 < duration
    ensures StaggerDelay(i, total, First, duration, drawI) < StaggerDelay(j, total, First, duration, drawJ)
  {
    ScaledStrict(i as real, j as real, duration);
  }

  /** With "first" and a positive duration, characters enter strictly one
      after the other in rendering order, across unit boundaries. */
  lemma FirstEntersInOrder(units: seq<Unit>, duration: real, draw: nat -> int, k1: nat, c1: nat, k2: nat, c2: nat)
    requires 0.0 < duration
    requires IsCharacter(units, k1, c1) && IsCharacter(units, k2, c2)
    requires k1 < k2 || (k1 == k2 && c1 < c2)
    ensures Delays(units, First, duration, draw)[k1][c1] < Delays(units, First, duration, draw)[k2][c2]
  {
    var g1, g2 := GlobalIndex(units, k1, c1), GlobalIndex(units, k2, c2);
    GlobalIndexOrdered(units, k1, c1, k2, c2);
    FirstDelayStrict(g1, g2, SumChars(units), duration, draw(g1), draw(g2));
    DelayAt(units, First, duration, draw, k1, c1);
    DelayAt(units, First, duration, draw, k2, c2);
  }

  /** Whatever the origin, with a non-negative duration and every random draw
      in range, each rendered delay lies between 0 and (total - 1) durations. */
  lemma DelaysBounded(units: seq<Unit>, from: StaggerFrom, duration: real, draw: nat -> int, k: nat, c: nat)
    requires 0.0 <= duration && IsCharacter(units, k, c)
    requires from.Index? ==> 0 <= from.n < SumChars(units)
    requires forall g :: 0 <= g < SumChars(units) ==> 0 <= draw(g) < SumChars(units)
    ensures 0.0 <= Delays(units, from, duration, draw)[k][c] <= Ceiling(SumChars(units), duration)
  {
    var g := GlobalIndex(units, k, c);
    GlobalIndexInRange(units, k, c);
    DelayBounds(g, SumChars(units), from, duration, draw(g));
  }
}
