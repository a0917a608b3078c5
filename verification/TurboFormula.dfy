/** The boost target of features/nputurbo/formula.go. */
module TurboFormula {
  import opened GoText
  import opened GoNumbers

  /** `roundStep`: the nearest multiple, ties upward. */
  function RoundStep(v: int, step: int): int {
    if step <= 0 then v else DivTowardsZero(v + step / 2, step) * step
  }

  /** The product of base frequency and score, before any rounding. */
  function Raw(currentA: int, score: real): real {
    currentA as real * score
  }

  /** `ComputeTargetB`: no target if the score is normal or rounding eats the gain. */
  function ComputeTargetB(currentA: int, score: real, maxM: int, step: int): Option<int> {
    if score <= 1.0 then None
    else
      var b := Min(RoundStep(Truncated(Raw(currentA, score) + 0.5), step), maxM);
      if b <= currentA then None else Some(b)
  }

  // ----- which target there is -------------------------------------------------------------------

  /** `v` is the integer nearest to `x`, halves upward. */
  predicate IsRounded(v: int, x: real) {
    v as real - 0.5 <= x < v as real + 0.5
  }

  /** `m` is the multiple of the step nearest to `v`, ties upward; without a positive step it is `v`. */
  predicate IsNearestStep(m: int, v: int, step: int) {
    if step <= 0 then m == v
    else m % step == 0 && 2 * (m - v) <= step && 2 * (v - m) < step
  }

  lemma NearestStepIsOne(m: int, n: int, v: int, step: int)
    requires IsNearestStep(m, v, step) && IsNearestStep(n, v, step)
    ensures m == n
  {
    if m < n {
      DifferentRemainders(m, n, step);
    } else if n < m {
      DifferentRemainders(n, m, step);
    }
  }

  lemma RoundStepIsNearest(v: int, step: int)
    requires v >= 0
    ensures IsNearestStep(RoundStep(v, step), v, step)
  {
    if step > 0 {
      DivTowardsZeroBounds(v + step / 2, step);
      MultipleIsZeroMod(DivTowardsZero(v + step / 2, step), step);
    }
  }

  lemma TruncatedIsRounded(v: int, x: real)
    requires x >= 0.0 && IsRounded(v, x)
    ensures Truncated(x + 0.5) == v
  {
  }

  lemma ProductNonNegative(currentA: int, score: real)
    requires currentA >= 0 && score > 1.0
    ensures currentA as real * score >= 0.0
  {
  }

  /** With `m` the multiple of the step nearest to the rounded product: there is no target exactly when the
      score is normal or the maximum or `m` is not above the base; else it is the smaller of `m` and the
      maximum. */
  lemma TargetExactly(currentA: int, score: real, maxM: int, step: int, v: int, m: int)
    requires currentA >= 0 && IsRounded(v, currentA as real * score) && IsNearestStep(m, v, step)
    ensures ComputeTargetB(currentA, score, maxM, step) ==
            if score <= 1.0 || maxM <= currentA || m <= currentA then None
            else Some(if m <= maxM then m else maxM)
  {
    if score > 1.0 {
      ProductNonNegative(currentA, score);
      TruncatedIsRounded(v, currentA as real * score);
      RoundStepIsNearest(v, step);
      NearestStepIsOne(m, RoundStep(v, step), v, step);
    }
  }

  /** There always is such an `m`. */
  lemma SomeNearestStep(x: real, step: int) returns (v: int, m: int)
    requires x >= 0.0
    ensures IsRounded(v, x) && IsNearestStep(m, v, step)
  {
    v := (x + 0.5).Floor;
    m := RoundStep(v, step);
    RoundStepIsNearest(v, step);
  }

  // ----- how close the target is to the product -------------------------------------------------

  function Distance(x: real, y: real): real {
    if x <= y then y - x else x - y
  }

  /** A target is above the base, within the maximum, and either the maximum or a multiple of the
      step no further from the product than half a step and half a unit. */
  predicate TargetIsNear(currentA: int, score: real, maxM: int, step: int)
    requires step > 0
  {
    match ComputeTargetB(currentA, score, maxM, step)
    case None => true
    case Some(b) =>
      && score > 1.0
      && currentA < b <= maxM
      && (b == maxM || (b % step == 0 && Distance(b as real, Raw(currentA, score)) <= step as real / 2.0 + 0.5))
  }

  lemma RoundStepIsNear(v: int, step: int)
    requires v >= 0 && step > 0
    ensures RoundStep(v, step) % step == 0
    ensures RoundStep(v, step) - step / 2 <= v <= RoundStep(v, step) + step / 2
  {
    var h := step / 2;
    DivTowardsZeroBounds(v + h, step);
    MultipleIsZeroMod(DivTowardsZero(v + h, step), step);
  }

  lemma RawNonNegative(currentA: int, score: real)
    requires currentA >= 0 && score > 1.0
    ensures Raw(currentA, score) >= 0.0
  {
  }

  lemma TargetNearForNonNegativeBase(currentA: int, score: real, maxM: int, step: int)
    requires currentA >= 0 && step > 0
    ensures TargetIsNear(currentA, score, maxM, step)
  {
    if score > 1.0 {
      RawNonNegative(currentA, score);
      var raw := Raw(currentA, score);
      var v := Truncated(raw + 0.5);
      assert Distance(v as real, raw) <= 0.5;
      RoundStepIsNear(v, step);
      var b := RoundStep(v, step);
      assert Distance(b as real, v as real) <= (step / 2) as real <= step as real / 2.0;
    }
  }

  /** A score just above normal. */
  function SlightScore(currentA: int): real
    requires currentA < 0
  {
    1.0 + 1.0 / (-4.0 * currentA as real)
  }

  lemma SlightRaw(currentA: int)
    requires currentA < 0
    ensures SlightScore(currentA) > 1.0
    ensures Raw(currentA, SlightScore(currentA)) == currentA as real - 0.25
  {
    var a := currentA as real;
    assert a * (1.0 / (-4.0 * a)) == -0.25;
  }

  /** Below zero the conversion to an integer goes the other way: the target is too far off. */
  lemma NegativeBaseIsOff(currentA: int)
    requires currentA < 0
    ensures ComputeTargetB(currentA, SlightScore(currentA), currentA + 2, 1) == Some(currentA + 1)
    ensures !TargetIsNear(currentA, SlightScore(currentA), currentA + 2, 1)
  {
    SlightRaw(currentA);
    assert Truncated(currentA as real + 0.25) == currentA + 1;
    StepOneIsExact(currentA + 1);
  }

  lemma StepOneIsExact(v: int)
    ensures RoundStep(v, 1) == v
  {
  }

  /** Every target is as near as promised exactly when the base frequency is not negative. */
  lemma TargetsNearExactlyForNonNegativeBase(currentA: int)
    ensures (forall score: real, maxM: int, step: int :: step > 0 ==> TargetIsNear(currentA, score, maxM, step))
            <==> currentA >= 0
  {
    if currentA >= 0 {
      forall score: real, maxM: int, step: int | step > 0
        ensures TargetIsNear(currentA, score, maxM, step)
      {
        TargetNearForNonNegativeBase(currentA, score, maxM, step);
      }
    } else {
      NegativeBaseIsOff(currentA);
    }
  }

  // ----- the order of rounding and clamping ---------------------------------------------------------

  lemma RoundStepMonotone(v: int, w: int, step: int)
    requires v <= w
    ensures RoundStep(v, step) <= RoundStep(w, step)
  {
    if step > 0 {
      var q, r := DivTowardsZero(v + step / 2, step), DivTowardsZero(w + step / 2, step);
      DivMonotone(v + step / 2, w + step / 2, step);
      if q < r {
        MultiplesApart(r, q, step);
      }
    }
  }

  lemma RoundStepIsMultiple(m: int, step: int)
    requires step > 0
    ensures RoundStep(m, step) % step == 0
  {
    MultipleIsZeroMod(DivTowardsZero(m + step / 2, step), step);
  }

  lemma RoundStepFixesMultiple(q: nat, step: int)
    requires step > 0
    ensures RoundStep(q * step, step) == q * step
  {
    QuotientUnique(q * step + step / 2, step, q, step / 2);
  }

  lemma RoundStepRaisesNegative(m: int, step: int)
    requires m < 0 && step > 1
    ensures RoundStep(m, step) > m
  {
    var h := step / 2;
    if m + h >= 0 {
      QuotientUnique(m + h, step, 0, m + h);
    } else {
      DivTowardsZeroBounds(m + h, step);
    }
  }

  /** Which maxima rounding leaves alone. */
  lemma RoundStepFixes(m: int, step: int)
    requires step > 0
    ensures RoundStep(m, step) == m <==> m % step == 0 && (m >= 0 || step == 1)
  {
    RoundStepIsMultiple(m, step);
    if step == 1 {
      StepOneIsExact(m);
    } else if m < 0 {
      RoundStepRaisesNegative(m, step);
    } else if m % step == 0 {
      assert m == (m / step) * step;
      RoundStepFixesMultiple(m / step, step);
    }
  }

  /** With a maximum between two steps, the code's order and that of its comment give different values. */
  lemma ClampingOrderMatters()
    ensures Min(RoundStep(2000, 100), 1960) == 1960 && RoundStep(Min(2000, 1960), 100) == 2000
  {
  }

  /** Clamping after rounding, as the code does, is rounding after clamping, as its comment says,
      exactly when the maximum is itself a multiple of the step (and not negative, unless the step
      is one). */
  lemma ClampingCommutesExactlyForMultiples(maxM: int, step: int)
    requires step > 0
    ensures (forall v :: RoundStep(Min(v, maxM), step) == Min(RoundStep(v, step), maxM))
            <==> maxM % step == 0 && (maxM >= 0 || step == 1)
  {
    RoundStepFixes(maxM, step);
    if RoundStep(maxM, step) == maxM {
      forall v
        ensures RoundStep(Min(v, maxM), step) == Min(RoundStep(v, step), maxM)
      {
        if v <= maxM {
          RoundStepMonotone(v, maxM, step);
        } else {
          RoundStepMonotone(maxM, v, step);
        }
      }
    } else if RoundStep(maxM, step) > maxM {
      assert RoundStep(Min(maxM, maxM), step) != Min(RoundStep(maxM, step), maxM);
    } else {
      var v := maxM + step;
      RoundStepMovesByStep(maxM, step);
      assert RoundStep(Min(v, maxM), step) != Min(RoundStep(v, step), maxM);
    }
  }

  /** A step further on, rounding gives at least what it would have to reach the maximum. */
  lemma RoundStepMovesByStep(m: int, step: int)
    requires step > 0
    ensures RoundStep(m + step, step) > RoundStep(m, step) || RoundStep(m + step, step) >= m
  {
    var h := step / 2;
    DivTowardsZeroBounds(m + step + h, step);
    DivTowardsZeroBounds(m + h, step);
  }

  // ----- monotone in the score -------------------------------------------------------------------------

  predicate MonotoneAt(currentA: int, s1: real, s2: real, maxM: int, step: int) {
    var t1, t2 := ComputeTargetB(currentA, s1, maxM, step), ComputeTargetB(currentA, s2, maxM, step);
    s1 <= s2 && t1.Some? ==> t2.Some? && t1.value <= t2.value
  }

  lemma ScaleMonotone(a: real, s1: real, s2: real)
    requires a >= 0.0 && s1 <= s2
    ensures a * s1 <= a * s2
  {
    assert a * (s2 - s1) >= 0.0;
  }

  /** A slower card never gets a lower target, exactly when the base frequency is not negative. */
  lemma MonotoneExactlyForNonNegativeBase(currentA: int)
    ensures (forall s1: real, s2: real, maxM: int, step: int :: MonotoneAt(currentA, s1, s2, maxM, step))
            <==> currentA >= 0
  {
    if currentA >= 0 {
      forall s1: real, s2: real, maxM: int, step: int
        ensures MonotoneAt(currentA, s1, s2, maxM, step)
      {
        if s1 <= s2 {
          ScaleMonotone(currentA as real, s1, s2);
          TruncatedMonotone(Raw(currentA, s1) + 0.5, Raw(currentA, s2) + 0.5);
          RoundStepMonotone(Truncated(Raw(currentA, s1) + 0.5), Truncated(Raw(currentA, s2) + 0.5), step);
        }
      }
    } else {
      NegativeBaseIsOff(currentA);
      SlightRaw(currentA);
      var s := SlightScore(currentA);
      assert Truncated((2 * currentA) as real + 0.5) == 2 * currentA + 1;
      StepOneIsExact(2 * currentA + 1);
      assert Raw(currentA, 2.0) == (2 * currentA) as real;
      assert ComputeTargetB(currentA, 2.0, currentA + 2, 1) == None;
      assert 1.0 / (-4.0 * currentA as real) <= 1.0;
      assert !MonotoneAt(currentA, s, 2.0, currentA + 2, 1);
    }
  }
}
