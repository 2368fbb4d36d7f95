/**
 * Candidate confidence, packages/shared/src/confidence.ts, over exact reals.
 *
 * The source computes 0.5^(n/2) and 0.5^(days/14) in floating point. Here 0.5^(n/2) is the n-th
 * power of the positive square root of one half, and the recency factor is any antitone function
 * of age into (0, 1] that is 1 at age zero. Both come in as a `Decay`.
 */
module Confidence {

  const CONTRADICTION_PENALTY := 0.25
  const GRADUATE_MIN_CONFIDENCE := 0.5
  const WITHDRAW_BELOW_CONFIDENCE := 0.3

  datatype Decay = Decay(root: real, recency: nat -> real)

  ghost predicate Lawful(d: Decay) {
    && d.root > 0.0 && d.root * d.root == 0.5
    && d.recency(0) == 1.0
    && (forall age :: 0.0 < d.recency(age) <= 1.0)
    && (forall a, b :: a <= b ==> d.recency(b) <= d.recency(a))
  }

  function Power(x: real, n: nat): real {
    if n == 0 then 1.0 else x * Power(x, n - 1)
  }

  function Clamp(x: real): real {
    if x < 0.0 then 0.0 else if x > 1.0 then 1.0 else x
  }

  /** `Math.round(x * 10_000) / 10_000` */
  function Quantize(x: real): real {
    (x * 10000.0 + 0.5).Floor as real / 10000.0
  }

  function Age(lastSeen: nat, now: nat): nat {
    if now <= lastSeen then 0 else now - lastSeen
  }

  function RawConfidence(d: Decay, occurrences: nat, age: nat, contradictions: nat): real {
    (1.0 - Power(d.root, occurrences)) * d.recency(age) - CONTRADICTION_PENALTY * contradictions as real
  }

  function Confidence(d: Decay, occurrences: nat, age: nat, contradictions: nat): real {
    Quantize(Clamp(RawConfidence(d, occurrences, age, contradictions)))
  }

  // ----- Monotone building blocks -----

  lemma QuantizeMonotone(x: real, y: real)
    requires x <= y
    ensures Quantize(x) <= Quantize(y)
  {
    assert (x * 10000.0 + 0.5).Floor <= (y * 10000.0 + 0.5).Floor;
  }

  lemma ProductMonotone(a: real, b: real, x: real, y: real)
    requires 0.0 <= a <= b && 0.0 <= x <= y
    ensures a * x <= b * y
  {
    assert a * x <= a * y;
    assert a * y <= b * y;
  }

  lemma RootBounds(d: Decay)
    requires Lawful(d)
    ensures 0.7071 < d.root < 0.7072
  {
    var r := d.root;
    assert r <= 0.7071 ==> r * r <= 0.7071 * 0.7071 by {
      if r <= 0.7071 {
        ProductMonotone(r, 0.7071, r, 0.7071);
      }
    }
    assert r >= 0.7072 ==> r * r >= 0.7072 * 0.7072 by {
      if r >= 0.7072 {
        ProductMonotone(0.7072, r, 0.7072, r);
      }
    }
  }

  lemma {:induction false} PowerShrinks(root: real, m: nat, n: nat)
    requires 0.0 < root < 1.0 && m <= n
    ensures 0.0 < Power(root, n) <= Power(root, m) <= 1.0
    decreases n
  {
    hide Power;
    if n == 0 {
      PowerZero(root);
    } else {
      PowerShrinks(root, if m == n then m - 1 else m, n - 1);
      PowerStep(root, n);
    }
  }

  lemma PowerZero(root: real)
    ensures Power(root, 0) == 1.0
  {
  }

  lemma PowerStep(root: real, n: nat)
    requires 0.0 < root < 1.0 && n != 0 && 0.0 < Power(root, n - 1)
    ensures 0.0 < Power(root, n) <= Power(root, n - 1)
  {
    hide Power;
    PowerUnfolds(root, n);
    OneFactor(root, Power(root, n - 1), Power(root, n));
  }

  lemma PowerUnfolds(root: real, n: nat)
    requires n != 0
    ensures Power(root, n) == root * Power(root, n - 1)
  {
  }

  lemma OneFactor(root: real, p: real, q: real)
    requires 0.0 < root < 1.0 && 0.0 < p && q == root * p
    ensures 0.0 < q <= p
  {
    ProductMonotone(root, 1.0, p, p);
    assert 1.0 * p == p;
    PositiveProduct(root, p);
  }

  lemma PositiveProduct(x: real, y: real)
    requires 0.0 < x && 0.0 < y
    ensures 0.0 < x * y
  {
  }

  lemma PowerBounds(d: Decay, n: nat)
    requires Lawful(d)
    ensures 0.0 < Power(d.root, n) <= 1.0
    ensures n >= 2 ==> Power(d.root, n) <= 0.5
    ensures n >= 7 ==> Power(d.root, n) <= 0.0884
  {
    RootBounds(d);
    PowerShrinks(d.root, 0, n);
    if n >= 2 {
      PowerShrinks(d.root, 2, n);
      SecondPower(d);
    }
    if n >= 7 {
      PowerShrinks(d.root, 7, n);
      SeventhPower(d);
    }
  }

  lemma SecondPower(d: Decay)
    requires Lawful(d)
    ensures Power(d.root, 2) == 0.5
  {
    assert Power(d.root, 0) == 1.0;
    assert Power(d.root, 1) == d.root * Power(d.root, 0) == d.root;
  }

  lemma SeventhPower(d: Decay)
    requires Lawful(d)
    ensures Power(d.root, 7) == 0.125 * d.root
  {
    var r := d.root;
    assert Power(r, 0) == 1.0;
    assert Power(r, 1) == r * Power(r, 0) == r;
    assert Power(r, 2) == r * Power(r, 1) == 0.5;
    assert Power(r, 3) == r * Power(r, 2) == 0.5 * r;
    assert Power(r, 4) == r * Power(r, 3) == 0.25;
    assert Power(r, 5) == r * Power(r, 4) == 0.25 * r;
    assert Power(r, 6) == r * Power(r, 5) == 0.125;
    assert Power(r, 7) == r * Power(r, 6);
  }

  lemma RawBounds(d: Decay, occurrences: nat, age: nat, contradictions: nat)
    requires Lawful(d)
    ensures RawConfidence(d, occurrences, age, contradictions)
         <= 1.0 - Power(d.root, occurrences) - CONTRADICTION_PENALTY * contradictions as real
  {
    hide Lawful;
    hide Power;
    FactorBounds(d, occurrences, age);
    Shrinks(1.0 - Power(d.root, occurrences), d.recency(age), CONTRADICTION_PENALTY * contradictions as real);
  }

  lemma FactorBounds(d: Decay, occurrences: nat, age: nat)
    requires Lawful(d)
    ensures 0.0 <= 1.0 - Power(d.root, occurrences) && 0.0 <= d.recency(age) <= 1.0
  {
    PowerBounds(d, occurrences);
    hide Power;
  }

  lemma Shrinks(score: real, factor: real, penalty: real)
    requires 0.0 <= score && 0.0 <= factor <= 1.0
    ensures score * factor - penalty <= score - penalty
  {
    ProductMonotone(score, score, factor, 1.0);
    assert score * 1.0 == score;
  }

  /** The value the schema accepts: between 0 and 1, quantized. */
  lemma ConfidenceInRange(d: Decay, occurrences: nat, age: nat, contradictions: nat)
    ensures 0.0 <= Confidence(d, occurrences, age, contradictions) <= 1.0
  {
    var raw := Clamp(RawConfidence(d, occurrences, age, contradictions));
    QuantizeMonotone(0.0, raw);
    QuantizeMonotone(raw, 1.0);
    assert Quantize(0.0) == 0.0 && Quantize(1.0) == 1.0;
  }

  // ----- The thresholds -----

  /** A single observation never reaches the graduation threshold, at any age. */
  lemma OneObservationIsNotEnough(d: Decay, occurrences: nat, age: nat, contradictions: nat)
    requires Lawful(d) && occurrences <= 1
    ensures Confidence(d, occurrences, age, contradictions) < GRADUATE_MIN_CONFIDENCE
  {
    RootBounds(d);
    RawBounds(d, occurrences, age, contradictions);
    assert Power(d.root, 0) == 1.0 && Power(d.root, 1) == d.root * Power(d.root, 0);
    QuantizeMonotone(Clamp(RawConfidence(d, occurrences, age, contradictions)), 0.3);
    assert Quantize(0.3) == 0.3;
  }

  /** Two fresh uncontradicted observations are enough. */
  lemma TwoFreshObservationsAreEnough(d: Decay, occurrences: nat)
    requires Lawful(d) && occurrences >= 2
    ensures Confidence(d, occurrences, 0, 0) >= GRADUATE_MIN_CONFIDENCE
  {
    PowerBounds(d, occurrences);
    QuantizeMonotone(0.5, Clamp(RawConfidence(d, occurrences, 0, 0)));
    assert Quantize(0.5) == 0.5;
  }

  /** Three contradictions sink any entry, however often it was observed. */
  lemma ThreeContradictionsSink(d: Decay, occurrences: nat, age: nat, contradictions: nat)
    requires Lawful(d) && contradictions >= 3
    ensures Confidence(d, occurrences, age, contradictions) < WITHDRAW_BELOW_CONFIDENCE
  {
    RawBounds(d, occurrences, age, contradictions);
    PowerBounds(d, occurrences);
    assert CONTRADICTION_PENALTY * contradictions as real >= 0.75;
    QuantizeMonotone(Clamp(RawConfidence(d, occurrences, age, contradictions)), 0.25);
    assert Quantize(0.25) == 0.25;
  }

  /** The anchors of docs/GRADUATION.md: a two-session entry dies on its first contradiction. */
  lemma TwoSessionsDieOnFirstContradiction(d: Decay, age: nat)
    requires Lawful(d)
    ensures Confidence(d, 2, age, 1) < WITHDRAW_BELOW_CONFIDENCE
  {
    RawBounds(d, 2, age, 1);
    assert Power(d.root, 0) == 1.0 && Power(d.root, 1) == d.root && Power(d.root, 2) == d.root * Power(d.root, 1) == 0.5;
    QuantizeMonotone(Clamp(RawConfidence(d, 2, age, 1)), 0.25);
    assert Quantize(0.25) == 0.25;
  }

  /** ... while a fresh seven-session entry survives two. */
  lemma SevenSessionsSurviveTwoContradictions(d: Decay, occurrences: nat, contradictions: nat)
    requires Lawful(d) && occurrences >= 7 && contradictions <= 2
    ensures Confidence(d, occurrences, 0, contradictions) >= WITHDRAW_BELOW_CONFIDENCE
  {
    PowerBounds(d, occurrences);
    assert CONTRADICTION_PENALTY * contradictions as real <= 0.5;
    QuantizeMonotone(0.3, Clamp(RawConfidence(d, occurrences, 0, contradictions)));
    assert Quantize(0.3) == 0.3;
  }

  /**
   * Decay alone can finish what one contradiction began: a seven-session entry contradicted once
   * survives while fresh and sinks once its recency factor has halved, with no new evidence.
   */
  lemma DecayFinishesAnOldContradiction(d: Decay, age: nat)
    requires Lawful(d) && d.recency(age) <= 0.5
    ensures Confidence(d, 7, 0, 1) >= WITHDRAW_BELOW_CONFIDENCE
    ensures Confidence(d, 7, age, 1) < WITHDRAW_BELOW_CONFIDENCE
  {
    SevenSessionsSurviveTwoContradictions(d, 7, 1);
    PowerBounds(d, 7);
    var score, factor := 1.0 - Power(d.root, 7), d.recency(age);
    ProductMonotone(score, 1.0, factor, 0.5);
    assert RawConfidence(d, 7, age, 1) == score * factor - 0.25;
    QuantizeMonotone(Clamp(RawConfidence(d, 7, age, 1)), 0.25);
    assert Quantize(0.25) == 0.25;
  }

  /** Once the recency factor has halved, a single contradiction is enough for any entry. */
  lemma HalvedRecencySinksTheContradicted(d: Decay, occurrences: nat, age: nat, contradictions: nat)
    requires Lawful(d) && d.recency(age) <= 0.5 && contradictions >= 1
    ensures Confidence(d, occurrences, age, contradictions) < WITHDRAW_BELOW_CONFIDENCE
  {
    hide Lawful;
    hide Power;
    FactorBounds(d, occurrences, age);
    PowerPositive(d, occurrences);
    var score, factor := 1.0 - Power(d.root, occurrences), d.recency(age);
    ProductMonotone(score, 1.0, factor, 0.5);
    var penalty := CONTRADICTION_PENALTY * contradictions as real;
    assert penalty >= 0.25;
    assert RawConfidence(d, occurrences, age, contradictions) == score * factor - penalty <= 0.25;
    QuantizeMonotone(Clamp(RawConfidence(d, occurrences, age, contradictions)), 0.25);
    assert Quantize(0.25) == 0.25;
  }

  lemma PowerPositive(d: Decay, n: nat)
    requires Lawful(d)
    ensures 0.0 < Power(d.root, n)
  {
    PowerBounds(d, n);
  }
}
