/**
 * Percentage progress of an enrollment.
 *
 * Both the backend controller and the frontend service compute
 * `Math.round((completed / total) * 100)`. The model works in exact integers:
 * `RoundedPercent` is that expression as written (round half up), and
 * `CompletionPercent` is the corrected rule: it agrees with `RoundedPercent` for
 * every course of fewer than 200 lessons, and it reaches 100 only when every lesson
 * is counted. The write paths take a `Rounding` that selects one of the two.
 */
module Progress {

  /** Multiplying by a positive factor preserves strict order. */
  lemma MulStrict(k: int, a: int, b: int)
    requires k > 0 && a < b
    ensures k * a < k * b
  {
    assert k * b - k * a == k * (b - a);
  }

  /** `Math.round(100 * n / t)`: the nearest integer to 100·n/t, halves rounded up. */
  function RoundedPercent(n: nat, t: nat): (p: nat)
    requires t > 0
    ensures 2 * t * p <= 200 * n + t < 2 * t * (p + 1)
  {
    var a, b := 200 * n + t, 2 * t;
    assert a == b * (a / b) + a % b;
    assert b * (a / b + 1) == b * (a / b) + b;
    a / b
  }

  /** The bracket in RoundedPercent's contract pins the result down: only one integer satisfies it. */
  lemma RoundedPercentUnique(n: nat, t: nat, q: int)
    requires t > 0
    requires 2 * t * q <= 200 * n + t < 2 * t * (q + 1)
    ensures q == RoundedPercent(n, t)
  {
    var p := RoundedPercent(n, t);
    if q < p {
      MulStrict(2 * t, q, p);
      assert 2 * t * (q + 1) <= 2 * t * p by {
        if q + 1 < p { MulStrict(2 * t, q + 1, p); }
      }
    } else if p < q {
      MulStrict(2 * t, p, q);
      assert 2 * t * (p + 1) <= 2 * t * q by {
        if p + 1 < q { MulStrict(2 * t, p + 1, q); }
      }
    }
  }

  /** As written, a course of fewer than 200 lessons shows 100 exactly when every lesson is counted. */
  lemma RoundedPercentFullIffAll(n: nat, t: nat)
    requires 0 < t < 200 && n <= t
    ensures RoundedPercent(n, t) == 100 <==> n == t
  {
    var p := RoundedPercent(n, t);
    if n == t {
      RoundedPercentUnique(n, t, 100);
    } else {
      assert 200 * n + t < 2 * t * 100;
      if p > 100 { MulStrict(2 * t, 100, p); }
    }
  }

  /**
   * The discrepancy as written: for a course of 200 lessons or more, one lesson
   * short of the end already rounds to 100.
   */
  lemma HundredBeforeLastLesson(t: nat)
    requires t >= 200
    ensures RoundedPercent(t - 1, t) == 100
  {
    RoundedPercentUnique(t - 1, t, 100);
  }

  /** A concrete input: 399 lessons out of 400 is 99.75 %, which `Math.round` turns into 100. */
  lemma HundredAt399Of400()
    ensures RoundedPercent(399, 400) == 100
  {
    HundredBeforeLastLesson(400);
  }

  /**
   * The corrected progress: `Math.round(100 * n / t)`, except that a course with a
   * lesson still missing is held at 99 rather than rounded up to 100.
   */
  function CompletionPercent(n: nat, t: nat): (p: nat)
    requires t > 0
    ensures n < t ==> p < 100
    ensures n == t ==> p == 100
    ensures n < t && RoundedPercent(n, t) == 100 ==> p == 99
    ensures !(n < t && RoundedPercent(n, t) == 100) ==> p == RoundedPercent(n, t)
  {
    var r := RoundedPercent(n, t);
    if n < t && r == 100 then 99
    else
      assert n < t ==> r < 100 by {
        if n < t && r > 100 {
          MulStrict(2 * t, 100, r);
          assert 2 * t * 101 <= 2 * t * r by {
            if r > 101 { MulStrict(2 * t, 101, r); }
          }
        }
      }
      assert n == t ==> r == 100 by {
        if n == t { RoundedPercentUnique(n, t, 100); }
      }
      r
  }

  /** Completed lessons among the course's lessons give a progress in 0..100, reaching 100 only at the end. */
  lemma CompletionPercentRange(n: nat, t: nat)
    requires 0 < t && n <= t
    ensures 0 <= CompletionPercent(n, t) <= 100
    ensures CompletionPercent(n, t) == 100 <==> n == t
  {
  }

  /** For fewer than 200 lessons the corrected rule is exactly the source's `Math.round`. */
  lemma CompletionPercentAgreesBelow200(n: nat, t: nat)
    requires 0 < t < 200
    ensures CompletionPercent(n, t) == RoundedPercent(n, t)
  {
    if n < t {
      RoundedPercentFullIffAll(n, t);
    }
  }

  /** As written, more completed lessons never lower the rounded progress. */
  lemma {:induction false} RoundedPercentMonotone(m: nat, n: nat, t: nat)
    requires 0 < t && m <= n
    ensures RoundedPercent(m, t) <= RoundedPercent(n, t)
  {
    var pm, pn := RoundedPercent(m, t), RoundedPercent(n, t);
    if pn < pm {
      MulStrict(2 * t, pn, pm);
      assert 2 * t * (pn + 1) <= 2 * t * pm by {
        if pn + 1 < pm { MulStrict(2 * t, pn + 1, pm); }
      }
      assert false;
    }
  }

  /** As written, completed lessons among the course's lessons never round above 100. */
  lemma RoundedPercentAtMost100(n: nat, t: nat)
    requires 0 < t && n <= t
    ensures RoundedPercent(n, t) <= 100
  {
    var p := RoundedPercent(n, t);
    if p > 100 {
      MulStrict(2 * t, 100, p);
      assert 2 * t * 101 <= 2 * t * p by {
        if p > 101 { MulStrict(2 * t, 101, p); }
      }
    }
  }

  /** Which rule a progress write uses: the source's `Math.round`, or the corrected rule. */
  datatype Rounding = AsWritten | Corrected

  /** The rule and course size under which progress reaches 100 only with every lesson counted. */
  predicate ExactAtEnd(rule: Rounding, t: nat) {
    rule == Corrected || t < 200
  }

  /**
   * The progress a write stores for `n` completed lessons out of `t`. Both rules give
   * 0..100 within the course and 100 at the end; only under `ExactAtEnd` is 100
   * withheld until the end, and as written a course of 200 or more lessons shows 100
   * with one lesson still missing.
   */
  function Percent(rule: Rounding, n: nat, t: nat): (p: nat)
    requires t > 0
    ensures rule == AsWritten ==> p == RoundedPercent(n, t)
    ensures rule == Corrected ==> p == CompletionPercent(n, t)
    ensures n <= t ==> p <= 100
    ensures n == t ==> p == 100
    ensures ExactAtEnd(rule, t) && n < t ==> p < 100
    ensures !ExactAtEnd(rule, t) && n + 1 == t ==> p == 100
  {
    match rule
    case AsWritten =>
      var r := RoundedPercent(n, t);
      assert n <= t ==> r <= 100 by { if n <= t { RoundedPercentAtMost100(n, t); } }
      assert n == t ==> r == 100 by { if n == t { RoundedPercentUnique(n, t, 100); } }
      assert t < 200 && n < t ==> r < 100 by {
        if t < 200 && n < t { RoundedPercentAtMost100(n, t); RoundedPercentFullIffAll(n, t); }
      }
      assert t >= 200 && n + 1 == t ==> r == 100 by { if t >= 200 && n + 1 == t { HundredBeforeLastLesson(t); } }
      r
    case Corrected => CompletionPercent(n, t)
  }

  /** Under either rule, more completed lessons never lower the progress. */
  lemma PercentMonotone(rule: Rounding, m: nat, n: nat, t: nat)
    requires 0 < t && m <= n
    ensures Percent(rule, m, t) <= Percent(rule, n, t)
  {
    RoundedPercentMonotone(m, n, t);
  }

  /** Below 200 lessons the two rules store the same progress. */
  lemma PercentRulesAgreeBelow200(n: nat, t: nat)
    requires 0 < t < 200
    ensures Percent(AsWritten, n, t) == Percent(Corrected, n, t)
  {
    CompletionPercentAgreesBelow200(n, t);
  }
}
