/**
 * The accept/revert decision `process_sed_commands` takes after re-measuring:
 * a change is kept when it lowers the `(errors, warnings)` pair
 * lexicographically, unless the drop in errors is suspiciously large.
 */
module Decision {
  import opened Diagnostics

  /** The absolute part of the suspicious-improvement guard. */
  const AnomalyThreshold: nat := 8

  /** `(now.errors, now.warnings) < (base.errors, base.warnings)` as Python compares tuples. */
  predicate Improves(now: Counts, base: Counts) {
    now.errors < base.errors || (now.errors == base.errors && now.warnings < base.warnings)
  }

  /** The guard as the source writes it, with `initial_errors / 2` a true division. */
  ghost predicate AnomalousAsWritten(base: Counts, now: Counts) {
    var errorDiff := base.errors - now.errors;
    errorDiff > AnomalyThreshold && (errorDiff as real) > (base.errors as real) / 2.0
  }

  /** The guard in integer arithmetic: the drop exceeds both 8 and half the old error count. */
  predicate Anomalous(base: Counts, now: Counts) {
    var errorDiff := base.errors - now.errors;
    errorDiff > AnomalyThreshold && 2 * errorDiff > base.errors
  }

  datatype Verdict =
    | Accept               // keep the change; the baseline becomes the new measurement
    | RevertAnomalous      // an improvement, but a suspiciously large one
    | RevertNoImprovement  // the pair did not go down

  /** The nested test of the loop body: improvement first, then the guard. */
  function Decide(base: Counts, now: Counts): Verdict {
    if Improves(now, base) then
      if Anomalous(base, now) then RevertAnomalous else Accept
    else RevertNoImprovement
  }

  // ---------------------------------------------------------------------------
  // The guard

  /** The integer form of the guard is exactly the source's real-division form. */
  lemma AnomalousExact(base: Counts, now: Counts)
    ensures Anomalous(base, now) <==> AnomalousAsWritten(base, now)
  {
    var d := base.errors - now.errors;
    assert (d as real) > (base.errors as real) / 2.0 <==> 2 * d > base.errors by {
      assert (2 * d) as real == 2.0 * (d as real);
    }
  }

  /** A change is accepted exactly when it improves and the source's guard does not fire. */
  lemma DecideAccepts(base: Counts, now: Counts)
    ensures Decide(base, now) == Accept <==> Improves(now, base) && !AnomalousAsWritten(base, now)
    ensures Decide(base, now) == RevertAnomalous <==> Improves(now, base) && AnomalousAsWritten(base, now)
  {
    AnomalousExact(base, now);
  }

  /** An accepted change never raises the error count, and lowers the pair strictly. */
  lemma AcceptLowers(base: Counts, now: Counts)
    requires Decide(base, now) == Accept
    ensures now.errors <= base.errors
    ensures now != base
  {
  }

  /** An accepted change drops at most 8 errors or at most half of them. */
  lemma AcceptedDropBounded(base: Counts, now: Counts)
    requires Decide(base, now) == Accept
    ensures base.errors - now.errors <= AnomalyThreshold || 2 * now.errors >= base.errors
  {
  }

  /** With at most 8 errors in the baseline the guard can never fire. */
  lemma SmallBaselineNeverAnomalous(base: Counts, now: Counts)
    requires base.errors <= AnomalyThreshold
    ensures !Anomalous(base, now)
    ensures Decide(base, now) == Accept <==> Improves(now, base)
  {
  }

  /** Errors going from 10 to 1 are rejected as anomalous; from 10 to 2 they are accepted. */
  lemma TenToOneIsAnomalous(w: nat, w': nat)
    ensures Decide(Counts(10, w), Counts(1, w')) == RevertAnomalous
    ensures Decide(Counts(10, w), Counts(2, w')) == Accept
  {
  }

  // ---------------------------------------------------------------------------
  // The order the decision uses

  /** `Improves` read as "strictly below": a strict total order on pairs. */
  lemma ImprovesIrreflexive(a: Counts)
    ensures !Improves(a, a)
  {
  }

  lemma ImprovesTransitive(a: Counts, b: Counts, c: Counts)
    requires Improves(a, b) && Improves(b, c)
    ensures Improves(a, c)
  {
  }

  lemma ImprovesTotal(a: Counts, b: Counts)
    ensures a == b || Improves(a, b) || Improves(b, a)
  {
  }

  /** `Improves(a, b)` or `a == b`: the baseline's "not above" order. */
  predicate AtMost(a: Counts, b: Counts) {
    a == b || Improves(a, b)
  }

  lemma AtMostTransitive(a: Counts, b: Counts, c: Counts)
    requires AtMost(a, b) && AtMost(b, c)
    ensures AtMost(a, c) && a.errors <= c.errors
  {
  }
}
