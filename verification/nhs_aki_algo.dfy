/** nhs_aki_algo.py: the NHS rule-based AKI detector, standalone. */
module NhsAkiAlgo {
  import opened Durations
  import Utils

  /** The detector's answer: an AKI flag, or the non-finite quotient of `c1/rv1` or `c1/rv2` by a
      zero divisor, which the model keeps apart from every real ratio. */
  datatype Verdict = Decided(aki: int) | DivisionByZero

  /** The final rule: AKI when the ratio reaches 1.5 or the two-day rise exceeds 26. */
  function AkiRule(rvRatio: real, d: real): (aki: int)
    ensures aki == 0 || aki == 1
    ensures aki == 1 <==> rvRatio >= 1.5 || d > 26.0
  {
    if rvRatio >= 1.5 then 1
    else if d > 26.0 then 1
    else 0
  }

  /** The rule applied to a computed ratio; a division by zero stays one. */
  function RuleOn(ratio: Utils.Ratio, d: real): (v: Verdict)
    requires !ratio.NoBand?
    ensures v.DivisionByZero? <==> ratio.DivisionByZero?
    ensures ratio.Finite? ==> v == Decided(AkiRule(ratio.value, d))
  {
    match ratio
    case Finite(x) => Decided(AkiRule(x, d))
    case DivisionByZero => DivisionByZero
  }

  /** The decision for a given number of elapsed days: no AKI for a non-positive gap or one of
      more than a year, otherwise the rule on c1/RV1 (up to 7 days) or c1/RV2 (up to 365 days).
      The ratio passed in is recomputed on every path that reaches the rule. */
  function BandedDecision(elapsedDays: int, c1: real, rv1: real, rv2: real, rvRatio: real, d: real): (v: Verdict)
    ensures elapsedDays <= 0 || elapsedDays > 365 ==> v == Decided(0)
    ensures 0 < elapsedDays <= 7 ==> v == RuleOn(Utils.Divide(c1, rv1), d)
    ensures 7 < elapsedDays <= 365 ==> v == RuleOn(Utils.Divide(c1, rv2), d)
  {
    if elapsedDays <= 0 then Decided(0)
    else if 0 < elapsedDays <= 7 then RuleOn(Utils.Divide(c1, rv1), d)
    else if 7 < elapsedDays <= 365 then RuleOn(Utils.Divide(c1, rv2), d)
    else if elapsedDays > 365 then Decided(0)
    else Decided(AkiRule(rvRatio, d))
  }

  /** The ratio handed in is never the one the rule sees: every elapsed-day count falls in a band. */
  lemma IncomingRatioUnused(elapsedDays: int, c1: real, rv1: real, rv2: real, x: real, y: real, d: real)
    ensures BandedDecision(elapsedDays, c1, rv1, rv2, x, d) == BandedDecision(elapsedDays, c1, rv1, rv2, y, d)
  {
  }

  /** `nhs_aki_algo` after the features are read: the elapsed time is fixed at 0 days, so the
      detector always answers no AKI, whatever the measurements. */
  function NhsAkiAlgo(c1: real, rv1: real, rv2: real, rvRatio: real, d: real): (v: Verdict)
    ensures v == Decided(0)
  {
    var elapsedDays := 0;
    BandedDecision(elapsedDays, c1, rv1, rv2, rvRatio, d)
  }

  /** For a gap of one day up to a year, this detector applies the rule to exactly the ratio the
      feature extractor of utils.py computes from the two newest test dates. */
  lemma {:induction false} AgreesWithFeatureRatio(days: int, c1: real, rv1: real, rv2: real, rvRatio: real, d: real)
    requires 0 < days <= 365
    ensures Utils.CalculateRvRatio(c1, rv1, rv2, [0, days * Day]).Finite? ||
            Utils.CalculateRvRatio(c1, rv1, rv2, [0, days * Day]).DivisionByZero?
    ensures BandedDecision(days, c1, rv1, rv2, rvRatio, d) == RuleOn(Utils.CalculateRvRatio(c1, rv1, rv2, [0, days * Day]), d)
  {
    var dates := [0, days * Day];
    assert Utils.LastGap(dates) == days * Day;
    if days <= 7 {
      assert 0 <= days * Day <= SevenDays;
    } else {
      assert SevenDays < days * Day <= Year;
    }
  }

  /** Tests on the same day: the feature ratio of utils.py is c1/RV1 = 1.5, which the rule flags,
      while this detector answers no AKI. */
  lemma DisagreesOnSameDayTests()
    ensures Utils.CalculateRvRatio(3.0, 2.0, 2.0, [0, 0]) == Utils.Finite(1.5)
    ensures RuleOn(Utils.CalculateRvRatio(3.0, 2.0, 2.0, [0, 0]), 0.0) == Decided(1)
    ensures BandedDecision(0, 3.0, 2.0, 2.0, 1.5, 0.0) == Decided(0)
  {
    assert Utils.LastGap([0, 0]) == 0;
  }

  /** Beyond a year the two disagree too: utils.py sets the ratio to 0, but a large two-day rise
      still flags AKI there, while this detector answers no AKI. */
  lemma DisagreesBeyondAYear()
    ensures Utils.CalculateRvRatio(1.0, 1.0, 1.0, [0, 366 * Day]) == Utils.Finite(0.0)
    ensures AkiRule(0.0, 30.0) == 1
    ensures BandedDecision(366, 1.0, 1.0, 1.0, 0.0, 30.0) == Decided(0)
  {
    assert Utils.LastGap([0, 366 * Day]) == 366 * Day;
  }
}
