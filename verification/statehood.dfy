/**
 * `parseStatehoodAnswer` of scripts/update-candidates.js: the classifier that turns
 * the free-text answer to "Do you support DC Statehood?" into a short label.
 *
 * The answer is `undefined` when its column is missing (`None` here). A missing or
 * empty answer gives `null` (`None`). Otherwise the lower-cased, trimmed text is
 * checked in order: a "yes" prefix gives "Yes", a "no" prefix gives "No", any of
 * "maybe", "depends" or "conditional" inside gives "Conditional", and anything else
 * is returned trimmed with its case kept.
 */
module Statehood {
  import opened Wrappers
  import opened Text

  const YES: string := "Yes"
  const NO: string := "No"
  const CONDITIONAL: string := "Conditional"

  /** `answer.toLowerCase().trim()`. */
  function Normalized(answer: string): string {
    Trim(Lower(answer))
  }

  /** The text mentions one of the hedging keywords. */
  predicate Hedged(text: string) {
    Contains(text, "maybe") || Contains(text, "depends") || Contains(text, "conditional")
  }

  /**
   * `parseStatehoodAnswer(answer)`. Each of the three labels comes out exactly when
   * its test is the first to succeed, and a verbatim answer is never mistaken for
   * a label: the result is the trimmed answer exactly when no test succeeds.
   */
  function ParseStatehoodAnswer(answer: Option<string>): (r: Option<string>)
    ensures r.None? <==> answer.None? || answer.value == ""
    ensures answer.Some? && answer.value != "" ==>
      var text := Normalized(answer.value);
      && (r == Some(YES) <==> StartsWith(text, "yes"))
      && (r == Some(NO) <==> !StartsWith(text, "yes") && StartsWith(text, "no"))
      && (r == Some(CONDITIONAL) <==> !StartsWith(text, "yes") && !StartsWith(text, "no") && Hedged(text))
      && (!StartsWith(text, "yes") && !StartsWith(text, "no") && !Hedged(text) <==>
            r == Some(Trim(answer.value)) && Trim(answer.value) !in {YES, NO, CONDITIONAL})
  {
    match answer
    case None => None
    case Some(a) =>
      if a == "" then None
      else
        var text := Normalized(a);
        if StartsWith(text, "yes") then Some(YES)
        else if StartsWith(text, "no") then Some(NO)
        else if Hedged(text) then Some(CONDITIONAL)
        else
          VerbatimIsNoLabel(a);
          Some(Trim(a))
  }

  /** An answer that passes no test does not trim to one of the three labels. */
  lemma VerbatimIsNoLabel(a: string)
    requires !StartsWith(Normalized(a), "yes") && !StartsWith(Normalized(a), "no") && !Hedged(Normalized(a))
    ensures Trim(a) !in {YES, NO, CONDITIONAL}
  {
    NormalizedTrim(a);
    YesNormalizes();
    NoNormalizes();
    ConditionalNormalizes();
  }

  /** A text whose lower-case form has no white space at its ends normalizes to that form. */
  lemma NormalizesTo(s: string, l: string)
    requires Lower(s) == l
    requires |l| > 0 && !IsSpace(l[0]) && !IsSpace(l[|l| - 1])
    ensures Normalized(s) == l
  {
    TrimNoEdges(l);
  }

  lemma YesNormalizes()
    ensures Normalized(YES) == "yes" && StartsWith(Normalized(YES), "yes")
  {
    NormalizesTo(YES, "yes");
  }

  lemma NoNormalizes()
    ensures Normalized(NO) == "no" && StartsWith(Normalized(NO), "no")
  {
    NormalizesTo(NO, "no");
  }

  lemma ConditionalNormalizes()
    ensures Normalized(CONDITIONAL) == "conditional"
    ensures !StartsWith(Normalized(CONDITIONAL), "yes") && !StartsWith(Normalized(CONDITIONAL), "no")
    ensures Hedged(Normalized(CONDITIONAL))
  {
    NormalizesTo(CONDITIONAL, "conditional");
    ConditionalTests("conditional");
  }

  lemma ConditionalTests(t: string)
    requires t == "conditional"
    ensures !StartsWith(t, "yes") && !StartsWith(t, "no") && Hedged(t)
  {
    assert t[0] == 'c';
    assert StartsWith(t, "conditional");
  }

  /** Normalizing a trimmed answer is normalizing the answer. */
  lemma NormalizedTrim(a: string)
    ensures Normalized(Trim(a)) == Normalized(a)
  {
    LowerTrimCommute(a);
    LowerTrimCommute(Trim(a));
    TrimIdempotent(a);
  }

  /**
   * Classifying a classification changes nothing: every non-empty result is a
   * fixpoint. (An empty result, from a white-space-only answer, is not: it
   * classifies to `None`.)
   */
  lemma ClassifierFixpoint(answer: Option<string>)
    ensures ParseStatehoodAnswer(answer).Some? && ParseStatehoodAnswer(answer).value != "" ==>
              ParseStatehoodAnswer(ParseStatehoodAnswer(answer)) == ParseStatehoodAnswer(answer)
  {
    if ParseStatehoodAnswer(answer).None? || ParseStatehoodAnswer(answer).value == "" {
      return;
    }
    var r := ParseStatehoodAnswer(answer).value;
    var a := answer.value;
    if r == YES {
      YesNormalizes();
    } else if r == NO {
      NoNormalizes();
    } else if r == CONDITIONAL {
      ConditionalNormalizes();
    } else {
      assert r == Trim(a);
      NormalizedTrim(a);
      TrimIdempotent(a);
    }
  }

  /** A white-space-only answer is truthy, so it yields the empty string, not `null`. */
  lemma WhitespaceOnlyGivesEmpty(a: string)
    requires |a| > 0 && forall i :: 0 <= i < |a| ==> IsSpace(a[i])
    ensures ParseStatehoodAnswer(Some(a)) == Some("")
  {
    TrimStartUnique(a, |a|);
    LowerTrimCommute(a);
  }
}
