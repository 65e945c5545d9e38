/** `enhanced_risk_analysis` (backend/main.py) as one pure function of the
    text, and the properties that tie its four outputs together. */
module Analysis {
  import opened Text
  import opened Seqs
  import opened Lexicon
  import opened Scorer
  import opened SentenceSplit
  import opened Summary

  /** The result dictionary: `summary`, `risk_score` and the two `details`
      entries `flagged_terms` and `recommendations`. */
  datatype Assessment = Assessment(
    summary: string,
    riskScore: real,
    flaggedTerms: seq<string>,
    recommendation: string)

  /** The analysis against an arbitrary lexicon. */
  function Analyze(lex: seq<Entry>, text: string): Assessment
  {
    var lower := Lower(text);
    var flagged := Flagged(lex, lower);
    Assessment(
      Summarize(text, flagged),
      RiskScore(Total(lex, lower)),
      flagged,
      Recommendation(flagged))
  }

  /** `enhanced_risk_analysis(text)`: the analysis against `RISK_WEIGHTS`. */
  function EnhancedRiskAnalysis(text: string): Assessment
  {
    Analyze(RiskWeights, text)
  }

  /** The flagged terms are exactly the lexicon terms found in the lower-cased
      text, in lexicon order, each once; the score is their summed weight
      over 100, capped at 1, and it is 0 exactly when nothing is flagged;
      the recommendation is the review advice exactly when something is. */
  lemma ScoreAndFlags(lex: seq<Entry>, text: string)
    requires WellFormed(lex)
    ensures var a := Analyze(lex, text);
      && (forall t :: t in a.flaggedTerms <==> t in Terms(lex) && Contains(Lower(text), t))
      && IsSubsequence(a.flaggedTerms, Terms(lex))
      && Distinct(a.flaggedTerms)
      && 0.0 <= a.riskScore <= 1.0
      && a.riskScore == RiskScore(SumWeights(lex, a.flaggedTerms))
      && (a.riskScore == 0.0 <==> a.flaggedTerms == [])
      && (a.recommendation == ReviewAdvice <==> a.flaggedTerms != [])
  {
    var lower := Lower(text);
    forall t ensures t in Flagged(lex, lower) <==> t in Terms(lex) && Contains(lower, t) {
      FlaggedMembership(lex, lower, t);
    }
    FlaggedIsSubsequence(lex, lower);
    FlaggedDistinct(lex, lower);
    TotalIsSumOfFlaggedWeights(lex, lower);
    TotalZeroIffNothingFlagged(lex, lower);
  }

  /** The summary is empty exactly when the text is all whitespace. */
  lemma SummaryEmptyIff(lex: seq<Entry>, text: string)
    ensures Analyze(lex, text).summary == "" <==> AllSpace(text)
  {
    SentencesEmptyIff(text);
  }

  /** A flagged term always shows up in some sentence: lexicon terms hold no
      `.`, `!` or `?`, so no sentence boundary can cut through one, and no
      whitespace at their ends, so `strip` cannot cut into one. */
  lemma FlaggedTermInSomeSentence(lex: seq<Entry>, text: string, t: string)
    requires WellFormed(lex)
    requires t in Flagged(lex, Lower(text))
    ensures exists s :: s in Sentences(text) && Contains(Lower(s), t)
  {
    FlaggedMembership(lex, Lower(text), t);
    var i :| 0 <= i < |Terms(lex)| && Terms(lex)[i] == t;
    assert TermWellFormed(lex[i].term);
    forall k ensures !BoundaryAt(t, k) {
      if 0 < k < |t| {
        assert !IsTerminal(t[k - 1]);
      }
    }
    var p: nat :| p <= |Lower(text)| && OccursAt(Lower(text), t, p);
    OccurrenceInSomeSentence(text, t, p);
  }

  /** The summary keeps the first sentence only as a fallback, exactly when
      nothing is flagged: with flagged terms its sentences are the selection,
      precisely those mentioning one, every copy kept (and there is at least
      one such sentence); without, it is the first sentence alone. */
  lemma SummarySentences(lex: seq<Entry>, text: string)
    requires WellFormed(lex)
    ensures var flagged := Analyze(lex, text).flaggedTerms;
      var sents := Sentences(text);
      && (flagged != [] ==>
            && Seed(sents, flagged) != []
            && Seed(sents, flagged) == Select(sents, flagged)
            && forall s :: s in Seed(sents, flagged) <==> s in sents && Mentions(s, flagged))
      && (flagged == [] && sents != [] ==> Seed(sents, flagged) == [sents[0]])
  {
    var flagged := Flagged(lex, Lower(text));
    var sents := Sentences(text);
    if flagged != [] {
      FlaggedTermInSomeSentence(lex, text, flagged[0]);
      var s :| s in sents && Contains(Lower(s), flagged[0]);
      assert Mentions(s, flagged);
    }
    SeedFallback(sents, flagged);
  }

  /** Empty text flags nothing, scores 0, has an empty summary and gets the
      no-risk advice. */
  lemma {:induction false} EmptyText(lex: seq<Entry>)
    requires forall i :: 0 <= i < |lex| ==> |lex[i].term| > 0
    ensures Analyze(lex, "") == Assessment("", 0.0, [], NoRiskAdvice)
    decreases |lex|
  {
    if |lex| > 0 {
      EmptyText(lex[1..]);
      assert !OccursAt("", lex[0].term, 0);
    }
  }
}
