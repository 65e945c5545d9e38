/** The fixed risk lexicon `RISK_WEIGHTS` (backend/main.py): ten lower-case
    terms, each with a severity weight, iterated in definition order. */
module Lexicon {
  import opened Text
  import opened Seqs

  datatype Entry = Entry(term: string, weight: nat)

  const RiskWeights: seq<Entry> := [
    Entry("fraud", 20),
    Entry("bribery", 15),
    Entry("sanctions", 25),
    Entry("bankruptcy", 10),
    Entry("money laundering", 30),
    Entry("litigation", 10),
    Entry("regulatory fines", 20),
    Entry("tax evasion", 15),
    Entry("data breach", 20),
    Entry("antitrust", 15)
  ]

  /** The weight total that maps to a risk score of 1. */
  const Calibration: nat := 100

  function Terms(lex: seq<Entry>): (r: seq<string>)
    ensures |r| == |lex|
    ensures forall i :: 0 <= i < |lex| ==> r[i] == lex[i].term
  {
    seq(|lex|, i requires 0 <= i < |lex| => lex[i].term)
  }

  /** Sum of all weights in the table: the largest total a text can reach. */
  function MaxTotal(lex: seq<Entry>): nat
  {
    if |lex| == 0 then 0 else lex[0].weight + MaxTotal(lex[1..])
  }

  predicate NoTerminal(t: string) {
    forall k :: 0 <= k < |t| ==> !IsTerminal(t[k])
  }

  predicate NoUpper(t: string) {
    forall k :: 0 <= k < |t| ==> !('A' <= t[k] <= 'Z')
  }

  /** A term the scorer and the summariser can both see: non-empty, already
      lower-case, not starting or ending with whitespace, and free of the
      sentence-ending characters `.`, `!` and `?`. */
  predicate TermWellFormed(t: string) {
    && |t| > 0
    && !IsSpace(t[0]) && !IsSpace(t[|t| - 1])
    && NoTerminal(t)
    && NoUpper(t)
  }

  predicate WellFormed(lex: seq<Entry>) {
    && Distinct(Terms(lex))
    && forall i :: 0 <= i < |lex| ==> TermWellFormed(lex[i].term) && lex[i].weight > 0
  }

  // The shipped terms are checked in three small groups so that each proof stays cheap.
  lemma FirstTermsWellFormed()
    ensures TermWellFormed("fraud") && TermWellFormed("bribery")
    ensures TermWellFormed("sanctions") && TermWellFormed("bankruptcy")
  {
  }

  lemma MiddleTermsWellFormed()
    ensures TermWellFormed("money laundering") && TermWellFormed("litigation")
    ensures TermWellFormed("regulatory fines")
  {
  }

  lemma LastTermsWellFormed()
    ensures TermWellFormed("tax evasion") && TermWellFormed("data breach")
    ensures TermWellFormed("antitrust")
  {
  }

  lemma RiskTermsWellFormed()
    ensures forall i :: 0 <= i < |RiskWeights| ==>
      TermWellFormed(RiskWeights[i].term) && RiskWeights[i].weight > 0
  {
    FirstTermsWellFormed();
    MiddleTermsWellFormed();
    LastTermsWellFormed();
    forall i | 0 <= i < |RiskWeights|
      ensures TermWellFormed(RiskWeights[i].term) && RiskWeights[i].weight > 0
    {
      assert RiskWeights[i] in RiskWeights;
    }
  }

  lemma RiskTermsDistinct()
    ensures Distinct(Terms(RiskWeights))
  {
  }

  /** The shipped table is well formed, and its weights add up to 180, so
      the cap at 100 is reachable. */
  lemma RiskWeightsWellFormed()
    ensures WellFormed(RiskWeights)
    ensures MaxTotal(RiskWeights) == 180
  {
    RiskTermsWellFormed();
    RiskTermsDistinct();
  }
}
