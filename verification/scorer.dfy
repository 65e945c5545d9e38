/** The weighted lexicon scorer: the first half of `enhanced_risk_analysis`
    (backend/main.py), which flags every lexicon term that occurs in the
    lower-cased text, sums their weights and caps the normalised score at 1. */
module Scorer {
  import opened Text
  import opened Seqs
  import opened Lexicon

  /** The terms of `lex` that occur in `lower`, in table order. */
  function Flagged(lex: seq<Entry>, lower: string): (r: seq<string>)
    ensures |r| <= |lex|
    ensures forall t :: t in r ==> Contains(lower, t)
    decreases |lex|
  {
    if |lex| == 0 then []
    else (if Contains(lower, lex[0].term) then [lex[0].term] else []) + Flagged(lex[1..], lower)
  }

  /** The summed weight of the entries of `lex` whose term occurs in `lower`. */
  function Total(lex: seq<Entry>, lower: string): nat
    decreases |lex|
  {
    if |lex| == 0 then 0
    else (if Contains(lower, lex[0].term) then lex[0].weight else 0) + Total(lex[1..], lower)
  }

  /** The weight the table gives `term` (its first entry), 0 if absent. */
  function WeightOf(lex: seq<Entry>, term: string): nat
    decreases |lex|
  {
    if |lex| == 0 then 0
    else if lex[0].term == term then lex[0].weight
    else WeightOf(lex[1..], term)
  }

  function SumWeights(lex: seq<Entry>, terms: seq<string>): nat
    decreases |terms|
  {
    if |terms| == 0 then 0 else WeightOf(lex, terms[0]) + SumWeights(lex, terms[1..])
  }

  /** A term is flagged exactly when it is a lexicon term occurring in the text. */
  lemma {:induction false} FlaggedMembership(lex: seq<Entry>, lower: string, t: string)
    ensures t in Flagged(lex, lower) <==> t in Terms(lex) && Contains(lower, t)
    decreases |lex|
  {
    if |lex| > 0 {
      FlaggedMembership(lex[1..], lower, t);
      assert Terms(lex) == [lex[0].term] + Terms(lex[1..]);
    }
  }

  /** Flagged terms keep the table's definition order. */
  lemma {:induction false} FlaggedIsSubsequence(lex: seq<Entry>, lower: string)
    ensures IsSubsequence(Flagged(lex, lower), Terms(lex))
    decreases |lex|
  {
    if |lex| > 0 {
      FlaggedIsSubsequence(lex[1..], lower);
      var rest := Flagged(lex[1..], lower);
      var ts := Terms(lex);
      assert ts[1..] == Terms(lex[1..]);
      if Contains(lower, lex[0].term) {
        assert Flagged(lex, lower) == [lex[0].term] + rest;
        assert ([lex[0].term] + rest)[1..] == rest;
      } else {
        assert Flagged(lex, lower) == rest;
        SubsequenceSkip(rest, ts);
      }
    }
  }

  /** With distinct lexicon terms, no term is flagged twice. */
  lemma FlaggedDistinct(lex: seq<Entry>, lower: string)
    requires Distinct(Terms(lex))
    ensures Distinct(Flagged(lex, lower))
  {
    FlaggedIsSubsequence(lex, lower);
    SubsequenceOfDistinct(Flagged(lex, lower), Terms(lex));
  }

  /** Entries after the first see terms other than the first's weight unchanged. */
  lemma {:induction false} SumWeightsSkipHead(lex: seq<Entry>, terms: seq<string>)
    requires |lex| > 0
    requires lex[0].term !in terms
    ensures SumWeights(lex, terms) == SumWeights(lex[1..], terms)
    decreases |terms|
  {
    if |terms| > 0 {
      SumWeightsSkipHead(lex, terms[1..]);
    }
  }

  /** The running total is the sum, over the flagged terms, of each term's weight. */
  lemma {:induction false} TotalIsSumOfFlaggedWeights(lex: seq<Entry>, lower: string)
    requires Distinct(Terms(lex))
    ensures Total(lex, lower) == SumWeights(lex, Flagged(lex, lower))
    decreases |lex|
  {
    if |lex| > 0 {
      var tail := lex[1..];
      assert Terms(lex) == [lex[0].term] + Terms(tail);
      assert Distinct(Terms(tail)) by {
        forall i, j | 0 <= i < j < |Terms(tail)| ensures Terms(tail)[i] != Terms(tail)[j] {
          assert Terms(tail)[i] == Terms(lex)[i + 1] && Terms(tail)[j] == Terms(lex)[j + 1];
        }
      }
      TotalIsSumOfFlaggedWeights(tail, lower);
      var rest := Flagged(tail, lower);
      assert lex[0].term !in rest by {
        FlaggedMembership(tail, lower, lex[0].term);
        if lex[0].term in Terms(tail) {
          var k :| 0 <= k < |Terms(tail)| && Terms(tail)[k] == lex[0].term;
          assert Terms(lex)[k + 1] == Terms(lex)[0];
        }
      }
      SumWeightsSkipHead(lex, rest);
      if Contains(lower, lex[0].term) {
        var f := [lex[0].term] + rest;
        assert f[0] == lex[0].term && f[1..] == rest;
      } else {
        assert Flagged(lex, lower) == rest;
      }
    }
  }

  /** Adding one more entry at the end extends the flagged list by its term
      when the text contains it. */
  lemma {:induction false} FlaggedSnoc(lex: seq<Entry>, e: Entry, lower: string)
    ensures Flagged(lex + [e], lower)
      == Flagged(lex, lower) + (if Contains(lower, e.term) then [e.term] else [])
    decreases |lex|
  {
    if |lex| == 0 {
      assert ([] + [e])[1..] == [];
    } else {
      var l := lex + [e];
      assert l[0] == lex[0] && l[1..] == lex[1..] + [e];
      FlaggedSnoc(lex[1..], e, lower);
    }
  }

  /** Adding one more entry at the end adds its weight to the total when the
      text contains its term. */
  lemma {:induction false} TotalSnoc(lex: seq<Entry>, e: Entry, lower: string)
    ensures Total(lex + [e], lower)
      == Total(lex, lower) + (if Contains(lower, e.term) then e.weight else 0)
    decreases |lex|
  {
    if |lex| == 0 {
      assert ([] + [e])[1..] == [];
    } else {
      var l := lex + [e];
      assert l[0] == lex[0] && l[1..] == lex[1..] + [e];
      TotalSnoc(lex[1..], e, lower);
    }
  }

  /** The loop of `enhanced_risk_analysis`: one pass over the table in
      definition order, appending each term found and adding its weight. */
  method ScoreTerms(lex: seq<Entry>, lower: string) returns (flagged: seq<string>, total: nat)
    ensures flagged == Flagged(lex, lower)
    ensures total == Total(lex, lower)
  {
    flagged := [];
    total := 0;
    var i := 0;
    while i < |lex|
      invariant 0 <= i <= |lex|
      invariant flagged == Flagged(lex[..i], lower)
      invariant total == Total(lex[..i], lower)
    {
      var e := lex[i];
      FlaggedSnoc(lex[..i], e, lower);
      TotalSnoc(lex[..i], e, lower);
      assert lex[..i + 1] == lex[..i] + [e];
      if Contains(lower, e.term) {
        flagged := flagged + [e.term];
        total := total + e.weight;
      }
      i := i + 1;
    }
    assert lex[..i] == lex;
  }

  /** Nothing flagged means a zero total, and with positive weights only then. */
  lemma {:induction false} TotalZeroIffNothingFlagged(lex: seq<Entry>, lower: string)
    requires forall i :: 0 <= i < |lex| ==> lex[i].weight > 0
    ensures Total(lex, lower) == 0 <==> Flagged(lex, lower) == []
    decreases |lex|
  {
    if |lex| > 0 {
      TotalZeroIffNothingFlagged(lex[1..], lower);
    }
  }

  /** The total never exceeds the sum of all table weights. */
  lemma {:induction false} TotalAtMostMax(lex: seq<Entry>, lower: string)
    ensures Total(lex, lower) <= MaxTotal(lex)
    decreases |lex|
  {
    if |lex| > 0 {
      TotalAtMostMax(lex[1..], lower);
    }
  }

  /** `min(total / 100.0, 1.0)`. */
  function RiskScore(total: nat): (r: real)
    ensures 0.0 <= r <= 1.0
    ensures r == (if total < Calibration then total else Calibration) as real / Calibration as real
    ensures r == 0.0 <==> total == 0
    ensures total >= Calibration <==> r == 1.0
  {
    var scaled := total as real / Calibration as real;
    if scaled < 1.0 then scaled else 1.0
  }

  /** A bigger total never lowers the score. */
  lemma RiskScoreMonotone(a: nat, b: nat)
    requires a <= b
    ensures RiskScore(a) <= RiskScore(b)
  {
  }

  const ReviewAdvice: string := "Review the highlighted sentences for potential compliance issues."
  const NoRiskAdvice: string := "No high\U{2011}severity risk terms detected; continue standard due diligence."

  /** The recommendation depends only on whether anything was flagged. */
  function Recommendation(flagged: seq<string>): (r: string)
    ensures r == ReviewAdvice <==> |flagged| > 0
    ensures r == NoRiskAdvice <==> flagged == []
  {
    if |flagged| > 0 then ReviewAdvice else NoRiskAdvice
  }
}
