/** Summary construction of `enhanced_risk_analysis` (backend/main.py):
    keep the sentences that mention a flagged term, fall back to the first
    sentence, then join with `". "` and append one `"."`. */
module Summary {
  import opened Text
  import opened Seqs
  import opened SentenceSplit

  /** `any(term in s.lower() for term in flagged)`. */
  predicate Mentions(s: string, flagged: seq<string>) {
    exists k :: 0 <= k < |flagged| && Contains(Lower(s), flagged[k])
  }

  /** The sentences that mention a flagged term, in text order. */
  function Select(sents: seq<string>, flagged: seq<string>): (r: seq<string>)
    ensures |r| <= |sents|
    decreases |sents|
  {
    if |sents| == 0 then []
    else (if Mentions(sents[0], flagged) then [sents[0]] else []) + Select(sents[1..], flagged)
  }

  /** The selection is the order-preserving filter: a subsequence of the
      sentences that keeps every copy of each sentence mentioning a flagged
      term and no copy of any other. */
  lemma {:induction false} SelectIsFilter(sents: seq<string>, flagged: seq<string>)
    ensures IsSubsequence(Select(sents, flagged), sents)
    ensures forall s :: (multiset(Select(sents, flagged))[s] ==
      if Mentions(s, flagged) then multiset(sents)[s] else 0)
    ensures forall s :: s in Select(sents, flagged) <==> s in sents && Mentions(s, flagged)
    ensures Select(sents, flagged) == [] <==> forall s :: s in sents ==> !Mentions(s, flagged)
    decreases |sents|
  {
    if |sents| > 0 {
      SelectIsFilter(sents[1..], flagged);
      var rest := Select(sents[1..], flagged);
      assert sents == [sents[0]] + sents[1..];
      if Mentions(sents[0], flagged) {
        assert Select(sents, flagged) == [sents[0]] + rest;
        assert Select(sents, flagged)[1..] == rest;
      } else {
        assert Select(sents, flagged) == rest;
        SubsequenceSkip(rest, sents);
      }
    }
  }

  /** With nothing flagged no sentence can be selected. */
  lemma {:induction false} SelectNothingFlagged(sents: seq<string>)
    ensures Select(sents, []) == []
    decreases |sents|
  {
    if |sents| > 0 {
      SelectNothingFlagged(sents[1..]);
    }
  }

  /** `summary_sentences` after the fallback: the selection, or the first
      sentence when the selection is empty. */
  function Seed(sents: seq<string>, flagged: seq<string>): (r: seq<string>)
    ensures r == [] <==> sents == []
    ensures IsSubsequence(r, sents)
  {
    var sel := Select(sents, flagged);
    SelectIsFilter(sents, flagged);
    if sel == [] && sents != [] then
      assert IsSubsequence([sents[0]], sents) by {
        assert [sents[0]][1..] == [];
      }
      [sents[0]]
    else
      assert sel != [] ==> sents != [];
      sel
  }

  /** The fallback fires exactly when no sentence mentions a flagged term:
      otherwise the seed is the selection itself, holding only, and all, the
      mentioning sentences. */
  lemma SeedFallback(sents: seq<string>, flagged: seq<string>)
    ensures (exists s :: s in sents && Mentions(s, flagged)) ==>
      && Seed(sents, flagged) == Select(sents, flagged)
      && forall s :: s in Seed(sents, flagged) <==> s in sents && Mentions(s, flagged)
    ensures (forall s :: s in sents ==> !Mentions(s, flagged)) && sents != [] ==>
      Seed(sents, flagged) == [sents[0]]
  {
    SelectIsFilter(sents, flagged);
    var sel := Select(sents, flagged);
    if exists s :: s in sents && Mentions(s, flagged) {
      var s :| s in sents && Mentions(s, flagged);
      assert s in sel;
    }
  }

  /** `'. '.join(sel) + ('.' if sel else '')`. */
  function Render(sel: seq<string>): (r: string)
    ensures r == "" <==> sel == []
    ensures sel != [] ==> r[|r| - 1] == '.'
  {
    if sel == [] then "" else Join(sel, ". ") + "."
  }

  /** A rendered summary is the selected sentences laid end to end, each
      pair separated by `". "`, closed by one more `"."`: it starts with the
      first sentence and ends with the last sentence followed by `"."`. */
  lemma RenderShape(sel: seq<string>)
    requires sel != []
    ensures |Render(sel)| == TotalLength(sel) + 2 * (|sel| - 1) + 1
    ensures |sel[0]| < |Render(sel)| && Render(sel)[..|sel[0]|] == sel[0]
    ensures |sel[|sel| - 1]| < |Render(sel)|
    ensures Render(sel)[|Render(sel)| - 1 - |sel[|sel| - 1]|..] == sel[|sel| - 1] + "."
  {
    var j := Join(sel, ". ");
    JoinLength(sel, ". ");
    JoinStartsWithFirst(sel, ". ");
    JoinEndsWithLast(sel, ". ");
    var last := sel[|sel| - 1];
    assert Render(sel) == j + ".";
    assert (j + ".")[..|sel[0]|] == j[..|sel[0]|];
    assert (j + ".")[|j| - |last|..] == j[|j| - |last|..] + ".";
  }

  /** The punctuation stays attached to each sentence, so a single selected
      sentence ending in `.` is rendered with a doubled period. */
  lemma SingleSentencePeriod(s: string)
    requires |s| > 0 && s[|s| - 1] == '.'
    ensures Render([s]) == s + "."
    ensures Render([s])[|Render([s])| - 2..] == ".."
  {
  }

  /** The summary of `enhanced_risk_analysis`. */
  function Summarize(text: string, flagged: seq<string>): string
  {
    Render(Seed(Sentences(text), flagged))
  }
}
