/** Sentence segmentation of `enhanced_risk_analysis` (backend/main.py):
    `re.split(r"(?<=[.!?])\s+", text)`, then `strip` on every piece and
    empty pieces dropped. */
module SentenceSplit {
  import opened Text
  import opened Seqs

  /** The regular expression can match at `i`: a whitespace character right
      after `.`, `!` or `?`. */
  predicate BoundaryAt(t: string, i: int) {
    0 < i < |t| && IsTerminal(t[i - 1]) && IsSpace(t[i])
  }

  /** The leftmost match position at or after `i`, or `|t|` if none. */
  function NextBoundary(t: string, i: nat): (r: nat)
    requires i <= |t|
    ensures i <= r <= |t|
    ensures r < |t| ==> BoundaryAt(t, r)
    decreases |t| - i
  {
    if i == |t| || BoundaryAt(t, i) then i else NextBoundary(t, i + 1)
  }

  /** `NextBoundary` finds the leftmost match. */
  lemma {:induction false} NextBoundaryIsFirst(t: string, i: nat)
    requires i <= |t|
    ensures forall k :: i <= k < NextBoundary(t, i) ==> !BoundaryAt(t, k)
    decreases |t| - i
  {
    if !(i == |t| || BoundaryAt(t, i)) {
      NextBoundaryIsFirst(t, i + 1);
    }
  }

  /** The pieces `re.split` returns. A match starts at a boundary and, `\s+`
      being greedy, runs to the end of the whitespace. */
  function Split(t: string): (r: seq<string>)
    ensures |r| >= 1
    decreases |t|
  {
    var i := NextBoundary(t, 0);
    if i == |t| then [t]
    else [t[..i]] + Split(t[SkipSpace(t, i)..])
  }

  /** The whitespace runs `re.split` removes, in order. */
  function Gaps(t: string): seq<string>
    decreases |t|
  {
    var i := NextBoundary(t, 0);
    if i == |t| then []
    else
      var j := SkipSpace(t, i);
      [t[i..j]] + Gaps(t[j..])
  }

  /** `ps[0] + gs[0] + ps[1] + ... + ps[n]`. */
  function Interleave(ps: seq<string>, gs: seq<string>): string
    requires |ps| == |gs| + 1
    decreases |gs|
  {
    if |gs| == 0 then ps[0] else ps[0] + gs[0] + Interleave(ps[1..], gs[1..])
  }

  /** One step of the split: the first piece, the first removed run and the rest. */
  lemma SplitStep(t: string)
    ensures var i := NextBoundary(t, 0);
      i < |t| ==>
        var j := SkipSpace(t, i);
        && i < j
        && Split(t) == [t[..i]] + Split(t[j..]) && Split(t)[1..] == Split(t[j..])
        && Gaps(t) == [t[i..j]] + Gaps(t[j..]) && Gaps(t)[1..] == Gaps(t[j..])
    ensures NextBoundary(t, 0) == |t| ==> Split(t) == [t] && Gaps(t) == []
  {
    var i := NextBoundary(t, 0);
    if i < |t| {
      var j := SkipSpace(t, i);
      var ps := Split(t[j..]);
      var gs := Gaps(t[j..]);
      assert Split(t) == [t[..i]] + ps;
      assert ([t[..i]] + ps)[1..] == ps;
      assert Gaps(t) == [t[i..j]] + gs;
      assert ([t[i..j]] + gs)[1..] == gs;
    }
  }

  /** The split loses nothing but the matched whitespace. */
  lemma {:induction false} SplitReconstructs(t: string)
    ensures |Gaps(t)| + 1 == |Split(t)|
    ensures Interleave(Split(t), Gaps(t)) == t
    decreases |t|
  {
    SplitStep(t);
    var i := NextBoundary(t, 0);
    if i < |t| {
      var j := SkipSpace(t, i);
      SplitReconstructs(t[j..]);
      var ps, gs := Split(t), Gaps(t);
      assert Interleave(ps, gs) == ps[0] + gs[0] + Interleave(ps[1..], gs[1..]);
      SliceThree(t, i, j);
    }
  }

  /** A string is its three consecutive slices laid end to end. */
  lemma SliceThree(t: string, i: nat, j: nat)
    requires i <= j <= |t|
    ensures t[..i] + t[i..j] + t[j..] == t
  {
  }

  /** Every removed run is non-empty whitespace. */
  lemma {:induction false} SplitGapsAreSpace(t: string)
    ensures forall k :: 0 <= k < |Gaps(t)| ==> |Gaps(t)[k]| > 0 && AllSpace(Gaps(t)[k])
    decreases |t|
  {
    SplitStep(t);
    var i := NextBoundary(t, 0);
    if i < |t| {
      var j := SkipSpace(t, i);
      var rest := t[j..];
      SplitGapsAreSpace(rest);
      SkipSpaceSkipsSpace(t, i);
      var gs := Gaps(t);
      assert gs[0] == t[i..j];
      forall k | 0 < k < |gs| ensures |gs[k]| > 0 && AllSpace(gs[k]) {
        assert gs[k] == Gaps(rest)[k - 1];
      }
    }
  }

  /** Every piece followed by a removed run ends with `.`, `!` or `?`. */
  lemma {:induction false} SplitPiecesEnd(t: string)
    ensures |Gaps(t)| + 1 == |Split(t)|
    ensures forall k :: 0 <= k < |Gaps(t)| ==>
      |Split(t)[k]| > 0 && IsTerminal(Split(t)[k][|Split(t)[k]| - 1])
    decreases |t|
  {
    SplitStep(t);
    var i := NextBoundary(t, 0);
    if i < |t| {
      var rest := t[SkipSpace(t, i)..];
      SplitPiecesEnd(rest);
      var ps := Split(t);
      forall k | 0 < k < |Gaps(t)|
        ensures |ps[k]| > 0 && IsTerminal(ps[k][|ps[k]| - 1])
      {
        assert ps[k] == Split(rest)[k - 1];
      }
    }
  }

  /** Each piece after a removed run starts past all of that run's whitespace. */
  lemma {:induction false} SplitPiecesStart(t: string)
    ensures forall k :: 0 < k < |Split(t)| && |Split(t)[k]| > 0 ==> !IsSpace(Split(t)[k][0])
    decreases |t|
  {
    SplitStep(t);
    var i := NextBoundary(t, 0);
    if i < |t| {
      var j := SkipSpace(t, i);
      var rest := t[j..];
      SplitPiecesStart(rest);
      SplitStep(rest);
      var ps := Split(t);
      forall k | 0 < k < |ps| && |ps[k]| > 0 ensures !IsSpace(ps[k][0]) {
        assert ps[k] == Split(rest)[k - 1];
        if k == 1 {
          assert ps[1][0] == rest[0];
        }
      }
    }
  }

  /** No piece holds another match of the regular expression. */
  lemma {:induction false} SplitPiecesUnbroken(t: string)
    ensures forall k, b :: 0 <= k < |Split(t)| ==> !BoundaryAt(Split(t)[k], b)
    decreases |t|
  {
    SplitStep(t);
    NextBoundaryIsFirst(t, 0);
    var i := NextBoundary(t, 0);
    if i < |t| {
      var rest := t[SkipSpace(t, i)..];
      SplitPiecesUnbroken(rest);
      var ps := Split(t);
      forall k, b | 0 <= k < |ps| ensures !BoundaryAt(ps[k], b) {
        if k == 0 {
          if BoundaryAt(ps[0], b) {
            assert BoundaryAt(t, b);
          }
        } else {
          assert ps[k] == Split(rest)[k - 1];
        }
      }
    }
  }

  /** Strip every piece and keep the non-empty results. */
  function Clean(ps: seq<string>): (r: seq<string>)
    ensures |r| <= |ps|
    decreases |ps|
  {
    if |ps| == 0 then []
    else
      var s := Strip(ps[0]);
      (if s == "" then [] else [s]) + Clean(ps[1..])
  }

  lemma CleanCons(p: string, rest: seq<string>)
    ensures Clean([p] + rest) == Clean([p]) + Clean(rest)
    ensures Clean([p]) == if Strip(p) == "" then [] else [Strip(p)]
  {
    assert ([p] + rest)[1..] == rest;
    assert [p][1..] == [];
  }

  /** Every cleaned piece is non-empty, with no whitespace at either end. */
  lemma {:induction false} CleanTrimmed(ps: seq<string>)
    ensures forall k :: 0 <= k < |Clean(ps)| ==> Trimmed(Clean(ps)[k])
    decreases |ps|
  {
    if |ps| > 0 {
      CleanTrimmed(ps[1..]);
      StripTrimmed(ps[0]);
      assert ps == [ps[0]] + ps[1..];
      CleanCons(ps[0], ps[1..]);
    }
  }

  function StripEach(ps: seq<string>): (r: seq<string>)
    ensures |r| == |ps|
    ensures forall k :: 0 <= k < |ps| ==> r[k] == Strip(ps[k])
  {
    seq(|ps|, k requires 0 <= k < |ps| => Strip(ps[k]))
  }

  lemma StripEachTail(ps: seq<string>)
    requires |ps| > 0
    ensures StripEach(ps)[1..] == StripEach(ps[1..])
  {
    forall k | 0 <= k < |ps| - 1 ensures StripEach(ps)[1..][k] == StripEach(ps[1..])[k] {
      assert ps[1..][k] == ps[k + 1];
    }
  }

  /** Cleaning keeps the stripped pieces in their order. */
  lemma {:induction false} CleanKeepsOrder(ps: seq<string>)
    ensures IsSubsequence(Clean(ps), StripEach(ps))
    decreases |ps|
  {
    if |ps| > 0 {
      CleanKeepsOrder(ps[1..]);
      var rest := Clean(ps[1..]);
      var all := StripEach(ps);
      StripEachTail(ps);
      HeadTail(ps);
      CleanCons(ps[0], ps[1..]);
      if Strip(ps[0]) == "" {
        assert Clean(ps) == rest;
        SubsequenceSkip(rest, all);
      } else {
        assert Clean(ps) == [Strip(ps[0])] + rest;
        HeadTail(all);
        SubsequenceCons(Strip(ps[0]), rest, all[1..]);
      }
    }
  }

  /** Cleaning drops only the pieces that strip to nothing. */
  lemma {:induction false} CleanKeepsNonEmpty(ps: seq<string>)
    ensures forall k :: 0 <= k < |ps| && Strip(ps[k]) != "" ==> Strip(ps[k]) in Clean(ps)
    decreases |ps|
  {
    if |ps| > 0 {
      CleanKeepsNonEmpty(ps[1..]);
      assert ps == [ps[0]] + ps[1..];
      CleanCons(ps[0], ps[1..]);
      forall k | 0 < k < |ps| && Strip(ps[k]) != "" ensures Strip(ps[k]) in Clean(ps) {
        assert ps[k] == ps[1..][k - 1];
      }
    }
  }

  /** Cleaning keeps every copy of each non-empty stripped piece, and only those. */
  lemma {:induction false} CleanCounts(ps: seq<string>)
    ensures forall s :: multiset(Clean(ps))[s] == if s == "" then 0 else multiset(StripEach(ps))[s]
    decreases |ps|
  {
    if |ps| > 0 {
      CleanCounts(ps[1..]);
      HeadTail(ps);
      CleanCons(ps[0], ps[1..]);
      StripEachTail(ps);
      HeadTail(StripEach(ps));
    }
  }

  /** `[s.strip() for s in re.split(r"(?<=[.!?])\s+", t) if s.strip()]`. */
  function Sentences(t: string): seq<string>
  {
    Clean(Split(t))
  }

  /** Every sentence is non-empty and trimmed, the sentences keep the order
      of the pieces of the split, and every piece with some non-whitespace
      yields a sentence of its own: each non-empty stripped piece occurs
      among the sentences exactly as often as among the stripped pieces. */
  lemma SentencesFromPieces(t: string)
    ensures forall k :: 0 <= k < |Sentences(t)| ==> Trimmed(Sentences(t)[k])
    ensures IsSubsequence(Sentences(t), StripEach(Split(t)))
    ensures forall s :: (multiset(Sentences(t))[s] ==
      if s == "" then 0 else multiset(StripEach(Split(t)))[s])
    ensures forall k :: 0 <= k < |Split(t)| && Strip(Split(t)[k]) != "" ==>
      Strip(Split(t)[k]) in Sentences(t)
  {
    CleanTrimmed(Split(t));
    CleanKeepsOrder(Split(t));
    CleanKeepsNonEmpty(Split(t));
    CleanCounts(Split(t));
  }

  /** An occurrence of `w` in `lower(piece)` also lies inside the piece's
      stripped form, provided `w` begins and ends with non-whitespace. */
  lemma OccurrenceSurvivesStrip(piece: string, w: string, p: nat)
    requires |w| > 0 && !IsSpace(w[0]) && !IsSpace(w[|w| - 1])
    requires OccursAt(Lower(piece), w, p)
    ensures Strip(piece) != ""
    ensures StripBounds(piece).0 <= p && OccursAt(Lower(Strip(piece)), w, p - StripBounds(piece).0)
  {
    var b := StripBounds(piece);
    var lp := Lower(piece);
    StripSpec(piece);
    OccurrenceChar(piece, w, p, 0);
    OccurrenceChar(piece, w, p, |w| - 1);
    assert b.0 <= p;
    assert p + |w| <= b.1;
    LowerSlice(piece, b.0, b.1);
    OccursWithinSlice(lp, w, b.0, b.1, p);
  }

  /** Reading one character of an occurrence in `lower(t)`. */
  lemma OccurrenceChar(t: string, w: string, p: nat, k: nat)
    requires OccursAt(Lower(t), w, p)
    requires k < |w|
    ensures w[k] == LowerChar(t[p + k])
    ensures IsSpace(w[k]) <==> IsSpace(t[p + k])
    ensures IsTerminal(w[k]) <==> IsTerminal(t[p + k])
  {
    LowerCharKeepsClass(t[p + k]);
    assert Lower(t)[p..p + |w|][k] == Lower(t)[p + k];
  }

  /** An occurrence that covers a split point carries the `[.!?]` and the
      whitespace of that point, one character apart. */
  lemma StraddleCarriesBoundary(t: string, w: string, p: nat, i: nat)
    requires OccursAt(Lower(t), w, p)
    requires p < i < p + |w| && BoundaryAt(t, i)
    ensures BoundaryAt(w, i - p)
  {
    OccurrenceChar(t, w, p, i - p - 1);
    OccurrenceChar(t, w, p, i - p);
  }

  /** An occurrence that starts in the whitespace a split removes starts
      with whitespace. */
  lemma StartInGapIsSpace(t: string, w: string, p: nat, i: nat)
    requires |w| > 0 && OccursAt(Lower(t), w, p)
    requires i <= p < SkipSpace(t, i)
    ensures IsSpace(w[0])
  {
    OccurrenceChar(t, w, p, 0);
    SkipSpaceSkipsSpace(t, i);
  }

  /** An occurrence of such a `w` cannot straddle a split point: it would
      either start in the removed whitespace or cover the `[.!?]` before it
      together with the whitespace after it. */
  lemma NoStraddle(t: string, w: string, p: nat, i: nat)
    requires |w| > 0 && !IsSpace(w[0])
    requires forall k :: !BoundaryAt(w, k)
    requires OccursAt(Lower(t), w, p)
    requires i < |t| && BoundaryAt(t, i)
    ensures p + |w| <= i || p >= SkipSpace(t, i)
  {
    if p < i < p + |w| {
      StraddleCarriesBoundary(t, w, p, i);
      assert false;
    } else if i <= p < SkipSpace(t, i) {
      StartInGapIsSpace(t, w, p, i);
      assert false;
    }
  }

  /** An occurrence inside `lower(t[lo..hi])` is one inside that slice's
      own lower-case form. */
  lemma OccurrenceInPiece(t: string, w: string, p: nat, lo: nat, hi: nat)
    requires lo <= p && p + |w| <= hi <= |t|
    requires OccursAt(Lower(t), w, p)
    ensures OccursAt(Lower(t[lo..hi]), w, p - lo)
  {
    LowerSlice(t, lo, hi);
    OccursWithinSlice(Lower(t), w, lo, hi, p);
  }

  /** The sentences of a text: those of its first piece, then those of
      the text after the first split point. */
  lemma SentencesStep(t: string)
    ensures NextBoundary(t, 0) == |t| ==> Sentences(t) == Clean([t])
    ensures NextBoundary(t, 0) < |t| ==>
      Sentences(t) == Clean([t[..NextBoundary(t, 0)]]) + Sentences(t[SkipSpace(t, NextBoundary(t, 0))..])
  {
    SplitStep(t);
    var i := NextBoundary(t, 0);
    if i < |t| {
      CleanCons(t[..i], Split(t[SkipSpace(t, i)..]));
    }
  }

  /** An occurrence in a single piece survives into that piece's sentence. */
  lemma OccurrenceInPieceSentence(piece: string, w: string, p: nat) returns (q: nat)
    requires |w| > 0 && !IsSpace(w[0]) && !IsSpace(w[|w| - 1])
    requires OccursAt(Lower(piece), w, p)
    ensures Clean([piece]) == [Strip(piece)]
    ensures OccursAt(Lower(Strip(piece)), w, q)
  {
    OccurrenceSurvivesStrip(piece, w, p);
    CleanCons(piece, []);
    q := p - StripBounds(piece).0;
  }

  /** The sentences of the first piece and those of the text after the
      first split point are sentences of the whole text. */
  lemma SentencesOfParts(t: string)
    ensures NextBoundary(t, 0) == |t| ==> Clean([t]) == Sentences(t)
    ensures NextBoundary(t, 0) < |t| ==>
      && (forall s :: s in Clean([t[..NextBoundary(t, 0)]]) ==> s in Sentences(t))
      && (forall s :: s in Sentences(t[SkipSpace(t, NextBoundary(t, 0))..]) ==> s in Sentences(t))
  {
    SentencesStep(t);
  }

  /** An occurrence before the first split point lies in the first sentence. */
  lemma OccurrenceInFirstPiece(t: string, w: string, p: nat, i: nat) returns (s: string, q: nat)
    requires |w| > 0 && !IsSpace(w[0]) && !IsSpace(w[|w| - 1])
    requires OccursAt(Lower(t), w, p)
    requires p + |w| <= i <= |t|
    ensures s in Clean([t[..i]]) && OccursAt(Lower(s), w, q)
  {
    OccurrenceInPiece(t, w, p, 0, i);
    assert t[0..i] == t[..i];
    q := OccurrenceInPieceSentence(t[..i], w, p);
    s := Strip(t[..i]);
  }

  /** The sentence, and the position in it, where an occurrence of such a
      `w` in `lower(t)` ends up. */
  lemma {:induction false} SentenceOfOccurrence(t: string, w: string, p: nat) returns (s: string, q: nat)
    requires |w| > 0 && !IsSpace(w[0]) && !IsSpace(w[|w| - 1])
    requires forall k :: !BoundaryAt(w, k)
    requires OccursAt(Lower(t), w, p)
    ensures s in Sentences(t) && OccursAt(Lower(s), w, q)
    decreases |t|
  {
    SentencesOfParts(t);
    var i := NextBoundary(t, 0);
    if i == |t| {
      s, q := OccurrenceInFirstPiece(t, w, p, i);
      assert t[..i] == t;
    } else {
      NoStraddle(t, w, p, i);
      if p + |w| <= i {
        s, q := OccurrenceInFirstPiece(t, w, p, i);
      } else {
        var j := SkipSpace(t, i);
        OccurrenceInPiece(t, w, p, j, |t|);
        assert t[j..|t|] == t[j..];
        s, q := SentenceOfOccurrence(t[j..], w, p - j);
      }
    }
  }

  /** A string that starts and ends with non-whitespace and holds no
      whitespace-after-`[.!?]` cannot straddle a split point, so wherever it
      occurs in `lower(t)` it occurs inside a single sentence. */
  lemma OccurrenceInSomeSentence(t: string, w: string, p: nat)
    requires |w| > 0 && !IsSpace(w[0]) && !IsSpace(w[|w| - 1])
    requires forall k :: !BoundaryAt(w, k)
    requires OccursAt(Lower(t), w, p)
    ensures exists s :: s in Sentences(t) && Contains(Lower(s), w)
  {
    var s, q := SentenceOfOccurrence(t, w, p);
    ContainsWitness(Lower(s), w, q);
  }

  /** A text has no sentences exactly when it is all whitespace. */
  lemma {:induction false} SentencesEmptyIff(t: string)
    ensures Sentences(t) == [] <==> AllSpace(t)
    decreases |t|
  {
    if !AllSpace(t) {
      var p :| 0 <= p < |t| && !IsSpace(t[p]);
      var w := [Lower(t)[p]];
      assert Lower(t)[p..p + 1] == w;
      OccurrenceInSomeSentence(t, w, p);
    } else {
      // In all-whitespace text no `.`, `!` or `?` precedes a space.
      SplitStep(t);
      if NextBoundary(t, 0) < |t| {
        assert false;
      }
      CleanCons(t, []);
      StripTrimmed(t);
    }
  }
}
