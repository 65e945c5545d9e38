/** Character and string primitives the pipeline is built from: Python's
    whitespace test, lower-casing, substring containment, `strip`, `join`
    and `split` on a single character. */
module Text {

  /** Python's `str.isspace()`; a `str` pattern's `\s` matches the same set. */
  predicate IsSpace(c: char) {
    var n := c as int;
    || 0x09 <= n <= 0x0D
    || 0x1C <= n <= 0x20
    || n == 0x85 || n == 0xA0 || n == 0x1680
    || 0x2000 <= n <= 0x200A
    || n == 0x2028 || n == 0x2029 || n == 0x202F || n == 0x205F || n == 0x3000
  }

  /** The characters after which the sentence splitter may cut: `[.!?]`. */
  predicate IsTerminal(c: char) {
    c == '.' || c == '!' || c == '?'
  }

  /** Non-empty, with no whitespace at either end: what `strip` leaves of a
      string that is not all whitespace. */
  predicate Trimmed(s: string) {
    |s| > 0 && !IsSpace(s[0]) && !IsSpace(s[|s| - 1])
  }

  predicate AllSpace(s: string) {
    forall k :: 0 <= k < |s| ==> IsSpace(s[k])
  }

  /** Lower-casing of one character, restricted to ASCII letters. */
  function LowerChar(c: char): (r: char)
    ensures 'A' <= c <= 'Z' ==> 'a' <= r <= 'z' && r as int - c as int == 32
    ensures !('A' <= c <= 'Z') ==> r == c
  {
    if 'A' <= c <= 'Z' then (c as int + 32) as char else c
  }

  /** Lower-casing keeps whitespace and sentence-ending characters what they are. */
  lemma LowerCharKeepsClass(c: char)
    ensures IsSpace(LowerChar(c)) <==> IsSpace(c)
    ensures IsTerminal(LowerChar(c)) <==> IsTerminal(c)
  {
  }

  /** `s.lower()`, character by character. */
  function Lower(s: string): (r: string)
    ensures |r| == |s|
    ensures forall k :: 0 <= k < |s| ==> r[k] == LowerChar(s[k])
  {
    seq(|s|, k requires 0 <= k < |s| => LowerChar(s[k]))
  }

  /** Lower-casing commutes with slicing. */
  lemma LowerSlice(s: string, i: nat, j: nat)
    requires i <= j <= |s|
    ensures Lower(s[i..j]) == Lower(s)[i..j]
  {
  }

  predicate OccursAt(hay: string, needle: string, p: nat) {
    p + |needle| <= |hay| && hay[p..p + |needle|] == needle
  }

  /** Python's `needle in hay`. */
  predicate Contains(hay: string, needle: string) {
    exists p: nat :: p <= |hay| && OccursAt(hay, needle, p)
  }

  lemma ContainsWitness(hay: string, needle: string, p: nat)
    requires OccursAt(hay, needle, p)
    ensures Contains(hay, needle)
  {
  }

  /** An occurrence inside a slice is an occurrence in the whole string. */
  lemma OccursInSlice(hay: string, needle: string, i: nat, j: nat, p: nat)
    requires i <= j <= |hay|
    requires OccursAt(hay[i..j], needle, p)
    ensures OccursAt(hay, needle, i + p)
  {
    forall k | 0 <= k < |needle|
      ensures hay[i + p + k] == needle[k]
    {
      assert hay[i..j][p..p + |needle|][k] == needle[k];
    }
  }

  /** An occurrence that lies between `i` and `j` is an occurrence in that slice. */
  lemma OccursWithinSlice(hay: string, needle: string, i: nat, j: nat, p: nat)
    requires i <= p && p + |needle| <= j <= |hay|
    requires OccursAt(hay, needle, p)
    ensures OccursAt(hay[i..j], needle, p - i)
  {
    forall k | 0 <= k < |needle|
      ensures hay[i..j][p - i..p - i + |needle|][k] == needle[k]
    {
      assert hay[p..p + |needle|][k] == needle[k];
    }
  }

  /** Index of the first non-space character at or after `i`, or `|s|`. */
  function SkipSpace(s: string, i: nat): (r: nat)
    requires i <= |s|
    ensures i <= r <= |s|
    ensures r < |s| ==> !IsSpace(s[r])
    decreases |s| - i
  {
    if i < |s| && IsSpace(s[i]) then SkipSpace(s, i + 1) else i
  }

  /** Everything `SkipSpace` steps over is whitespace. */
  lemma {:induction false} SkipSpaceSkipsSpace(s: string, i: nat)
    requires i <= |s|
    ensures forall k :: i <= k < SkipSpace(s, i) ==> IsSpace(s[k])
    decreases |s| - i
  {
    if i < |s| && IsSpace(s[i]) {
      SkipSpaceSkipsSpace(s, i + 1);
    }
  }

  /** The end of `s[..hi]` once its trailing whitespace, down to `lo`, is removed. */
  function TrimEnd(s: string, lo: nat, hi: nat): (r: nat)
    requires lo <= hi <= |s|
    ensures lo <= r <= hi
    ensures r > lo ==> !IsSpace(s[r - 1])
    decreases hi
  {
    if hi > lo && IsSpace(s[hi - 1]) then TrimEnd(s, lo, hi - 1) else hi
  }

  /** Everything `TrimEnd` cuts off is whitespace. */
  lemma {:induction false} TrimEndTrimsSpace(s: string, lo: nat, hi: nat)
    requires lo <= hi <= |s|
    ensures forall k :: TrimEnd(s, lo, hi) <= k < hi ==> IsSpace(s[k])
    decreases hi
  {
    if hi > lo && IsSpace(s[hi - 1]) {
      TrimEndTrimsSpace(s, lo, hi - 1);
    }
  }

  /** The bounds `[lo, hi)` of `s.strip()` inside `s`. */
  function StripBounds(s: string): (b: (nat, nat))
    ensures b.0 <= b.1 <= |s|
  {
    var lo := SkipSpace(s, 0);
    (lo, TrimEnd(s, lo, |s|))
  }

  /** `s.strip()`: `s` without leading and trailing whitespace. */
  function Strip(s: string): (r: string)
    ensures |r| <= |s|
  {
    var b := StripBounds(s);
    s[b.0..b.1]
  }

  /** What `strip` removes is whitespace on either side, and it stops at the
      first and last non-whitespace characters. */
  lemma StripSpec(s: string)
    ensures var b := StripBounds(s);
      && Strip(s) == s[b.0..b.1]
      && (forall k :: 0 <= k < b.0 ==> IsSpace(s[k]))
      && (forall k :: b.1 <= k < |s| ==> IsSpace(s[k]))
      && (b.0 < b.1 ==> !IsSpace(s[b.0]) && !IsSpace(s[b.1 - 1]))
  {
    var lo := SkipSpace(s, 0);
    SkipSpaceSkipsSpace(s, 0);
    TrimEndTrimsSpace(s, lo, |s|);
  }

  /** The stripped string has no whitespace at either end, it is empty
      exactly when `s` is all whitespace, and `s` is it padded with whitespace. */
  lemma StripTrimmed(s: string)
    ensures var r := Strip(s);
      && (r == "" || Trimmed(r))
      && (r == "" <==> AllSpace(s))
  {
    StripSpec(s);
    var b := StripBounds(s);
    if b.0 == b.1 {
      forall k | 0 <= k < |s| ensures IsSpace(s[k]) {
        assert k < b.0 || b.1 <= k;
      }
    }
  }

  /** `sep.join(parts)`. */
  function Join(parts: seq<string>, sep: string): string
  {
    if |parts| == 0 then ""
    else if |parts| == 1 then parts[0]
    else parts[0] + sep + Join(parts[1..], sep)
  }

  function TotalLength(parts: seq<string>): nat
  {
    if |parts| == 0 then 0 else |parts[0]| + TotalLength(parts[1..])
  }

  /** A join is the parts laid end to end with one separator between neighbours. */
  lemma {:induction false} JoinLength(parts: seq<string>, sep: string)
    requires |parts| > 0
    ensures |Join(parts, sep)| == TotalLength(parts) + (|parts| - 1) * |sep|
  {
    if |parts| > 1 {
      JoinLength(parts[1..], sep);
    }
  }

  /** The join begins with the first part. */
  lemma {:induction false} JoinStartsWithFirst(parts: seq<string>, sep: string)
    requires |parts| > 0
    ensures |parts[0]| <= |Join(parts, sep)|
    ensures Join(parts, sep)[..|parts[0]|] == parts[0]
  {
    if |parts| > 1 {
      var j := Join(parts, sep);
      assert j == parts[0] + (sep + Join(parts[1..], sep));
    }
  }

  /** The join ends with the last part. */
  lemma {:induction false} JoinEndsWithLast(parts: seq<string>, sep: string)
    requires |parts| > 0
    ensures |parts[|parts| - 1]| <= |Join(parts, sep)|
    ensures Join(parts, sep)[|Join(parts, sep)| - |parts[|parts| - 1]|..] == parts[|parts| - 1]
  {
    if |parts| > 1 {
      var rest := parts[1..];
      JoinEndsWithLast(rest, sep);
      assert rest[|rest| - 1] == parts[|parts| - 1];
      var j := Join(parts, sep);
      var tail := Join(rest, sep);
      assert j == (parts[0] + sep) + tail;
      var n := |parts[|parts| - 1]|;
      assert j[|j| - n..] == tail[|tail| - n..];
    }
  }

  /** `s.split(c)`: the maximal runs of `s` free of `c`, in order. */
  function SplitOn(s: string, c: char): (r: seq<string>)
    ensures |r| >= 1
    ensures forall i :: 0 <= i < |r| ==> c !in r[i]
    decreases |s|
  {
    if |s| == 0 then [""]
    else
      var rest := SplitOn(s[1..], c);
      if s[0] == c then [""] + rest
      else [[s[0]] + rest[0]] + rest[1..]
  }

  /** Splitting a `c`-free prefix glued to the rest extends the first piece. */
  lemma {:induction false} SplitOnPrefix(a: string, t: string, c: char)
    requires c !in a
    ensures SplitOn(a + t, c) == [a + SplitOn(t, c)[0]] + SplitOn(t, c)[1..]
    decreases |a|
  {
    if |a| > 0 {
      assert (a + t)[1..] == a[1..] + t;
      SplitOnPrefix(a[1..], t, c);
      assert [a[0]] + (a[1..] + SplitOn(t, c)[0]) == a + SplitOn(t, c)[0];
    } else {
      var r := SplitOn(t, c);
      assert a + t == t;
      assert a + r[0] == r[0];
      assert r == [r[0]] + r[1..];
    }
  }

  /** Splitting on `c` undoes joining with `c` when no part contains `c`. */
  lemma {:induction false} SplitOnJoin(parts: seq<string>, c: char)
    requires |parts| > 0
    requires forall i :: 0 <= i < |parts| ==> c !in parts[i]
    ensures SplitOn(Join(parts, [c]), c) == parts
  {
    if |parts| == 1 {
      SplitOnPrefix(parts[0], "", c);
      assert parts[0] + "" == parts[0];
    } else {
      var tail := Join(parts[1..], [c]);
      SplitOnJoin(parts[1..], c);
      assert Join(parts, [c]) == parts[0] + ([c] + tail);
      SplitOnPrefix(parts[0], [c] + tail, c);
      assert ([c] + tail)[1..] == tail;
      assert SplitOn([c] + tail, c) == [""] + parts[1..];
      assert parts[0] + "" == parts[0];
      assert parts == [parts[0]] + parts[1..];
    }
  }
}
