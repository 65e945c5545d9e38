/** UTF-8 decoding with `errors="ignore"`, as CPython's `bytes.decode`
    performs it: well-formed sequences become characters, and each maximal
    ill-formed subpart is dropped without a trace. */
module Utf8 {
  import opened Wrappers

  type byte = b: int | 0 <= b < 256

  predicate IsCont(b: byte) {
    0x80 <= b <= 0xBF
  }

  /** The length of the sequence a lead byte announces, 0 if it cannot lead one. */
  function SeqLength(lead: byte): (n: nat)
    ensures n <= 4
  {
    if lead < 0x80 then 1
    else if 0xC2 <= lead <= 0xDF then 2
    else if 0xE0 <= lead <= 0xEF then 3
    else if 0xF0 <= lead <= 0xF4 then 4
    else 0
  }

  /** Whether `b` may stand at position `i` (1, 2 or 3) after `lead`: the second
      byte's range is narrowed to rule out overlong forms, surrogates and
      values beyond U+10FFFF (table 3-7 of the Unicode standard). */
  predicate FitsAt(lead: byte, i: nat, b: byte) {
    if i == 1 then
      if lead == 0xE0 then 0xA0 <= b <= 0xBF
      else if lead == 0xED then 0x80 <= b <= 0x9F
      else if lead == 0xF0 then 0x90 <= b <= 0xBF
      else if lead == 0xF4 then 0x80 <= b <= 0x8F
      else IsCont(b)
    else IsCont(b)
  }

  /** How far, from position `i` on, the bytes of `bs` keep fitting the
      sequence `bs[0]` leads, stopping at `n`. */
  function Run(bs: seq<byte>, n: nat, i: nat): (r: nat)
    requires 1 <= i <= n && i <= |bs|
    ensures i <= r <= n && r <= |bs|
    decreases n - i
  {
    if i < n && i < |bs| && FitsAt(bs[0], i, bs[i]) then Run(bs, n, i + 1) else i
  }

  /** The scalar value of a well-formed sequence of length `n` at the front of `bs`. */
  function Value(bs: seq<byte>, n: nat): (c: char)
    requires 2 <= n <= 4 && n <= |bs| && SeqLength(bs[0]) == n
    requires forall i :: 1 <= i < n ==> FitsAt(bs[0], i, bs[i])
  {
    assert FitsAt(bs[0], 1, bs[1]);
    var b0: int, b1: int := bs[0], bs[1];
    if n == 2 then
      ((b0 - 0xC0) * 64 + (b1 - 0x80)) as char
    else if n == 3 then
      assert FitsAt(bs[0], 2, bs[2]);
      var b2: int := bs[2];
      ((b0 - 0xE0) * 4096 + (b1 - 0x80) * 64 + (b2 - 0x80)) as char
    else
      assert FitsAt(bs[0], 2, bs[2]) && FitsAt(bs[0], 3, bs[3]);
      var b2: int, b3: int := bs[2], bs[3];
      ((b0 - 0xF0) * 262144 + (b1 - 0x80) * 4096 + (b2 - 0x80) * 64 + (b3 - 0x80)) as char
  }

  /** One decoding step on non-empty input: the character the front of `bs`
      encodes, or nothing, and how many bytes that consumes. */
  function Step(bs: seq<byte>): (r: (Option<char>, nat))
    requires |bs| > 0
    ensures 1 <= r.1 <= |bs|
  {
    var n := SeqLength(bs[0]);
    if n == 0 then (None, 1)
    else if n == 1 then (Some(bs[0] as char), 1)
    else
      var m := Run(bs, n, 1);
      if m == n then
        RunFits(bs, n, 1);
        (Some(Value(bs, n)), n)
      else (None, m)
  }

  /** Every byte a run passes over fits its position. */
  lemma {:induction false} RunFits(bs: seq<byte>, n: nat, i: nat)
    requires 1 <= i <= n && i <= |bs|
    ensures forall j :: i <= j < Run(bs, n, i) ==> FitsAt(bs[0], j, bs[j])
    decreases n - i
  {
    if i < n && i < |bs| && FitsAt(bs[0], i, bs[i]) {
      RunFits(bs, n, i + 1);
    }
  }

  /** What one step contributes to the decoded text. */
  function Emitted(o: Option<char>): string
  {
    if o.Some? then [o.value] else []
  }

  /** `bytes.decode("utf-8", errors="ignore")`. */
  function Decode(bs: seq<byte>): (s: string)
    decreases |bs|
  {
    if |bs| == 0 then "" else Emitted(Step(bs).0) + Decode(bs[Step(bs).1..])
  }

  /** Decoding never produces more characters than there are bytes. */
  lemma {:induction false} DecodeLength(bs: seq<byte>)
    ensures |Decode(bs)| <= |bs|
    decreases |bs|
  {
    if |bs| > 0 {
      DecodeLength(bs[Step(bs).1..]);
    }
  }

  /** ASCII bytes decode one for one to the characters with the same code. */
  lemma {:induction false} DecodeAscii(bs: seq<byte>)
    requires forall i :: 0 <= i < |bs| ==> bs[i] < 0x80
    ensures Decode(bs) == seq(|bs|, i requires 0 <= i < |bs| => bs[i] as char)
    decreases |bs|
  {
    if |bs| > 0 {
      DecodeAscii(bs[1..]);
    }
  }

  /** Input that starts with an ASCII byte decodes to text starting with it. */
  lemma AsciiHead(bs: seq<byte>)
    requires |bs| > 0 && bs[0] < 0x80
    ensures |Decode(bs)| > 0 && Decode(bs)[0] == bs[0] as char
  {
  }

  /** Cutting the input short keeps the bytes a run looks at, up to the cut. */
  lemma {:induction false} RunTruncate(bs: seq<byte>, n: nat, i: nat, k: nat)
    requires 1 <= i <= n && i <= k <= |bs|
    ensures Run(bs[..k], n, i) == (if Run(bs, n, i) <= k then Run(bs, n, i) else k)
    decreases n - i
  {
    if i < n && i < k && FitsAt(bs[0], i, bs[i]) {
      RunTruncate(bs, n, i + 1, k);
    }
  }

  /** A step on truncated input agrees with the full step when that step lies
      within the cut, and otherwise drops everything up to the cut. */
  lemma StepTruncate(bs: seq<byte>, k: nat)
    requires 1 <= k <= |bs|
    ensures Step(bs[..k]) == (if Step(bs).1 <= k then Step(bs) else (None, k))
  {
    var n := SeqLength(bs[0]);
    if n >= 2 {
      RunTruncate(bs, n, 1, k);
      var m := Run(bs, n, 1);
      if m == n && n <= k {
        RunFits(bs, n, 1);
        RunFits(bs[..k], n, 1);
        assert Value(bs[..k], n) == Value(bs, n);
      }
    }
  }

  /** Decoding a prefix of the bytes gives a prefix of the decoded text: a
      sequence cut in two by the end of the prefix is dropped whole. */
  lemma {:induction false} DecodePrefix(bs: seq<byte>, k: nat)
    requires k <= |bs|
    ensures Decode(bs[..k]) <= Decode(bs)
    decreases |bs|
  {
    if k > 0 {
      StepTruncate(bs, k);
      var n := Step(bs).1;
      if n <= k {
        assert bs[..k][n..] == bs[n..][..k - n];
        DecodePrefix(bs[n..], k - n);
      } else {
        assert bs[..k][k..] == [];
      }
    }
  }

  /** The UTF-8 encoding of one character (section 3.9 of the Unicode standard). */
  function EncodeChar(c: char): (bs: seq<byte>)
    ensures 1 <= |bs| <= 4
  {
    var v := c as int;
    if v < 0x80 then [v]
    else if v < 0x800 then [0xC0 + v / 64, 0x80 + v % 64]
    else if v < 0x10000 then [0xE0 + v / 4096, 0x80 + (v / 64) % 64, 0x80 + v % 64]
    else [0xF0 + v / 262144, 0x80 + (v / 4096) % 64, 0x80 + (v / 64) % 64, 0x80 + v % 64]
  }

  /** `s.encode("utf-8")`. */
  function Encode(s: string): seq<byte>
  {
    if |s| == 0 then [] else EncodeChar(s[0]) + Encode(s[1..])
  }

  /** Decoding reads back exactly the character a well-formed encoding holds,
      whatever follows it. */
  lemma StepEncodeChar(c: char, rest: seq<byte>)
    ensures Step(EncodeChar(c) + rest) == (Some(c), |EncodeChar(c)|)
  {
    var v := c as int;
    if v < 0x80 {
    } else if v < 0x800 {
      StepEncode2(c, rest);
    } else if v < 0x10000 {
      StepEncode3(c, rest);
    } else {
      StepEncode4(c, rest);
    }
  }

  lemma StepEncode2(c: char, rest: seq<byte>)
    requires 0x80 <= c as int < 0x800
    ensures Step(EncodeChar(c) + rest) == (Some(c), 2)
  {
    var v := c as int;
    var bs := EncodeChar(c) + rest;
    assert bs[0] == 0xC0 + v / 64 && bs[1] == 0x80 + v % 64;
    assert FitsAt(bs[0], 1, bs[1]);
    RunAll(bs, 2, 1);
    assert v == (v / 64) * 64 + v % 64;
  }

  lemma StepEncode3(c: char, rest: seq<byte>)
    requires 0x800 <= c as int < 0x10000
    ensures Step(EncodeChar(c) + rest) == (Some(c), 3)
  {
    var v := c as int;
    var bs := EncodeChar(c) + rest;
    assert bs[0] == 0xE0 + v / 4096 && bs[1] == 0x80 + (v / 64) % 64 && bs[2] == 0x80 + v % 64;
    assert FitsAt(bs[0], 1, bs[1]) && FitsAt(bs[0], 2, bs[2]);
    RunAll(bs, 3, 1);
    assert v / 64 == (v / 4096) * 64 + (v / 64) % 64;
    assert v == (v / 64) * 64 + v % 64;
  }

  lemma StepEncode4(c: char, rest: seq<byte>)
    requires 0x10000 <= c as int
    ensures Step(EncodeChar(c) + rest) == (Some(c), 4)
  {
    var v := c as int;
    var bs := EncodeChar(c) + rest;
    assert bs[0] == 0xF0 + v / 262144 && bs[1] == 0x80 + (v / 4096) % 64;
    assert bs[2] == 0x80 + (v / 64) % 64 && bs[3] == 0x80 + v % 64;
    assert FitsAt(bs[0], 1, bs[1]) && FitsAt(bs[0], 2, bs[2]) && FitsAt(bs[0], 3, bs[3]);
    RunAll(bs, 4, 1);
    assert v / 4096 == (v / 262144) * 64 + (v / 4096) % 64;
    assert v / 64 == (v / 4096) * 64 + (v / 64) % 64;
    assert v == (v / 64) * 64 + v % 64;
  }

  /** A run over bytes that all fit reaches its bound. */
  lemma {:induction false} RunAll(bs: seq<byte>, n: nat, i: nat)
    requires 1 <= i <= n <= |bs|
    requires forall j :: i <= j < n ==> FitsAt(bs[0], j, bs[j])
    ensures Run(bs, n, i) == n
    decreases n - i
  {
    if i < n {
      RunAll(bs, n, i + 1);
    }
  }

  /** Decoding undoes encoding: every string survives the round trip. */
  lemma {:induction false} DecodeEncode(s: string)
    ensures Decode(Encode(s)) == s
    decreases |s|
  {
    if |s| > 0 {
      var e := EncodeChar(s[0]);
      var rest := Encode(s[1..]);
      assert Decode(e + rest) == [s[0]] + Decode(rest) by {
        StepEncodeChar(s[0], rest);
        assert (e + rest)[|e|..] == rest;
      }
      DecodeEncode(s[1..]);
      assert s == [s[0]] + s[1..];
    }
  }

  /** A byte that cannot start a sequence vanishes without a trace: decoding
      goes on with the byte after it. */
  lemma InvalidLeadVanishes(b: byte, rest: seq<byte>)
    requires SeqLength(b) == 0
    ensures Decode([b] + rest) == Decode(rest)
  {
    assert ([b] + rest)[1..] == rest;
  }

  /** So the non-empty input `[0xFF]` decodes to the empty string. */
  lemma InvalidByteVanishes()
    ensures Decode([0xFF]) == ""
  {
    InvalidLeadVanishes(0xFF, []);
    assert [0xFF] + [] == [0xFF];
  }

  /** Well-formed text in front of arbitrary bytes decodes to itself, and
      decoding then carries on with those bytes as if they stood alone. */
  lemma {:induction false} DecodeEncodeAppend(s: string, rest: seq<byte>)
    ensures Decode(Encode(s) + rest) == s + Decode(rest)
    decreases |s|
  {
    if |s| > 0 {
      var e := EncodeChar(s[0]);
      var tail := Encode(s[1..]) + rest;
      assert Encode(s) + rest == e + tail;
      assert Decode(e + tail) == [s[0]] + Decode(tail) by {
        StepEncodeChar(s[0], tail);
        assert (e + tail)[|e|..] == tail;
      }
      DecodeEncodeAppend(s[1..], rest);
      assert s == [s[0]] + s[1..];
    } else {
      assert Encode(s) + rest == rest;
    }
  }
}
