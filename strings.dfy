/**
 * The string algorithms of the WHATWG Infra Standard, section 4.7 "Strings", as
 * src/strings.ts implements them.
 *
 * Each operation of the source is a loop that builds its result. It is modelled as a
 * method with that loop, and the method is proved against a recursive function that
 * specifies it. The properties are proved as lemmas about those functions.
 *
 * The source's `for...of` loops step by code point, but its index loops (`value[i]`,
 * `value.length`) step by UTF-16 code unit. Every character those index loops compare
 * (TAB, LF, FF, CR, SPACE) is a single BMP code unit that is not a surrogate, and the
 * loops copy every other unit through in order. A surrogate pair therefore comes out
 * of them unchanged, and one code-point sequence serves for both kinds of loop.
 */
module Strings {
  import opened CodePoints

  const REPLACEMENT_CHARACTER: CodePoint := 0xFFFD

  /** `isAsciiWhitespace(value[i])`: an index outside the string reads undefined, which is not whitespace. */
  predicate IsWhitespaceAt(s: Text, i: int)
  {
    0 <= i < |s| && IsAsciiWhitespace([s[i]])
  }

  /** Some code point of `s` is not ASCII whitespace. */
  predicate HasNonWhitespace(s: Text)
  {
    exists k :: 0 <= k < |s| && !IsWhitespaceAt(s, k)
  }

  /** How many times `c` occurs in `s`. */
  function Occurrences(s: Text, c: CodePoint): nat
  {
    if s == [] then 0 else (if s[0] == c then 1 else 0) + Occurrences(s[1..], c)
  }

  lemma {:induction false} OccurrencesZero(s: Text, c: CodePoint)
    ensures Occurrences(s, c) == 0 <==> c !in s
  {
    if s != [] {
      OccurrencesZero(s[1..], c);
      assert s == [s[0]] + s[1..];
    }
  }

  // ===========================================================================
  // convertStringToScalarValue
  // ===========================================================================

  function ScalarValueOf(c: CodePoint): CodePoint
  {
    if IsSurrogate([c]) then REPLACEMENT_CHARACTER else c
  }

  /** Specification: every surrogate replaced by U+FFFD. */
  function ScalarValueString(s: Text): (r: Text)
    ensures |r| == |s|
  {
    if s == [] then [] else [ScalarValueOf(s[0])] + ScalarValueString(s[1..])
  }

  lemma {:induction false} ScalarValueStringAt(s: Text, i: int)
    requires 0 <= i < |s|
    ensures ScalarValueString(s)[i] ==
      if SURROGATE_MIN <= s[i] <= SURROGATE_MAX then REPLACEMENT_CHARACTER else s[i]
  {
    if i > 0 {
      ScalarValueStringAt(s[1..], i - 1);
    }
  }

  /** The result holds no surrogate, so each of its code points is a scalar value. */
  lemma ScalarValueStringHasNoSurrogate(s: Text)
    ensures forall i :: 0 <= i < |ScalarValueString(s)| ==> IsScalarValue([ScalarValueString(s)[i]])
  {
    forall i | 0 <= i < |ScalarValueString(s)|
      ensures IsScalarValue([ScalarValueString(s)[i]])
    {
      ScalarValueStringAt(s, i);
    }
  }

  lemma ScalarValueStringIdempotent(s: Text)
    ensures ScalarValueString(ScalarValueString(s)) == ScalarValueString(s)
  {
    var r := ScalarValueString(s);
    forall i | 0 <= i < |r|
      ensures ScalarValueString(r)[i] == r[i]
    {
      ScalarValueStringAt(r, i);
      ScalarValueStringAt(s, i);
    }
  }

  /** Moving one code point from the front of the rest onto the end of the accumulator. */
  lemma AppendOne(a: Text, x: CodePoint, b: Text)
    ensures (a + [x]) + b == a + ([x] + b)
  {
  }

  /** One step of the loop: the code point at `i` followed by the rest. */
  lemma ScalarValueStringStep(s: Text, i: int)
    requires 0 <= i < |s|
    ensures ScalarValueString(s[i..]) == [ScalarValueOf(s[i])] + ScalarValueString(s[i + 1..])
  {
    assert s[i..][1..] == s[i + 1..];
  }

  method ConvertStringToScalarValue(value: Text) returns (r: Text)
    ensures r == ScalarValueString(value)
    ensures |r| == |value|
    ensures forall i :: 0 <= i < |r| ==>
      r[i] == if SURROGATE_MIN <= value[i] <= SURROGATE_MAX then REPLACEMENT_CHARACTER else value[i]
  {
    r := [];
    for i := 0 to |value|
      invariant r + ScalarValueString(value[i..]) == ScalarValueString(value)
    {
      var codePoint := value[i];
      ScalarValueStringStep(value, i);
      AppendOne(r, ScalarValueOf(codePoint), ScalarValueString(value[i + 1..]));
      if IsSurrogate([codePoint]) {
        r := r + [REPLACEMENT_CHARACTER];
      } else {
        r := r + [codePoint];
      }
    }
    forall i | 0 <= i < |r|
      ensures r[i] == if SURROGATE_MIN <= value[i] <= SURROGATE_MAX then REPLACEMENT_CHARACTER else value[i]
    {
      ScalarValueStringAt(value, i);
    }
  }

  // ===========================================================================
  // stripNewlines
  // ===========================================================================

  /** Specification: `s` with every LF and CR left out, the rest in order. */
  function WithoutNewlines(s: Text): Text
  {
    if s == [] then []
    else (if s[0] != LF && s[0] != CR then [s[0]] else []) + WithoutNewlines(s[1..])
  }

  lemma {:induction false} WithoutNewlinesHasNone(s: Text)
    ensures LF !in WithoutNewlines(s) && CR !in WithoutNewlines(s)
  {
    if s != [] {
      WithoutNewlinesHasNone(s[1..]);
    }
  }

  /** Every other code point keeps its number of occurrences. */
  lemma {:induction false} WithoutNewlinesKeepsOthers(s: Text, c: CodePoint)
    requires c != LF && c != CR
    ensures Occurrences(WithoutNewlines(s), c) == Occurrences(s, c)
  {
    if s != [] {
      WithoutNewlinesKeepsOthers(s[1..], c);
      if s[0] != LF && s[0] != CR {
        assert ([s[0]] + WithoutNewlines(s[1..]))[1..] == WithoutNewlines(s[1..]);
      } else {
        assert WithoutNewlines(s) == WithoutNewlines(s[1..]);
      }
    }
  }

  /** How a concatenation splits into its first code point and the rest. */
  lemma SplitAppend(a: Text, b: Text)
    ensures a == [] ==> a + b == b
    ensures a != [] ==> (a + b)[0] == a[0] && (a + b)[1..] == a[1..] + b
  {
  }

  /** Removing newlines distributes over concatenation, so the order is kept. */
  lemma {:induction false} WithoutNewlinesAppend(a: Text, b: Text)
    ensures WithoutNewlines(a + b) == WithoutNewlines(a) + WithoutNewlines(b)
  {
    SplitAppend(a, b);
    if a != [] {
      WithoutNewlinesAppend(a[1..], b);
    }
  }

  /** A string is left unchanged exactly when it holds no newline. */
  lemma {:induction false} WithoutNewlinesFixedPoint(s: Text)
    ensures WithoutNewlines(s) == s <==> LF !in s && CR !in s
  {
    WithoutNewlinesHasNone(s);
    if LF !in s && CR !in s && s != [] {
      assert s == [s[0]] + s[1..];
      WithoutNewlinesFixedPoint(s[1..]);
    }
  }

  lemma WithoutNewlinesIdempotent(s: Text)
    ensures WithoutNewlines(WithoutNewlines(s)) == WithoutNewlines(s)
  {
    WithoutNewlinesHasNone(s);
    WithoutNewlinesFixedPoint(WithoutNewlines(s));
  }

  method StripNewlines(value: Text) returns (r: Text)
    ensures r == WithoutNewlines(value)
    ensures LF !in r && CR !in r
  {
    r := [];
    for i := 0 to |value|
      invariant r + WithoutNewlines(value[i..]) == WithoutNewlines(value)
    {
      var codePoint := value[i];
      if codePoint != LF && codePoint != CR {
        r := r + [codePoint];
      }
    }
    WithoutNewlinesHasNone(value);
  }

  // ===========================================================================
  // normalizeNewlines
  // ===========================================================================

  /** The CR at `i` is immediately followed by an LF. */
  predicate IsCrBeforeLf(s: Text, i: int)
  {
    0 <= i && i + 1 < |s| && s[i] == CR && s[i + 1] == LF
  }

  /** Specification of the loop: a left-to-right scan turning each CR LF into one LF. */
  function MergeCrLf(s: Text): Text
    decreases |s|
  {
    if s == [] then []
    else if IsCrBeforeLf(s, 0) then [LF] + MergeCrLf(s[2..])
    else [s[0]] + MergeCrLf(s[1..])
  }

  /** Reference definition: drop each CR that an LF follows, keep everything else. */
  function DropCrBeforeLf(s: Text): Text
  {
    if s == [] then [] else (if IsCrBeforeLf(s, 0) then [] else [s[0]]) + DropCrBeforeLf(s[1..])
  }

  /** Since CR differs from LF, the pairs never overlap, and the scan drops exactly those CRs. */
  lemma {:induction false} MergeCrLfDropsCrBeforeLf(s: Text)
    ensures MergeCrLf(s) == DropCrBeforeLf(s)
    decreases |s|
  {
    if s == [] {
    } else if IsCrBeforeLf(s, 0) {
      MergeCrLfDropsCrBeforeLf(s[2..]);
      assert s[1..][1..] == s[2..];
      assert !IsCrBeforeLf(s[1..], 0);
    } else {
      MergeCrLfDropsCrBeforeLf(s[1..]);
    }
  }

  /** The scan removes only CRs: every other code point keeps its number of occurrences. */
  lemma {:induction false} MergeCrLfKeepsOthers(s: Text, c: CodePoint)
    requires c != CR
    ensures Occurrences(MergeCrLf(s), c) == Occurrences(s, c)
    decreases |s|
  {
    if s == [] {
    } else if IsCrBeforeLf(s, 0) {
      MergeCrLfKeepsOthers(s[2..], c);
      assert s[1..][1..] == s[2..];
      assert ([LF] + MergeCrLf(s[2..]))[1..] == MergeCrLf(s[2..]);
    } else {
      MergeCrLfKeepsOthers(s[1..], c);
      assert ([s[0]] + MergeCrLf(s[1..]))[1..] == MergeCrLf(s[1..]);
    }
  }

  /** The output is shorter than the input by the number of CRs the scan removed. */
  lemma {:induction false} MergeCrLfLength(s: Text)
    ensures |MergeCrLf(s)| + Occurrences(s, CR) == |s| + Occurrences(MergeCrLf(s), CR)
    decreases |s|
  {
    if s == [] {
    } else if IsCrBeforeLf(s, 0) {
      MergeCrLfLength(s[2..]);
      assert s[1..][1..] == s[2..];
      assert ([LF] + MergeCrLf(s[2..]))[1..] == MergeCrLf(s[2..]);
    } else {
      MergeCrLfLength(s[1..]);
      assert ([s[0]] + MergeCrLf(s[1..]))[1..] == MergeCrLf(s[1..]);
    }
  }

  /** `String.prototype.replace` with a string pattern: only the first CR becomes LF. */
  function ReplaceFirstCr(t: Text): (r: Text)
    ensures |r| == |t|
  {
    if t == [] then []
    else if t[0] == CR then [LF] + t[1..]
    else [t[0]] + ReplaceFirstCr(t[1..])
  }

  lemma {:induction false} ReplaceFirstCrUnchanged(t: Text)
    requires CR !in t
    ensures ReplaceFirstCr(t) == t
  {
    if t != [] {
      assert t == [t[0]] + t[1..];
      ReplaceFirstCrUnchanged(t[1..]);
    }
  }

  /** With k the index of the first CR, only position k changes, to LF. */
  lemma {:induction false} ReplaceFirstCrAt(t: Text, k: int)
    requires 0 <= k < |t| && t[k] == CR && CR !in t[..k]
    ensures ReplaceFirstCr(t) == t[..k] + [LF] + t[k + 1..]
  {
    if k > 0 {
      assert t[0] == t[..k][0];
      assert t[1..][k - 1] == CR && t[1..][..k - 1] == t[..k][1..];
      ReplaceFirstCrAt(t[1..], k - 1);
      assert t[..k] == [t[0]] + t[1..][..k - 1];
      assert t[1..][k..] == t[k + 1..];
    }
  }

  /** One CR fewer when there is one. */
  lemma {:induction false} ReplaceFirstCrCounts(t: Text)
    ensures Occurrences(ReplaceFirstCr(t), CR) == if Occurrences(t, CR) > 0 then Occurrences(t, CR) - 1 else 0
  {
    if t != [] {
      ReplaceFirstCrCounts(t[1..]);
      var r := ReplaceFirstCr(t);
      assert r[1..] == if t[0] == CR then t[1..] else ReplaceFirstCr(t[1..]);
    }
  }

  /** Specification of `normalizeNewlines` as written. */
  function NormalizedNewlines(s: Text): Text
  {
    ReplaceFirstCr(MergeCrLf(s))
  }

  method NormalizeNewlines(value: Text) returns (r: Text)
    ensures r == NormalizedNewlines(value)
  {
    var normalized: Text := [];
    var i := 0;
    while i < |value|
      invariant 0 <= i <= |value|
      invariant normalized + MergeCrLf(value[i..]) == MergeCrLf(value)
    {
      if value[i] == CR && i + 1 < |value| && value[i + 1] == LF {
        assert IsCrBeforeLf(value[i..], 0) && value[i..][2..] == value[i + 2..];
        normalized := normalized + [LF];
        i := i + 2;
      } else {
        assert !IsCrBeforeLf(value[i..], 0) && value[i..][1..] == value[i + 1..];
        normalized := normalized + [value[i]];
        i := i + 1;
      }
    }
    assert value[i..] == [] && normalized == MergeCrLf(value);
    r := ReplaceFirstCr(normalized);
  }

  /** The scan leaves CRs that no LF follows, and only the first of them becomes LF. */
  lemma NormalizedNewlinesCrCount(s: Text)
    ensures Occurrences(NormalizedNewlines(s), CR) ==
      if Occurrences(MergeCrLf(s), CR) > 0 then Occurrences(MergeCrLf(s), CR) - 1 else 0
    ensures |NormalizedNewlines(s)| == |MergeCrLf(s)|
  {
    ReplaceFirstCrCounts(MergeCrLf(s));
  }

  /** Values the tests of `normalizeNewlines` pin (0x61 is 'a', 0x74 is 't'). */
  lemma NormalizedNewlinesExamples()
    ensures NormalizedNewlines([]) == []
    ensures NormalizedNewlines([CR]) == [LF]
    ensures NormalizedNewlines([CR, LF, CR, LF]) == [LF, LF]
    ensures NormalizedNewlines([0x61, CR, LF, 0x74, CR]) == [0x61, LF, 0x74, LF]
  {
    assert MergeCrLf([CR]) == [CR] by { assert [CR][1..] == []; }
    assert MergeCrLf([CR, LF]) == [LF] by { assert [CR, LF][2..] == []; }
    assert MergeCrLf([CR, LF, CR, LF]) == [LF, LF] by { assert [CR, LF, CR, LF][2..] == [CR, LF]; }
    assert ReplaceFirstCr([LF, LF]) == [LF, LF] by { assert [LF, LF][1..] == [LF]; }
    assert MergeCrLf([0x74, CR]) == [0x74, CR] by { assert [0x74, CR][1..] == [CR]; }
    assert MergeCrLf([CR, LF, 0x74, CR]) == [LF, 0x74, CR] by {
      assert [CR, LF, 0x74, CR][2..] == [0x74, CR];
    }
    assert MergeCrLf([0x61, CR, LF, 0x74, CR]) == [0x61, LF, 0x74, CR] by {
      assert [0x61, CR, LF, 0x74, CR][1..] == [CR, LF, 0x74, CR];
    }
    assert ReplaceFirstCr([0x74, CR]) == [0x74, LF] by { assert [0x74, CR][1..] == [CR]; }
    assert ReplaceFirstCr([LF, 0x74, CR]) == [LF, 0x74, LF] by {
      assert [LF, 0x74, CR][1..] == [0x74, CR];
    }
  }

  /** Two lone CRs: only the first is replaced, so a CR survives normalisation. */
  lemma NormalizedNewlinesKeepsSecondCr()
    ensures NormalizedNewlines([CR, CR]) == [LF, CR]
  {
    assert MergeCrLf([CR]) == [CR] by { assert [CR][1..] == []; }
    assert MergeCrLf([CR, CR]) == [CR, CR] by { assert [CR, CR][1..] == [CR]; }
    assert ReplaceFirstCr([CR, CR]) == [LF, CR];
  }

  /** Every CR becomes LF, as the Infra algorithm and the source's comment describe. */
  function ReplaceAllCr(t: Text): (r: Text)
    ensures |r| == |t|
  {
    if t == [] then [] else [if t[0] == CR then LF else t[0]] + ReplaceAllCr(t[1..])
  }

  /** `normalizeNewlines` with every remaining CR replaced. */
  function NormalizedNewlinesCorrected(s: Text): Text
  {
    ReplaceAllCr(MergeCrLf(s))
  }

  lemma {:induction false} ReplaceAllCrHasNoCr(t: Text)
    ensures CR !in ReplaceAllCr(t)
    ensures CR !in t ==> ReplaceAllCr(t) == t
  {
    if t != [] {
      ReplaceAllCrHasNoCr(t[1..]);
      assert t == [t[0]] + t[1..];
    }
  }

  /** With at most one CR, replacing the first and replacing all agree. */
  lemma {:induction false} ReplaceAllCrAgreesOnOneCr(t: Text)
    requires Occurrences(t, CR) <= 1
    ensures ReplaceAllCr(t) == ReplaceFirstCr(t)
  {
    if t != [] {
      if t[0] == CR {
        OccurrencesZero(t[1..], CR);
        ReplaceAllCrHasNoCr(t[1..]);
      } else {
        ReplaceAllCrAgreesOnOneCr(t[1..]);
      }
    }
  }

  /** The corrected function leaves no CR, and agrees with the source when at most one CR remains after the scan. */
  lemma NormalizedNewlinesCorrectedHasNoCr(s: Text)
    ensures CR !in NormalizedNewlinesCorrected(s)
    ensures Occurrences(MergeCrLf(s), CR) <= 1 ==> NormalizedNewlinesCorrected(s) == NormalizedNewlines(s)
  {
    ReplaceAllCrHasNoCr(MergeCrLf(s));
    if Occurrences(MergeCrLf(s), CR) <= 1 {
      ReplaceAllCrAgreesOnOneCr(MergeCrLf(s));
    }
  }

  // ===========================================================================
  // stripTrailingLeadingAsciiWhitespace
  // ===========================================================================

  /** Where the leading scan stops: the first index that is not ASCII whitespace, or |s| (see LeadingEndSpec). */
  function LeadingEnd(s: Text): (i: nat)
    ensures i <= |s|
  {
    if |s| > 0 && IsAsciiWhitespace([s[0]]) then 1 + LeadingEnd(s[1..]) else 0
  }

  /** Where the trailing scan stops: one past the last index that is not ASCII whitespace, or 0 (see TrailingStartSpec). */
  function TrailingStart(s: Text): (j: nat)
    ensures j <= |s|
  {
    if |s| > 0 && IsAsciiWhitespace([s[|s| - 1]]) then TrailingStart(s[..|s| - 1]) else |s|
  }

  /** Everything before LeadingEnd(s) is whitespace, and the scan stops at a non-whitespace or at the end. */
  lemma {:induction false} LeadingEndSpec(s: Text)
    ensures forall k :: 0 <= k < LeadingEnd(s) ==> IsWhitespaceAt(s, k)
    ensures !IsWhitespaceAt(s, LeadingEnd(s))
  {
    if |s| > 0 && IsAsciiWhitespace([s[0]]) {
      LeadingEndSpec(s[1..]);
      var t, i := s[1..], LeadingEnd(s);
      forall k | 1 <= k < i
        ensures IsWhitespaceAt(s, k)
      {
        assert IsWhitespaceAt(t, k - 1) && t[k - 1] == s[k];
      }
      if i < |s| {
        assert !IsWhitespaceAt(t, i - 1) && t[i - 1] == s[i];
      }
    }
  }

  /** Everything from TrailingStart(s) on is whitespace, and the scan stops after a non-whitespace or at 0. */
  lemma {:induction false} TrailingStartSpec(s: Text)
    ensures forall k :: TrailingStart(s) <= k < |s| ==> IsWhitespaceAt(s, k)
    ensures !IsWhitespaceAt(s, TrailingStart(s) - 1)
  {
    if |s| > 0 && IsAsciiWhitespace([s[|s| - 1]]) {
      var t := s[..|s| - 1];
      TrailingStartSpec(t);
      var j := TrailingStart(s);
      forall k | j <= k < |s| - 1
        ensures IsWhitespaceAt(s, k)
      {
        assert IsWhitespaceAt(t, k) && t[k] == s[k];
      }
      if j > 0 {
        assert !IsWhitespaceAt(t, j - 1) && t[j - 1] == s[j - 1];
      }
    }
  }

  /** Both scans' specifications at once. */
  lemma ScansSpec(s: Text)
    ensures forall k :: 0 <= k < LeadingEnd(s) ==> IsWhitespaceAt(s, k)
    ensures !IsWhitespaceAt(s, LeadingEnd(s))
    ensures forall k :: TrailingStart(s) <= k < |s| ==> IsWhitespaceAt(s, k)
    ensures !IsWhitespaceAt(s, TrailingStart(s) - 1)
  {
    LeadingEndSpec(s);
    TrailingStartSpec(s);
  }

  /** JavaScript `String.prototype.substring`: both indices clamped to [0, |s|], then swapped if start > end. */
  function Substring(s: Text, start: int, end: int): (r: Text)
    ensures 0 <= start <= end <= |s| ==> r == s[start..end]
    ensures 0 <= end <= start <= |s| ==> r == s[end..start]
  {
    var a := if start < 0 then 0 else if start > |s| then |s| else start;
    var b := if end < 0 then 0 else if end > |s| then |s| else end;
    if a <= b then s[a..b] else s[b..a]
  }

  /** Specification of `stripTrailingLeadingAsciiWhitespace` as written. */
  function StrippedAsciiWhitespace(s: Text): Text
  {
    Substring(s, LeadingEnd(s), TrailingStart(s))
  }

  method StripTrailingLeadingAsciiWhitespace(value: Text) returns (r: Text)
    ensures r == StrippedAsciiWhitespace(value)
  {
    var leadingIndex := 0;
    while IsWhitespaceAt(value, leadingIndex)
      invariant 0 <= leadingIndex <= |value|
      invariant forall k :: 0 <= k < leadingIndex ==> IsWhitespaceAt(value, k)
      decreases |value| - leadingIndex
    {
      leadingIndex := leadingIndex + 1;
    }

    var trailingIndex := |value|;
    while IsWhitespaceAt(value, trailingIndex - 1)
      invariant 0 <= trailingIndex <= |value|
      invariant forall k :: trailingIndex <= k < |value| ==> IsWhitespaceAt(value, k)
      decreases trailingIndex
    {
      trailingIndex := trailingIndex - 1;
    }

    ScansSpec(value);
    assert leadingIndex == LeadingEnd(value);
    assert trailingIndex == TrailingStart(value);
    r := Substring(value, leadingIndex, trailingIndex);
  }

  /** With some non-whitespace, the result is the slice from the first to one past the last such code point. */
  lemma StripWithContent(s: Text)
    requires HasNonWhitespace(s)
    ensures LeadingEnd(s) < TrailingStart(s)
    ensures StrippedAsciiWhitespace(s) == s[LeadingEnd(s)..TrailingStart(s)]
    ensures !IsWhitespaceAt(s, LeadingEnd(s)) && !IsWhitespaceAt(s, TrailingStart(s) - 1)
    ensures var r := StrippedAsciiWhitespace(s); |r| > 0 && !IsWhitespaceAt(r, 0) && !IsWhitespaceAt(r, |r| - 1)
  {
    var k :| 0 <= k < |s| && !IsWhitespaceAt(s, k);
    ScansBracket(s, k);
    ScansSpec(s);
    var i, j := LeadingEnd(s), TrailingStart(s);
    SliceEnds(s, i, j);
    assert StrippedAsciiWhitespace(s) == s[i..j];
  }

  /** Every non-whitespace code point lies between the two scans. */
  lemma ScansBracket(s: Text, k: int)
    requires 0 <= k < |s| && !IsWhitespaceAt(s, k)
    ensures LeadingEnd(s) <= k < TrailingStart(s)
  {
    ScansSpec(s);
  }

  /** A slice that starts and ends on non-whitespace does so too, read on its own. */
  lemma SliceEnds(s: Text, i: int, j: int)
    requires 0 <= i < j <= |s|
    requires !IsWhitespaceAt(s, i) && !IsWhitespaceAt(s, j - 1)
    ensures var r := s[i..j]; |r| > 0 && !IsWhitespaceAt(r, 0) && !IsWhitespaceAt(r, |r| - 1)
  {
    var r := s[i..j];
    assert r[0] == s[i] && r[|r| - 1] == s[j - 1];
  }

  /**
   * A non-empty string of ASCII whitespace: the scans cross, `substring` swaps its
   * arguments, and the whole input comes back.
   */
  lemma StripAllWhitespace(s: Text)
    requires |s| > 0 && !HasNonWhitespace(s)
    ensures LeadingEnd(s) == |s| && TrailingStart(s) == 0
    ensures StrippedAsciiWhitespace(s) == s
  {
    ScansSpec(s);
  }

  /** `""` as the tests pin it, and four SPACEs, which come back unchanged because the scans cross. */
  lemma StripExamples()
    ensures StrippedAsciiWhitespace([]) == []
    ensures StrippedAsciiWhitespace([SPACE, SPACE, SPACE, SPACE]) == [SPACE, SPACE, SPACE, SPACE]
  {
    StripAllWhitespace([SPACE, SPACE, SPACE, SPACE]);
  }

  lemma StripIdempotent(s: Text)
    ensures StrippedAsciiWhitespace(StrippedAsciiWhitespace(s)) == StrippedAsciiWhitespace(s)
  {
    if HasNonWhitespace(s) {
      StripWithContent(s);
      var r := StrippedAsciiWhitespace(s);
      ScansSpec(r);
      assert LeadingEnd(r) == 0;
      assert TrailingStart(r) == |r|;
    } else if |s| > 0 {
      StripAllWhitespace(s);
    }
  }

  /** `substring` with its indices not swapped: the Infra algorithm, which yields "" for all-whitespace input. */
  function StrippedAsciiWhitespaceCorrected(s: Text): Text
  {
    if LeadingEnd(s) <= TrailingStart(s) then s[LeadingEnd(s)..TrailingStart(s)] else []
  }

  lemma StrippedCorrectedSpec(s: Text)
    ensures !HasNonWhitespace(s) ==> StrippedAsciiWhitespaceCorrected(s) == []
    ensures HasNonWhitespace(s) ==> StrippedAsciiWhitespaceCorrected(s) == StrippedAsciiWhitespace(s)
    ensures var r := StrippedAsciiWhitespaceCorrected(s); !IsWhitespaceAt(r, 0) && !IsWhitespaceAt(r, |r| - 1)
  {
    if HasNonWhitespace(s) {
      StripWithContent(s);
    } else if |s| > 0 {
      StripAllWhitespace(s);
    }
  }

  // ===========================================================================
  // stripCollapseAsciiWhitespace
  // ===========================================================================

  /**
   * Specification of the loop: each maximal run of ASCII whitespace becomes one SPACE,
   * everything else is copied. `lastSeenWhitespace` is the loop's flag.
   */
  function CollapseWhitespace(s: Text, lastSeenWhitespace: bool): Text
  {
    if s == [] then []
    else if IsAsciiWhitespace([s[0]]) then
      (if lastSeenWhitespace then [] else [SPACE]) + CollapseWhitespace(s[1..], true)
    else [s[0]] + CollapseWhitespace(s[1..], false)
  }

  /** Specification of `stripCollapseAsciiWhitespace`. */
  function StrippedCollapsedAsciiWhitespace(s: Text): Text
  {
    StrippedAsciiWhitespace(CollapseWhitespace(s, false))
  }

  /** One step of the collapse, taken at index `i`. */
  lemma CollapseStep(s: Text, i: int, last: bool)
    requires 0 <= i < |s|
    ensures CollapseWhitespace(s[i..], last) ==
      if IsWhitespaceAt(s, i) then (if last then [] else [SPACE]) + CollapseWhitespace(s[i + 1..], true)
      else [s[i]] + CollapseWhitespace(s[i + 1..], false)
  {
    assert s[i..][1..] == s[i + 1..];
  }

  /** The loop's flag after reading `a` from flag `last`: whether the last code point read was whitespace. */
  function FlagAfter(a: Text, last: bool): bool
  {
    if a == [] then last else IsAsciiWhitespace([a[|a| - 1]])
  }

  /** Collapsing a concatenation collapses each part, the second one from the flag the first leaves. */
  lemma {:induction false} CollapseAppend(a: Text, b: Text, last: bool)
    ensures CollapseWhitespace(a + b, last) ==
      CollapseWhitespace(a, last) + CollapseWhitespace(b, FlagAfter(a, last))
  {
    SplitAppend(a, b);
    if a != [] {
      CollapseAppend(a[1..], b, IsAsciiWhitespace([a[0]]));
      FlagAfterTail(a, last);
    }
  }

  lemma FlagAfterTail(a: Text, last: bool)
    requires a != []
    ensures FlagAfter(a[1..], IsAsciiWhitespace([a[0]])) == FlagAfter(a, last)
  {
    assert a[1..] != [] ==> a[1..][|a[1..]| - 1] == a[|a| - 1];
  }

  /**
   * A run of whitespace that follows a non-whitespace (or starts the string) becomes exactly
   * one SPACE, wherever it sits in the string.
   */
  lemma RunBecomesOneSpace(x: Text, run: Text, y: Text, last: bool)
    requires run != [] && !HasNonWhitespace(run)
    requires !FlagAfter(x, last)
    ensures CollapseWhitespace(x + run + y, last) ==
      CollapseWhitespace(x, last) + [SPACE] + CollapseWhitespace(y, true)
  {
    CollapseAppend(x + run, y, last);
    CollapseAppend(x, run, last);
    CollapseAllWhitespace(run, false);
    assert !IsWhitespaceAt(run, |run| - 1) ==> HasNonWhitespace(run);
    assert (x + run)[|x + run| - 1] == run[|run| - 1];
  }

  /** The collapse loop's invariant carries over one iteration. */
  lemma CollapseAdvance(s: Text, i: int, last: bool, acc: Text)
    requires 0 <= i < |s|
    requires acc + CollapseWhitespace(s[i..], last) == CollapseWhitespace(s, false)
    ensures var piece := if IsWhitespaceAt(s, i) then (if last then [] else [SPACE]) else [s[i]];
      (acc + piece) + CollapseWhitespace(s[i + 1..], IsWhitespaceAt(s, i)) == CollapseWhitespace(s, false)
  {
    CollapseStep(s, i, last);
    var piece := if IsWhitespaceAt(s, i) then (if last then [] else [SPACE]) else [s[i]];
    var rest := CollapseWhitespace(s[i + 1..], IsWhitespaceAt(s, i));
    assert (acc + piece) + rest == acc + (piece + rest);
  }

  method StripCollapseAsciiWhitespace(value: Text) returns (r: Text)
    ensures r == StrippedCollapsedAsciiWhitespace(value)
  {
    var result: Text := [];
    var lastSeenWhitespace := false;
    for i := 0 to |value|
      invariant result + CollapseWhitespace(value[i..], lastSeenWhitespace) == CollapseWhitespace(value, false)
    {
      CollapseAdvance(value, i, lastSeenWhitespace, result);
      if IsWhitespaceAt(value, i) {
        if !lastSeenWhitespace {
          lastSeenWhitespace := true;
          result := result + [SPACE];
        } else {
          assert result + [] == result;
        }
      } else {
        lastSeenWhitespace := false;
        result := result + [value[i]];
      }
    }
    assert value[|value|..] == [] && result == CollapseWhitespace(value, false);
    r := StripTrailingLeadingAsciiWhitespace(result);
  }

  /** Whitespace occurs only as single SPACEs. */
  predicate IsCollapsed(r: Text)
  {
    (forall k :: 0 <= k < |r| && IsWhitespaceAt(r, k) ==> r[k] == SPACE) &&
    (forall k :: 0 <= k < |r| && IsWhitespaceAt(r, k) ==> !IsWhitespaceAt(r, k + 1))
  }

  /** The code points of `s` that are not ASCII whitespace, in order. */
  function NonWhitespace(s: Text): Text
  {
    if s == [] then []
    else (if IsAsciiWhitespace([s[0]]) then [] else [s[0]]) + NonWhitespace(s[1..])
  }

  lemma {:induction false} CollapseShape(s: Text, last: bool)
    ensures IsCollapsed(CollapseWhitespace(s, last))
    ensures last ==> !IsWhitespaceAt(CollapseWhitespace(s, last), 0)
  {
    if s != [] {
      CollapseShape(s[1..], IsAsciiWhitespace([s[0]]));
      var tail := CollapseWhitespace(s[1..], IsAsciiWhitespace([s[0]]));
      var r := CollapseWhitespace(s, last);
      var head := r[..|r| - |tail|];
      assert r == head + tail;
      assert |head| <= 1;
      forall k | IsWhitespaceAt(r, k) ensures r[k] == SPACE && !IsWhitespaceAt(r, k + 1)
      {
        if k >= |head| {
          assert IsWhitespaceAt(tail, k - |head|);
          assert IsWhitespaceAt(r, k + 1) ==> IsWhitespaceAt(tail, k + 1 - |head|);
        }
      }
    }
  }

  lemma NonWhitespaceCons(c: CodePoint, t: Text)
    ensures NonWhitespace([c] + t) == (if IsAsciiWhitespace([c]) then [] else [c]) + NonWhitespace(t)
  {
    assert ([c] + t)[1..] == t;
  }

  /** Collapsing keeps every non-whitespace code point, in order. */
  lemma {:induction false} CollapseKeepsNonWhitespace(s: Text, last: bool)
    ensures NonWhitespace(CollapseWhitespace(s, last)) == NonWhitespace(s)
  {
    if s != [] {
      CollapseKeepsNonWhitespace(s[1..], IsAsciiWhitespace([s[0]]));
      var tail := CollapseWhitespace(s[1..], IsAsciiWhitespace([s[0]]));
      if IsAsciiWhitespace([s[0]]) && !last {
        NonWhitespaceCons(SPACE, tail);
      } else if !IsAsciiWhitespace([s[0]]) {
        NonWhitespaceCons(s[0], tail);
      } else {
        assert CollapseWhitespace(s, last) == tail;
      }
      NonWhitespaceCons(s[0], s[1..]);
      assert s == [s[0]] + s[1..];
    }
  }

  lemma {:induction false} NonWhitespaceAppend(a: Text, b: Text)
    ensures NonWhitespace(a + b) == NonWhitespace(a) + NonWhitespace(b)
  {
    SplitAppend(a, b);
    if a != [] {
      NonWhitespaceAppend(a[1..], b);
    }
  }

  /** A string has non-whitespace exactly when its non-whitespace projection is non-empty. */
  lemma {:induction false} NonWhitespaceEmpty(s: Text)
    ensures NonWhitespace(s) == [] <==> !HasNonWhitespace(s)
  {
    if s != [] {
      NonWhitespaceEmpty(s[1..]);
      assert HasNonWhitespace(s) <==> !IsWhitespaceAt(s, 0) || HasNonWhitespace(s[1..]) by {
        if HasNonWhitespace(s[1..]) {
          var k :| 0 <= k < |s[1..]| && !IsWhitespaceAt(s[1..], k);
          assert !IsWhitespaceAt(s, k + 1);
        }
        if HasNonWhitespace(s) {
          var k :| 0 <= k < |s| && !IsWhitespaceAt(s, k);
          if k > 0 {
            assert !IsWhitespaceAt(s[1..], k - 1);
          }
        }
      }
    }
  }

  /** All whitespace, non-empty: the collapse is one SPACE (or nothing after a whitespace). */
  lemma {:induction false} CollapseAllWhitespace(s: Text, last: bool)
    requires !HasNonWhitespace(s)
    ensures CollapseWhitespace(s, last) == if s == [] || last then [] else [SPACE]
  {
    if s != [] {
      assert !IsWhitespaceAt(s, 0) ==> HasNonWhitespace(s);
      forall k | 0 <= k < |s[1..]| ensures IsWhitespaceAt(s[1..], k)
      {
        assert IsWhitespaceAt(s, k + 1);
      }
      CollapseAllWhitespace(s[1..], true);
    }
  }

  /** A collapsed string that does not begin with whitespace after a whitespace is its own collapse. */
  lemma {:induction false} CollapseOfCollapsed(r: Text, last: bool)
    requires IsCollapsed(r)
    requires last ==> !IsWhitespaceAt(r, 0)
    ensures CollapseWhitespace(r, last) == r
  {
    if r != [] {
      var ws := IsAsciiWhitespace([r[0]]);
      assert IsCollapsed(r[1..]) by {
        forall k | IsWhitespaceAt(r[1..], k) ensures r[1..][k] == SPACE && !IsWhitespaceAt(r[1..], k + 1)
        {
          assert IsWhitespaceAt(r, k + 1);
          assert IsWhitespaceAt(r[1..], k + 1) ==> IsWhitespaceAt(r, k + 2);
        }
      }
      assert ws ==> !IsWhitespaceAt(r, 1);
      CollapseOfCollapsed(r[1..], ws);
      assert r == [r[0]] + r[1..];
    }
  }

  /** Slicing a collapsed string keeps it collapsed. */
  lemma SliceCollapsed(c: Text, i: int, j: int)
    requires IsCollapsed(c) && 0 <= i <= j <= |c|
    ensures IsCollapsed(c[i..j])
  {
    var r := c[i..j];
    forall k | IsWhitespaceAt(r, k) ensures r[k] == SPACE && !IsWhitespaceAt(r, k + 1)
    {
      assert IsWhitespaceAt(c, i + k);
      assert IsWhitespaceAt(r, k + 1) ==> IsWhitespaceAt(c, i + k + 1);
    }
  }

  /**
   * What `stripCollapseAsciiWhitespace` returns: whitespace only as single SPACEs, the
   * non-whitespace of the input in order, and no SPACE at either end unless the input
   * held nothing but whitespace, in which case the result is one SPACE (or "" for "").
   */
  lemma StrippedCollapsedShape(s: Text)
    ensures var r := StrippedCollapsedAsciiWhitespace(s);
      IsCollapsed(r) &&
      NonWhitespace(r) == NonWhitespace(s) &&
      (HasNonWhitespace(s) ==> |r| > 0 && !IsWhitespaceAt(r, 0) && !IsWhitespaceAt(r, |r| - 1)) &&
      (!HasNonWhitespace(s) ==> r == if s == [] then [] else [SPACE])
  {
    var c := CollapseWhitespace(s, false);
    CollapseShape(s, false);
    CollapseKeepsNonWhitespace(s, false);
    StripKeepsCollapsed(c);
    StripKeepsNonWhitespace(c);
    NonWhitespaceEmpty(s);
    NonWhitespaceEmpty(c);
    if HasNonWhitespace(s) {
      StripWithContent(c);
    } else {
      CollapseAllWhitespace(s, false);
      if s != [] {
        StripAllWhitespace(c);
      }
    }
  }

  /** Stripping removes only whitespace. */
  lemma StripKeepsNonWhitespace(c: Text)
    ensures NonWhitespace(StrippedAsciiWhitespace(c)) == NonWhitespace(c)
  {
    if HasNonWhitespace(c) {
      StripWithContent(c);
      ScansSpec(c);
      var i, j := LeadingEnd(c), TrailingStart(c);
      WhitespaceSliceHasNoContent(c, 0, i);
      WhitespaceSliceHasNoContent(c, j, |c|);
      NonWhitespaceOfMiddle(c, i, j);
    } else if c != [] {
      StripAllWhitespace(c);
    }
  }

  /** When the parts of `c` before `i` and from `j` on hold only whitespace, the middle holds all of its content. */
  lemma NonWhitespaceOfMiddle(c: Text, i: int, j: int)
    requires 0 <= i <= j <= |c|
    requires NonWhitespace(c[0..i]) == [] && NonWhitespace(c[j..|c|]) == []
    ensures NonWhitespace(c[i..j]) == NonWhitespace(c)
  {
    var a, m, z := c[0..i], c[i..j], c[j..|c|];
    SplitThree(c, i, j);
    NonWhitespaceAppend(a, m + z);
    NonWhitespaceAppend(m, z);
    calc {
      NonWhitespace(c);
      NonWhitespace(a) + (NonWhitespace(m) + NonWhitespace(z));
      [] + (NonWhitespace(m) + []);
      NonWhitespace(m);
    }
  }

  lemma SplitThree(c: Text, i: int, j: int)
    requires 0 <= i <= j <= |c|
    ensures c == c[0..i] + (c[i..j] + c[j..|c|])
  {
  }

  lemma WhitespaceSliceHasNoContent(c: Text, i: int, j: int)
    requires 0 <= i <= j <= |c|
    requires forall k :: i <= k < j ==> IsWhitespaceAt(c, k)
    ensures NonWhitespace(c[i..j]) == []
  {
    forall k | 0 <= k < j - i ensures IsWhitespaceAt(c[i..j], k) {
      assert IsWhitespaceAt(c, i + k);
    }
    NonWhitespaceEmpty(c[i..j]);
  }

  lemma StripKeepsCollapsed(c: Text)
    requires IsCollapsed(c)
    ensures IsCollapsed(StrippedAsciiWhitespace(c))
  {
    if HasNonWhitespace(c) {
      StripWithContent(c);
      SliceCollapsed(c, LeadingEnd(c), TrailingStart(c));
    } else if c != [] {
      StripAllWhitespace(c);
    }
  }

  lemma StripCollapseIdempotent(s: Text)
    ensures StrippedCollapsedAsciiWhitespace(StrippedCollapsedAsciiWhitespace(s)) == StrippedCollapsedAsciiWhitespace(s)
  {
    var r := StrippedCollapsedAsciiWhitespace(s);
    StrippedCollapsedShape(s);
    CollapseOfCollapsed(r, false);
    StripIdempotent(CollapseWhitespace(s, false));
  }

  /** Values the tests of `stripCollapseAsciiWhitespace` pin. */
  lemma StripCollapseExamples()
    ensures StrippedCollapsedAsciiWhitespace([]) == []
    ensures StrippedCollapsedAsciiWhitespace([SPACE, SPACE, SPACE, SPACE]) == [SPACE]
  {
    StrippedCollapsedShape([SPACE, SPACE, SPACE, SPACE]);
    assert !HasNonWhitespace([SPACE, SPACE, SPACE, SPACE]) by {
      forall k | 0 <= k < 4 ensures IsWhitespaceAt([SPACE, SPACE, SPACE, SPACE], k) { }
    }
  }

  /**
   * Shortened forms of the pinned cases with runs inside the text (0x61 is 'a', 0x62 is 'b'):
   * "a  b \n\r" and "\r \n a  b" both give "a b".
   */
  lemma StripCollapseInnerRunExamples()
    ensures StrippedCollapsedAsciiWhitespace([0x61, SPACE, SPACE, 0x62, SPACE, LF, CR]) == [0x61, SPACE, 0x62]
    ensures StrippedCollapsedAsciiWhitespace([CR, SPACE, LF, SPACE, 0x61, SPACE, SPACE, 0x62]) == [0x61, SPACE, 0x62]
  {
    CollapseTrailingRunExample();
    StripWithContentOf([0x61, SPACE, 0x62, SPACE], 0, 3);
    CollapseLeadingRunExample();
    StripWithContentOf([SPACE, 0x61, SPACE, 0x62], 1, 4);
  }

  lemma CollapseTrailingRunExample()
    ensures CollapseWhitespace([0x61, SPACE, SPACE, 0x62, SPACE, LF, CR], false) == [0x61, SPACE, 0x62, SPACE]
  {
    AllSpaceLike([SPACE, SPACE]);
    AllSpaceLike([SPACE, LF, CR]);
    RunBecomesOneSpace([0x61], [SPACE, SPACE], [0x62, SPACE, LF, CR], false);
    assert [0x61] + [SPACE, SPACE] + [0x62, SPACE, LF, CR] == [0x61, SPACE, SPACE, 0x62, SPACE, LF, CR];
    RunBecomesOneSpace([0x62], [SPACE, LF, CR], [], true);
    assert [0x62] + [SPACE, LF, CR] + [] == [0x62, SPACE, LF, CR];
    assert CollapseWhitespace([0x61], false) == [0x61];
    assert CollapseWhitespace([0x62], true) == [0x62];
  }

  lemma CollapseLeadingRunExample()
    ensures CollapseWhitespace([CR, SPACE, LF, SPACE, 0x61, SPACE, SPACE, 0x62], false) == [SPACE, 0x61, SPACE, 0x62]
  {
    AllSpaceLike([CR, SPACE, LF, SPACE]);
    AllSpaceLike([SPACE, SPACE]);
    RunBecomesOneSpace([], [CR, SPACE, LF, SPACE], [0x61, SPACE, SPACE, 0x62], false);
    assert [] + [CR, SPACE, LF, SPACE] + [0x61, SPACE, SPACE, 0x62] == [CR, SPACE, LF, SPACE, 0x61, SPACE, SPACE, 0x62];
    RunBecomesOneSpace([0x61], [SPACE, SPACE], [0x62], true);
    assert [0x61] + [SPACE, SPACE] + [0x62] == [0x61, SPACE, SPACE, 0x62];
    assert CollapseWhitespace([0x61], true) == [0x61];
    assert CollapseWhitespace([0x62], true) == [0x62];
  }

  /** A string of whitespace code points has no content. */
  lemma AllSpaceLike(s: Text)
    requires forall k :: 0 <= k < |s| ==> s[k] == SPACE || s[k] == LF || s[k] == CR
    ensures !HasNonWhitespace(s)
  {
    forall k | 0 <= k < |s| ensures IsWhitespaceAt(s, k) { }
  }

  /** Stripping a string whose content runs exactly from `i` to `j`. */
  lemma StripWithContentOf(s: Text, i: int, j: int)
    requires 0 <= i < j <= |s|
    requires forall k :: 0 <= k < i ==> IsWhitespaceAt(s, k)
    requires forall k :: j <= k < |s| ==> IsWhitespaceAt(s, k)
    requires !IsWhitespaceAt(s, i) && !IsWhitespaceAt(s, j - 1)
    ensures StrippedAsciiWhitespace(s) == s[i..j]
  {
    ScansSpec(s);
    assert HasNonWhitespace(s) by { assert !IsWhitespaceAt(s, i); }
    StripWithContent(s);
  }
}
