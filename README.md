# whatwg-infra in Dafny

This project models the code-point predicates and string transforms of the WHATWG Infra Standard as one TypeScript library implements them. It covers section 4.6 "Code points" and section 4.7 "Strings" of that standard. There are two modules:

- `CodePoints` (`code_points.dfy`) models `src/codePoints.ts`. It holds the range primitive `IsCodePointBetween` and seventeen classifiers. Most classifiers are built from `IsCodePointBetween` by union and negation. `IsSurrogate` applies it to every code point. `IsAsciiTabOrNewline`, `IsAsciiWhitespace` and the space half of `IsC0ControlOrSpace` compare the whole string with `===` instead. They are pure predicates, as in the source.
- `Strings` (`strings.dfy`) models `src/strings.ts`. Each transform is a method with the source's loop: the `for...of` loops, the index loop that skips a character by bumping `i`, the two `while` scans of the strip function, and the `lastSeenWhitespace` flag of the collapse. Each method is proved equal to a recursive specification function. The properties are proved as lemmas about those functions.

A JavaScript string is modelled as `Text = seq<CodePoint>`, where a `CodePoint` is an integer in `[0, 0x10FFFF]`. Lone surrogates are allowed.

- The predicates take a whole string, as the source does. Range predicates read only the first code point, and `""` makes them false.
- `IsAsciiTabOrNewline`, `IsAsciiWhitespace` and the space half of `IsC0ControlOrSpace` compare the whole string, so they hold only for one-element strings.
- `IsSurrogate` checks every code point, so it is true on `""`.

Assumption on text representation: the index loops in `src/strings.ts` (`value[i]`, `value.length`) step by UTF-16 code unit, while the `for...of` loops step by code point. Every character the index loops compare (TAB, LF, FF, CR, SPACE) is one BMP code unit and not a surrogate. Every other unit is copied through in order. The model therefore runs both kinds of loop over the same code-point sequence, and this gives the same results.

Where the code and the Infra algorithms differ, the model follows the code. The corrected behaviour is modelled beside it (see "## Findings"). There are three such differences:

- `normalizeNewlines` rewrites only the first CR left after its CR LF scan. Infra rewrites every one.
- `stripTrailingLeadingAsciiWhitespace` returns a non-empty all-whitespace string unchanged, because `substring` swaps its arguments. Infra returns `""`.
- `isNonCharacter` does not list U+10FFFF, although its doc comment does, and the Infra definition includes it.

## Model

| member | source | states |
|---|---|---|
| `CodePoints.IsCodePointBetween` | src/codePoints.ts:5-10 | true iff the string is non-empty and its first code point lies in [low, max]; later code points are ignored; `""` gives false |
| `CodePoints.IsAsciiByte` | src/codePoints.ts:18 | true iff the first code point is at most 0x7F |
| `CodePoints.IsSurrogate` | src/codePoints.ts:27-35 | true iff every code point of the string is in [0xD800, 0xDFFF]; so it is true on `""` |
| `CodePoints.IsScalarValue` | src/codePoints.ts:43 | true iff some code point is outside the surrogate range; so it is false on `""` |
| `CodePoints.IsNonCharacter` | src/codePoints.ts:57-67 | true iff the string is non-empty and its first code point is in [0xFDD0, 0xFDEF] or in the listed plane ends; `IsNonCharacterCharacterization` turns the list into the arithmetic condition |
| `CodePoints.PlaneEndNonCharacters` | src/codePoints.ts:59-66 | the listed values are exactly the code points whose low 16 bits are FFFE or FFFF, except U+10FFFF |
| `CodePoints.IsNonCharacterCharacterization` | src/codePoints.ts:57-67 | a string is a non-character iff it is non-empty and its first code point is in [0xFDD0, 0xFDEF] or is one of the listed plane ends |
| `CodePoints.IsNonCharacterMissesLastPlaneEnd` | src/codePoints.ts:45-67 | U+10FFFF is not classified as a non-character; U+10FFFE and U+FFFFF are |
| `CodePoints.IsNonCharacterCorrected` | src/codePoints.ts:45-56 | with U+10FFFF added, the predicate holds iff the first code point is in [0xFDD0, 0xFDEF] or ends in FFFE or FFFF |
| `CodePoints.IsAsciiTabOrNewline` | src/codePoints.ts:77 | true iff the string is exactly one of TAB, LF, CR |
| `CodePoints.IsAsciiWhitespace` | src/codePoints.ts:86 | true iff the string is exactly one of TAB, LF, FF, CR, SPACE (not VT) |
| `CodePoints.IsC0Control` | src/codePoints.ts:95 | true iff the first code point is at most 0x1F |
| `CodePoints.IsC0ControlOrSpace` | src/codePoints.ts:103 | true iff the first code point is at most 0x1F, or the whole string is one SPACE |
| `CodePoints.IsControl` | src/codePoints.ts:114 | true iff the first code point is at most 0x1F or in [0x7F, 0x9F] |
| `CodePoints.IsAsciiDigit` | src/codePoints.ts:122 | true iff the first code point is in '0'..'9' |
| `CodePoints.IsAsciiUpperHexDigit` | src/codePoints.ts:130 | true iff the first code point is in 'A'..'F' |
| `CodePoints.IsAsciiLowerHexDigit` | src/codePoints.ts:137 | true iff the first code point is in 'a'..'f' |
| `CodePoints.IsAsciiHexDigit` | src/codePoints.ts:146 | true iff the first code point is in 'A'..'F' or 'a'..'f' |
| `CodePoints.IsAsciiUpperAlpha` | src/codePoints.ts:154 | true iff the first code point is in 'A'..'Z' |
| `CodePoints.IsAsciiLowerAlpha` | src/codePoints.ts:162 | true iff the first code point is in 'a'..'z' |
| `CodePoints.IsAsciiAlpha` | src/codePoints.ts:172 | true iff the first code point is in 'A'..'Z' or 'a'..'z' |
| `CodePoints.IsAsciiAlphanumeric` | src/codePoints.ts:180 | true iff the first code point is a digit, an upper alpha or a lower alpha |
| `CodePoints.EmptyStringClassification` | src/codePoints.ts:5-10 | every range-based and equality-based predicate is false on `""`; `IsSurrogate("")` holds and `IsScalarValue("")` does not |
| `CodePoints.FirstCodePointDecides` | src/codePoints.ts:5-10 | appending code points to a non-empty string never changes `IsCodePointBetween` for any bounds, nor any classifier built on it (byte, C0, control, digit, the hex digits, the alphas, alphanumeric, non-character) |
| `CodePoints.EqualityPredicatesNeedOneCodePoint` | src/codePoints.ts:77-103 | once a code point is appended to a non-empty string, neither tab-or-newline nor whitespace holds, and C0-or-space holds exactly when C0 does |
| `CodePoints.WhitespaceMembers` | src/codePoints.ts:77-86 | TAB, LF and CR are tab-or-newline; FF and SPACE are whitespace but not tab-or-newline; VT is neither; tab-or-newline implies whitespace |
| `CodePoints.CompositionIdentities` | src/codePoints.ts:103-180 | hex = upper hex or lower hex; alpha = upper or lower; alphanumeric = digit or alpha; control = C0 or [0x7F, 0x9F]; C0-or-space = C0 or `v == [SPACE]`; scalar value = not surrogate |
| `CodePoints.RangeConsequences` | src/codePoints.ts:95-162 | upper or lower hex digit implies upper or lower alpha; C0 implies ASCII byte; control excludes alphanumeric; digit, upper alpha and lower alpha are pairwise disjoint |
| `CodePoints.SingleCodePointSurrogate` | src/codePoints.ts:27-43 | on one code point, surrogate iff in [0xD800, 0xDFFF], and scalar value iff not surrogate |
| `Strings.ScalarValueString` | src/strings.ts:10-21 | the specification of the conversion keeps the number of code points |
| `Strings.ScalarValueStringAt` | src/strings.ts:12-18 | position i of the result is U+FFFD when input position i is a surrogate, and the input code point otherwise |
| `Strings.ScalarValueStringHasNoSurrogate` | src/strings.ts:3-21 | every code point of the result is a scalar value |
| `Strings.ScalarValueStringIdempotent` | src/strings.ts:10-21 | converting twice equals converting once |
| `Strings.ConvertStringToScalarValue` | src/strings.ts:10-21 | the loop computes the specification: same length, surrogates replaced by U+FFFD, the rest unchanged |
| `Strings.WithoutNewlinesHasNone` | src/strings.ts:28-37 | the result contains no LF and no CR |
| `Strings.WithoutNewlinesKeepsOthers` | src/strings.ts:28-37 | every code point other than LF and CR occurs as often in the result as in the input |
| `Strings.WithoutNewlinesAppend` | src/strings.ts:28-37 | stripping distributes over concatenation, so the kept code points stay in order |
| `Strings.WithoutNewlinesFixedPoint` | src/strings.ts:28-37 | a string is unchanged iff it has no LF and no CR |
| `Strings.WithoutNewlinesIdempotent` | src/strings.ts:28-37 | stripping twice equals stripping once |
| `Strings.StripNewlines` | src/strings.ts:28-37 | the loop computes the specification, and its result has no LF and no CR |
| `Strings.MergeCrLfDropsCrBeforeLf` | src/strings.ts:46-55 | the left-to-right CR LF scan equals dropping every CR that an LF immediately follows |
| `Strings.MergeCrLfKeepsOthers` | src/strings.ts:46-55 | the scan keeps the count of every code point other than CR |
| `Strings.MergeCrLfLength` | src/strings.ts:46-55 | the output length is the input length minus the number of CRs the scan removed (one per pair merged) |
| `Strings.ReplaceFirstCr` | src/strings.ts:57 | `replace` with a string pattern keeps the length |
| `Strings.ReplaceFirstCrUnchanged` | src/strings.ts:57 | a string with no CR comes back unchanged |
| `Strings.ReplaceFirstCrAt` | src/strings.ts:57 | when the first CR is at index k, only that CR becomes LF and every other code point stays where it was |
| `Strings.ReplaceFirstCrCounts` | src/strings.ts:57 | the result has one CR fewer than the input when the input has one |
| `Strings.NormalizeNewlines` | src/strings.ts:46-58 | the loop with its skip of the LF, followed by `replace`, computes the specification |
| `Strings.NormalizedNewlinesCrCount` | src/strings.ts:46-58 | the output keeps every CR that the scan left, except the first one |
| `Strings.NormalizedNewlinesExamples` | src/strings.ts:46-58 | `""` gives `""`, `"\r"` gives `"\n"`, `"\r\n\r\n"` gives `"\n\n"`, `"a\r\nt\r"` (a shortened pinned case) gives `"a\nt\n"` |
| `Strings.NormalizedNewlinesKeepsSecondCr` | src/strings.ts:57 | `"\r\r"` gives `"\n\r"`: the second lone CR survives |
| `Strings.ReplaceAllCr` | src/strings.ts:39-45 | replacing every CR keeps the length |
| `Strings.ReplaceAllCrHasNoCr` | src/strings.ts:39-45 | replacing every CR leaves none, and changes nothing when there is none |
| `Strings.ReplaceAllCrAgreesOnOneCr` | src/strings.ts:57 | with at most one CR, replacing the first equals replacing all |
| `Strings.NormalizedNewlinesCorrectedHasNoCr` | src/strings.ts:39-58 | the corrected normalization has no CR, and equals the source's when at most one CR is left after the scan |
| `Strings.LeadingEnd` | src/strings.ts:76-79 | the leading scan stops at an index no larger than the length |
| `Strings.LeadingEndSpec` | src/strings.ts:76-79 | the leading scan passes only whitespace and stops at an index that is not whitespace (or past the end) |
| `Strings.TrailingStart` | src/strings.ts:81-84 | the trailing scan stops at an index between 0 and the length |
| `Strings.TrailingStartSpec` | src/strings.ts:81-84 | the trailing scan leaves only whitespace after it and stops with no whitespace just before it (or at 0) |
| `Strings.Substring` | src/strings.ts:86 | `substring(start, end)` is the slice when start <= end, and the swapped slice when end <= start |
| `Strings.StripTrailingLeadingAsciiWhitespace` | src/strings.ts:75-87 | the two `while` scans and the `substring` call compute the specification |
| `Strings.StripWithContent` | src/strings.ts:75-87 | with some non-whitespace, the result is the slice from the first non-whitespace to one past the last, and it begins and ends with non-whitespace |
| `Strings.StripAllWhitespace` | src/strings.ts:76-86 | for a non-empty all-whitespace input the scans end at the length and at 0, and the input comes back unchanged |
| `Strings.StripExamples` | src/strings.ts:75-87 | `""` gives `""`, and four SPACEs give four SPACEs |
| `Strings.StripIdempotent` | src/strings.ts:75-87 | stripping twice equals stripping once |
| `Strings.StrippedCorrectedSpec` | src/strings.ts:60-87 | the Infra strip gives `""` for all-whitespace input, agrees with the source otherwise, and never begins or ends with whitespace |
| `Strings.CollapseAppend` | src/strings.ts:96-111 | collapsing a concatenation is collapsing the first part, then the second part from the flag the first part leaves (whether its last code point was whitespace) |
| `Strings.RunBecomesOneSpace` | src/strings.ts:96-111 | anywhere in a string, a non-empty run of whitespace that does not follow a whitespace becomes exactly one SPACE, with the text on either side collapsed independently |
| `Strings.StripCollapseAsciiWhitespace` | src/strings.ts:96-114 | the flagged loop followed by the strip computes the specification |
| `Strings.CollapseShape` | src/strings.ts:96-111 | the collapsed string has whitespace only as single SPACEs, and after a whitespace it does not start with whitespace |
| `Strings.CollapseKeepsNonWhitespace` | src/strings.ts:96-111 | the collapse keeps every non-whitespace code point, in order |
| `Strings.CollapseAllWhitespace` | src/strings.ts:96-111 | a non-empty run of whitespace collapses to one SPACE, or to nothing after a whitespace |
| `Strings.CollapseOfCollapsed` | src/strings.ts:96-111 | a string whose whitespace is single SPACEs collapses to itself |
| `Strings.StrippedCollapsedShape` | src/strings.ts:96-114 | the result has only single SPACEs as whitespace and the input's non-whitespace in order; with content it has no SPACE at either end; an all-whitespace input gives `" "`, and `""` gives `""` |
| `Strings.StripCollapseIdempotent` | src/strings.ts:96-114 | stripping and collapsing twice equals doing it once |
| `Strings.StripCollapseExamples` | src/strings.ts:96-114 | `""` gives `""` and four SPACEs give one SPACE |
| `Strings.StripCollapseInnerRunExamples` | src/strings.ts:96-114 | `"a  b \n\r"` and `"\r \n a  b"` (shortened pinned cases) both give `"a b"` |
| `Strings.StripWithContentOf` | src/strings.ts:75-87 | when only whitespace precedes `i`, only whitespace follows `j`, and `s[i]` and `s[j-1]` are not whitespace, the strip is `s[i..j]` |

## Left out

- `collectCodepoints` is not part of this model. The tests call it, but its implementation is not among the source files.
- `Strings.WithoutNewlines`: removing an LF or CR that sits between a lone high surrogate and a lone low surrogate joins the two into one code point in JavaScript (`"\uD800\n\uDC00"` gives `"\u{10000}"`), while the model keeps two elements. There, the counts that `WithoutNewlinesKeepsOthers` and `StripNewlines` state are counts of UTF-16 code units, not of code points. The other transforms never remove the only code unit between two non-whitespace units, so they are not affected.
- UTF-16 itself is not modelled: encoding, `codePointAt` combining a surrogate pair, `for...of` pairing surrogates, and `.length` counting code units. Text is a sequence of code points, under the assumption stated above.
- The `as number` cast and `Array.includes(undefined)` in `isNonCharacter` are modelled only by their outcome: a predicate that is false on `""`.
- Totality is not stated by a lemma. It holds because every member is a total Dafny function or method with no precondition.
- `Strings.NormalizedNewlinesExamples` checks `"a\r\nt\r"` instead of the pinned `"a\r\ntttt\r"`. The repeated `t` adds nothing but unfolding steps.
- `Strings.StripCollapseInnerRunExamples` checks `"a  b \n\r"` and `"\r \n a  b"` instead of the pinned `"cat dog  hamster \n\r"`, `"\r  \n  cat dog  hamster"` and `"\r  \n  cat dog  hamster \n\r"`. The same runs sit between the same kinds of code point, and the longer words only add unfolding steps. `RunBecomesOneSpace` states the run property for every string.
- `StripCollapseAsciiWhitespace` stays with the source's strip. So an all-whitespace input gives `" "` here, not the Infra `""`.
- Test-runner configuration is not modelled.

## Findings

| source | as written | input that shows it | evidently intended | confidence | as-written member | corrected member |
|---|---|---|---|---|---|---|
| src/codePoints.ts:53-66 | the list of plane-end non-characters stops at U+10FFFE | `[0x10FFFF]` is not classified as a non-character | U+10FFFF included, as the doc comment at line 53 lists it | high, not executed | `CodePoints.IsNonCharacterMissesLastPlaneEnd` | `CodePoints.IsNonCharacterCorrected` |
| src/strings.ts:57 | `replace('\r', '\n')` with a string pattern rewrites only the first CR | `"\r\r"` gives `"\n\r"` | every remaining CR becomes LF, as the doc comment at lines 40-42 says | high, not executed | `Strings.NormalizedNewlinesKeepsSecondCr` | `Strings.NormalizedNewlinesCorrectedHasNoCr` |
| src/strings.ts:86 | `substring(leadingIndex, trailingIndex)` swaps crossed indices | `" "` gives `" "` | `""` for an all-whitespace input, as the Infra algorithm the function cites defines | medium (the tests pin the as-written result), not executed | `Strings.StripAllWhitespace` | `Strings.StrippedCorrectedSpec` |

The main model follows the code as written. The corrected definitions (`IsNonCharacterCorrected`, `NormalizedNewlinesCorrected`, `StrippedAsciiWhitespaceCorrected`) stand beside it, with their intended properties proved.
