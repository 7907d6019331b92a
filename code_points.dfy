/**
 * The code-point predicates of the WHATWG Infra Standard, section 4.6 "Code points",
 * as src/codePoints.ts implements them.
 *
 * A JavaScript string is modelled as the sequence of its code points. Lone surrogates
 * are code points like any other, so a string may hold them.
 *
 * Each predicate takes a whole string, as the source does. That gives three kinds of
 * predicate:
 *  - range predicates read only the first code point, and are false on "";
 *  - IsAsciiTabOrNewline, IsAsciiWhitespace and the space half of IsC0ControlOrSpace
 *    compare the whole string, so only one-element strings satisfy them;
 *  - IsSurrogate looks at every code point, so it is vacuously true on "".
 */
module CodePoints {

  /** A Unicode code point, surrogates included. */
  type CodePoint = c: int | 0 <= c <= 0x10FFFF

  /** A string, seen as its code points. */
  type Text = seq<CodePoint>

  datatype Option<T> = None | Some(value: T)

  const TAB: CodePoint := 0x09
  const LF: CodePoint := 0x0A
  const FF: CodePoint := 0x0C
  const CR: CodePoint := 0x0D
  const SPACE: CodePoint := 0x20

  const SURROGATE_MIN: CodePoint := 0xD800
  const SURROGATE_MAX: CodePoint := 0xDFFF

  /** `value.codePointAt(0)`: undefined on the empty string. */
  function FirstCodePoint(v: Text): Option<CodePoint>
  {
    if |v| == 0 then None else Some(v[0])
  }

  /** Whether the first code point of `v` lies in [low, max]; an empty string has none. */
  function IsCodePointBetween(v: Text, low: int, max: int): (r: bool)
    ensures r <==> |v| > 0 && low <= v[0] <= max
  {
    match FirstCodePoint(v)
    case None => false
    case Some(c) => low <= c && c <= max
  }

  function IsAsciiByte(v: Text): (r: bool)
    ensures r <==> |v| > 0 && v[0] <= 0x7F
  {
    IsCodePointBetween(v, 0x00, 0x7F)
  }

  /**
   * Every code point of `v` is a surrogate. The source loops over the code points and
   * returns false at the first one outside the range, so "" is a surrogate.
   */
  function IsSurrogate(v: Text): (r: bool)
    ensures r <==> forall i :: 0 <= i < |v| ==> SURROGATE_MIN <= v[i] <= SURROGATE_MAX
    decreases |v|
  {
    |v| == 0 || (IsCodePointBetween([v[0]], 0xD800, 0xDFFF) && IsSurrogate(v[1..]))
  }

  /** The negation of IsSurrogate, so "" is not a scalar value. */
  function IsScalarValue(v: Text): (r: bool)
    ensures r <==> exists i :: 0 <= i < |v| && !(SURROGATE_MIN <= v[i] <= SURROGATE_MAX)
  {
    !IsSurrogate(v)
  }

  /**
   * The plane-end non-characters the source lists: U+nFFFE for every plane n from 0 to 16
   * and U+nFFFF for planes 0 to 15. U+10FFFF is missing.
   */
  const PLANE_END_NONCHARACTERS: seq<CodePoint> := [
    0xFFFE, 0xFFFF, 0x1FFFE, 0x1FFFF, 0x2FFFE, 0x2FFFF,
    0x3FFFE, 0x3FFFF, 0x4FFFE, 0x4FFFF, 0x5FFFE, 0x5FFFF,
    0x6FFFE, 0x6FFFF, 0x7FFFE, 0x7FFFF, 0x8FFFE, 0x8FFFF,
    0x9FFFE, 0x9FFFF, 0xAFFFE, 0xAFFFF, 0xBFFFE, 0xBFFFF,
    0xCFFFE, 0xCFFFF, 0xDFFFE, 0xDFFFF, 0xEFFFE, 0xEFFFF,
    0xFFFFE, 0xFFFFF, 0x10FFFE
  ]

  /** `[...].includes(v.codePointAt(0))` is false when there is no first code point. */
  function IsNonCharacter(v: Text): (r: bool)
    ensures r <==> |v| > 0 && (0xFDD0 <= v[0] <= 0xFDEF || v[0] in PLANE_END_NONCHARACTERS)
  {
    IsCodePointBetween(v, 0xFDD0, 0xFDEF) ||
    match FirstCodePoint(v)
    case None => false
    case Some(c) => c in PLANE_END_NONCHARACTERS
  }

  function IsAsciiTabOrNewline(v: Text): (r: bool)
    ensures r <==> |v| == 1 && (v[0] == 0x09 || v[0] == 0x0A || v[0] == 0x0D)
  {
    v == [TAB] || v == [LF] || v == [CR]
  }

  function IsAsciiWhitespace(v: Text): (r: bool)
    ensures r <==> |v| == 1 && (v[0] == TAB || v[0] == LF || v[0] == FF || v[0] == CR || v[0] == SPACE)
  {
    IsAsciiTabOrNewline(v) || v == [FF] || v == [SPACE]
  }

  function IsC0Control(v: Text): (r: bool)
    ensures r <==> |v| > 0 && v[0] <= 0x1F
  {
    IsCodePointBetween(v, 0x0000, 0x001F)
  }

  /** The C0 half reads the first code point; the space half compares the whole string. */
  function IsC0ControlOrSpace(v: Text): (r: bool)
    ensures r <==> (|v| > 0 && v[0] <= 0x1F) || (|v| == 1 && v[0] == 0x20)
  {
    IsC0Control(v) || v == [SPACE]
  }

  function IsControl(v: Text): (r: bool)
    ensures r <==> |v| > 0 && (v[0] <= 0x1F || 0x7F <= v[0] <= 0x9F)
  {
    IsC0Control(v) || IsCodePointBetween(v, 0x007F, 0x009F)
  }

  /** First code point is '0' to '9'. */
  function IsAsciiDigit(v: Text): (r: bool)
    ensures r <==> |v| > 0 && 0x30 <= v[0] <= 0x39
  {
    IsCodePointBetween(v, 0x0030, 0x0039)
  }

  /** First code point is 'A' to 'F'. */
  function IsAsciiUpperHexDigit(v: Text): (r: bool)
    ensures r <==> |v| > 0 && 0x41 <= v[0] <= 0x46
  {
    IsCodePointBetween(v, 0x0041, 0x0046)
  }

  /** First code point is 'a' to 'f'. */
  function IsAsciiLowerHexDigit(v: Text): (r: bool)
    ensures r <==> |v| > 0 && 0x61 <= v[0] <= 0x66
  {
    IsCodePointBetween(v, 0x0061, 0x0066)
  }

  /** First code point is 'A' to 'F' or 'a' to 'f'. */
  function IsAsciiHexDigit(v: Text): (r: bool)
    ensures r <==> |v| > 0 && (0x41 <= v[0] <= 0x46 || 0x61 <= v[0] <= 0x66)
  {
    IsAsciiLowerHexDigit(v) || IsAsciiUpperHexDigit(v)
  }

  /** First code point is 'A' to 'Z'. */
  function IsAsciiUpperAlpha(v: Text): (r: bool)
    ensures r <==> |v| > 0 && 0x41 <= v[0] <= 0x5A
  {
    IsCodePointBetween(v, 0x0041, 0x005A)
  }

  /** First code point is 'a' to 'z'. */
  function IsAsciiLowerAlpha(v: Text): (r: bool)
    ensures r <==> |v| > 0 && 0x61 <= v[0] <= 0x7A
  {
    IsCodePointBetween(v, 0x0061, 0x007A)
  }

  /** First code point is 'A' to 'Z' or 'a' to 'z'. */
  function IsAsciiAlpha(v: Text): (r: bool)
    ensures r <==> |v| > 0 && (0x41 <= v[0] <= 0x5A || 0x61 <= v[0] <= 0x7A)
  {
    IsAsciiLowerAlpha(v) || IsAsciiUpperAlpha(v)
  }

  /** First code point is an ASCII digit or letter. */
  function IsAsciiAlphanumeric(v: Text): (r: bool)
    ensures r <==> (|v| > 0 &&
      (0x30 <= v[0] <= 0x39 || 0x41 <= v[0] <= 0x5A || 0x61 <= v[0] <= 0x7A))
  {
    IsAsciiDigit(v) || IsAsciiAlpha(v)
  }

  // ---------------------------------------------------------------------------
  // Properties
  // ---------------------------------------------------------------------------

  /**
   * The plane-end list holds exactly the code points whose low 16 bits are FFFE or
   * FFFF, except U+10FFFF.
   */
  lemma PlaneEndNonCharacters(c: CodePoint)
    ensures c in PLANE_END_NONCHARACTERS <==> c % 0x10000 >= 0xFFFE && c != 0x10FFFF
  {
    if c in PLANE_END_NONCHARACTERS {
      var k :| 0 <= k < |PLANE_END_NONCHARACTERS| && PLANE_END_NONCHARACTERS[k] == c;
      ListedArePlaneEnds(k);
    } else if c % 0x10000 >= 0xFFFE && c != 0x10FFFF {
      PlaneEndsAreListed(c);
    }
  }

  lemma ListedArePlaneEnds(k: int)
    requires 0 <= k < |PLANE_END_NONCHARACTERS|
    ensures PLANE_END_NONCHARACTERS[k] % 0x10000 >= 0xFFFE && PLANE_END_NONCHARACTERS[k] != 0x10FFFF
  {
    ListedAt(k);
    PlaneOffset(k / 2, 0xFFFE + k % 2);
  }

  lemma PlaneOffset(plane: int, low: int)
    requires 0 <= low < 0x10000
    ensures (0x10000 * plane + low) % 0x10000 == low
  {
  }

  /** Entry k of the list is the end of plane k / 2, minus one when k is even. */
  lemma ListedAt(k: int)
    requires 0 <= k < |PLANE_END_NONCHARACTERS|
    ensures PLANE_END_NONCHARACTERS[k] == 0x10000 * (k / 2) + 0xFFFE + k % 2
  {
  }

  lemma PlaneEndsAreListed(c: CodePoint)
    requires c % 0x10000 >= 0xFFFE && c != 0x10FFFF
    ensures c in PLANE_END_NONCHARACTERS
  {
    var plane, low := c / 0x10000, c % 0x10000 - 0xFFFE;
    var k := 2 * plane + low;
    assert 0 <= k < |PLANE_END_NONCHARACTERS| && k / 2 == plane && k % 2 == low;
    ListedAt(k);
  }

  /** A non-character as the source classifies it: the first code point decides. */
  lemma IsNonCharacterCharacterization(v: Text)
    ensures IsNonCharacter(v) <==>
      |v| > 0 && (0xFDD0 <= v[0] <= 0xFDEF || (v[0] % 0x10000 >= 0xFFFE && v[0] != 0x10FFFF))
  {
    if |v| > 0 {
      PlaneEndNonCharacters(v[0]);
    }
  }

  /** The source does not classify U+10FFFF as a non-character, although its comment lists it. */
  lemma IsNonCharacterMissesLastPlaneEnd()
    ensures !IsNonCharacter([0x10FFFF])
    ensures IsNonCharacter([0x10FFFE]) && IsNonCharacter([0xFFFFF])
  {
    IsNonCharacterCharacterization([0x10FFFF]);
    IsNonCharacterCharacterization([0x10FFFE]);
    IsNonCharacterCharacterization([0xFFFFF]);
  }

  /** The non-character predicate with the list completed by U+10FFFF. */
  function IsNonCharacterCorrected(v: Text): (r: bool)
    ensures r <==> |v| > 0 && (0xFDD0 <= v[0] <= 0xFDEF || v[0] % 0x10000 >= 0xFFFE)
  {
    IsNonCharacterCharacterization(v);
    IsNonCharacter(v) ||
    match FirstCodePoint(v)
    case None => false
    case Some(c) => c == 0x10FFFF
  }

  /** Every range-based predicate is false on the empty string; IsSurrogate is true on it. */
  lemma EmptyStringClassification()
    ensures !IsCodePointBetween([], 0, 0x10FFFF)
    ensures !IsAsciiByte([]) && !IsNonCharacter([]) && !IsC0Control([]) && !IsC0ControlOrSpace([])
    ensures !IsControl([]) && !IsAsciiDigit([]) && !IsAsciiHexDigit([]) && !IsAsciiUpperHexDigit([])
    ensures !IsAsciiLowerHexDigit([]) && !IsAsciiAlpha([]) && !IsAsciiUpperAlpha([])
    ensures !IsAsciiLowerAlpha([]) && !IsAsciiAlphanumeric([])
    ensures !IsAsciiTabOrNewline([]) && !IsAsciiWhitespace([])
    ensures IsSurrogate([]) && !IsScalarValue([])
  {
  }

  /** Range predicates read only the first code point: appending code points never changes them. */
  lemma FirstCodePointDecides(v: Text, w: Text, low: int, max: int)
    requires |v| > 0
    ensures IsCodePointBetween(v + w, low, max) == IsCodePointBetween(v, low, max)
    ensures IsAsciiByte(v + w) == IsAsciiByte(v) && IsC0Control(v + w) == IsC0Control(v)
    ensures IsControl(v + w) == IsControl(v) && IsAsciiDigit(v + w) == IsAsciiDigit(v)
    ensures IsAsciiUpperHexDigit(v + w) == IsAsciiUpperHexDigit(v)
    ensures IsAsciiLowerHexDigit(v + w) == IsAsciiLowerHexDigit(v)
    ensures IsAsciiHexDigit(v + w) == IsAsciiHexDigit(v)
    ensures IsAsciiUpperAlpha(v + w) == IsAsciiUpperAlpha(v)
    ensures IsAsciiLowerAlpha(v + w) == IsAsciiLowerAlpha(v)
    ensures IsAsciiAlpha(v + w) == IsAsciiAlpha(v) && IsAsciiAlphanumeric(v + w) == IsAsciiAlphanumeric(v)
    ensures IsNonCharacter(v + w) == IsNonCharacter(v)
  {
    assert (v + w)[0] == v[0];
    IsNonCharacterCharacterization(v);
    IsNonCharacterCharacterization(v + w);
  }

  /**
   * The equality predicates compare the whole string: once a code point is appended, none
   * of them holds, and IsC0ControlOrSpace falls back to its range half.
   */
  lemma EqualityPredicatesNeedOneCodePoint(v: Text, w: Text)
    requires |v| > 0 && |w| > 0
    ensures !IsAsciiTabOrNewline(v + w) && !IsAsciiWhitespace(v + w)
    ensures IsC0ControlOrSpace(v + w) <==> IsC0Control(v)
  {
    assert (v + w)[0] == v[0];
  }

  /** The tab-or-newline and whitespace sets, with vertical tab excluded. */
  lemma WhitespaceMembers()
    ensures IsAsciiTabOrNewline([TAB]) && IsAsciiTabOrNewline([LF]) && IsAsciiTabOrNewline([CR])
    ensures !IsAsciiTabOrNewline([FF]) && !IsAsciiTabOrNewline([SPACE])
    ensures IsAsciiWhitespace([FF]) && IsAsciiWhitespace([SPACE]) && !IsAsciiWhitespace([0x0B])
    ensures forall v :: IsAsciiTabOrNewline(v) ==> IsAsciiWhitespace(v)
  {
  }

  /** The unions and negations the source composes its predicates from. */
  lemma CompositionIdentities(v: Text)
    ensures IsAsciiHexDigit(v) <==> IsAsciiUpperHexDigit(v) || IsAsciiLowerHexDigit(v)
    ensures IsAsciiAlpha(v) <==> IsAsciiUpperAlpha(v) || IsAsciiLowerAlpha(v)
    ensures IsAsciiAlphanumeric(v) <==> IsAsciiDigit(v) || IsAsciiAlpha(v)
    ensures IsControl(v) <==> IsC0Control(v) || IsCodePointBetween(v, 0x7F, 0x9F)
    ensures IsC0ControlOrSpace(v) <==> IsC0Control(v) || v == [SPACE]
    ensures IsAsciiWhitespace(v) <==> IsAsciiTabOrNewline(v) || v == [FF] || v == [SPACE]
    ensures IsScalarValue(v) <==> !IsSurrogate(v)
  {
  }

  /** Implications and disjointness that follow from the ranges. */
  lemma RangeConsequences(v: Text)
    ensures IsAsciiUpperHexDigit(v) ==> IsAsciiUpperAlpha(v)
    ensures IsAsciiLowerHexDigit(v) ==> IsAsciiLowerAlpha(v)
    ensures IsC0Control(v) ==> IsAsciiByte(v)
    ensures IsControl(v) ==> !IsAsciiAlphanumeric(v)
    ensures !(IsAsciiDigit(v) && IsAsciiUpperAlpha(v))
    ensures !(IsAsciiDigit(v) && IsAsciiLowerAlpha(v))
    ensures !(IsAsciiUpperAlpha(v) && IsAsciiLowerAlpha(v))
  {
  }

  /** On a single code point, surrogate and scalar value partition the code space. */
  lemma SingleCodePointSurrogate(c: CodePoint)
    ensures IsSurrogate([c]) <==> SURROGATE_MIN <= c <= SURROGATE_MAX
    ensures IsScalarValue([c]) <==> !IsSurrogate([c])
  {
  }
}
