/**
 * The constants of the PRECIS framework (RFC 7564): string classes, code point
 * properties and the character sets the derived-property cascade tests, with
 * the `inCharset` and `getHasCompat` tests.
 */
module Precis {
  import opened Wrappers
  import opened Unicode

  /** PRECIS string classes (RFC 7564 section 4). */
  datatype StringClass = Nul | Freeform | Identifier

  /** PRECIS code point properties (RFC 7564 section 8). */
  datatype Property = Unassigned | Disallowed | FreePVal | PValid

  /** The exceptions the library throws, as values. */
  datatype Failure =
    | MustBeOneCharacter             // inCharset given a string whose length is not one
    | UnexpectedCharacter(pos: int)  // a context rule given a character it does not handle

  /** The character sets tested by the cascade, one per CC_ constant (and HasCompat). */
  datatype Charset =
    | ExceptionsPValid | ExceptionsDisallowed | ExceptionsContextO
    | UnassignedChars | Ascii7 | JoinControl | OldHangulJamo | Ignorable | Controls
    | HasCompat | LetterDigits | OtherLetterDigits | Spaces | Symbols | Punctuation

  const ZWNJ: CodePoint := 0x200C
  const ZWJ: CodePoint := 0x200D

  predicate IsExceptionPValid(c: CodePoint) {
    c in {0x00DF, 0x03C2, 0x06FD, 0x06FE, 0x0F0B, 0x3007}
  }

  predicate IsArabicIndicDigit(c: CodePoint) { 0x0660 <= c <= 0x0669 }

  predicate IsExtendedArabicIndicDigit(c: CodePoint) { 0x06F0 <= c <= 0x06F9 }

  predicate IsExceptionContextO(c: CodePoint) {
    c in {0x00B7, 0x0375, 0x05F3, 0x05F4, 0x30FB} || IsArabicIndicDigit(c) || IsExtendedArabicIndicDigit(c)
  }

  predicate IsExceptionDisallowed(c: CodePoint) {
    c in {0x0640, 0x07FA, 0x302E, 0x302F, 0x303B} || 0x3031 <= c <= 0x3035
  }

  predicate IsOldHangulJamo(c: CodePoint) {
    || 0x1100 <= c <= 0x115F || 0xA960 <= c <= 0xA97C || 0x1160 <= c <= 0x11A7
    || 0xD7B0 <= c <= 0xD7C6 || 0x11A8 <= c <= 0x11FF || 0xD7CB <= c <= 0xD7FB
  }

  /** `Normalizer::normalize($char, FORM_KC) !== $char` (getHasCompat). */
  predicate HasCompatibilityMapping(u: Ucd, ch: Text) {
    u.normalize(NFKC, ch) != ch
  }

  /** Whether a single code point is in the character set. */
  predicate Member(u: Ucd, cs: Charset, c: CodePoint) {
    match cs
    case ExceptionsPValid => IsExceptionPValid(c)
    case ExceptionsDisallowed => IsExceptionDisallowed(c)
    case ExceptionsContextO => IsExceptionContextO(c)
    case UnassignedChars => u.category(c) == Cn
    case Ascii7 => 0x21 <= c <= 0x7E
    case JoinControl => c == ZWNJ || c == ZWJ
    case OldHangulJamo => IsOldHangulJamo(c)
    case Ignorable => u.category(c) == Cn || u.defaultIgnorable(c)
    case Controls => u.category(c) == Cc
    case HasCompat => HasCompatibilityMapping(u, [c])
    case LetterDigits => u.category(c) in {Ll, Lu, Lo, Nd, Lm, Mn, Mc}
    case OtherLetterDigits => u.category(c) in {Lt, Nl, No, Me}
    case Spaces => u.category(c) == Zs
    case Symbols => u.category(c) in {Sm, Sc, Sk, So}
    case Punctuation => u.category(c) in {Pc, Pd, Ps, Pe, Pi, Pf, Po}
  }

  /**
   * One test of the cascade applied to the string `ch` that `mb_substr` cut
   * out: `inCharset` throws unless `ch` is one character, while `getHasCompat`
   * is called on `ch` as it is.
   */
  function InCharset(u: Ucd, cs: Charset, ch: Text): (r: Result<bool, Failure>)
    ensures cs != HasCompat ==> (r.Err? <==> |ch| != 1)
    ensures cs == HasCompat ==> r == Ok(HasCompatibilityMapping(u, ch))
    ensures |ch| == 1 ==> r == Ok(Member(u, cs, ch[0]))
  {
    if cs == HasCompat then
      assert |ch| == 1 ==> ch == [ch[0]];
      Ok(HasCompatibilityMapping(u, ch))
    else if |ch| != 1 then Err(MustBeOneCharacter)
    else Ok(Member(u, cs, ch[0]))
  }

  /** `mb_substr($string, $pos, 1)`: the character at `pos`, or the empty string past the end. */
  function CharAt(s: Text, pos: nat): (ch: Text)
    ensures pos < |s| ==> ch == [s[pos]]
    ensures pos >= |s| ==> ch == []
  {
    if pos < |s| then [s[pos]] else []
  }
}
