/**
 * The Unicode Character Database as the library sees it. Every query the PHP
 * code makes of PCRE's `\p{..}` classes, of `Normalizer::normalize` or of
 * `mb_check_encoding` is a field of `Ucd`, so that the rest of the model is
 * stated for every possible database at once.
 */
module Unicode {

  /** A Unicode code point as a PHP integer. */
  type CodePoint = int

  /** A string, as the sequence of its code points. */
  type Text = seq<CodePoint>

  datatype GeneralCategory =
    | Lu | Ll | Lt | Lm | Lo
    | Mn | Mc | Me
    | Nd | Nl | No
    | Pc | Pd | Ps | Pe | Pi | Pf | Po
    | Sm | Sc | Sk | So
    | Zs | Zl | Zp
    | Cc | Cf | Cs | Co | Cn

  /** The scripts that the context rules ask about; every other script is `OtherScript`. */
  datatype Script = Greek | Hebrew | Hiragana | Katakana | Han | OtherScript

  /** The Unicode Joining_Type property. */
  datatype JoiningType = RightJoining | DualJoining | LeftJoining | JoinCausing | Transparent | NonJoining

  datatype NormalForm = NFC | NFKC | NFKD

  datatype Ucd = Ucd(
    category: CodePoint -> GeneralCategory,     // \p{Lu}, \p{Cn}, ...
    script: CodePoint -> Script,                // \p{Greek}, \p{Hebrew}, \p{Han}, ...
    joiningType: CodePoint -> JoiningType,      // the CC_JT_ constants
    virama: CodePoint -> bool,                  // CC_CCC_VIRAMA
    defaultIgnorable: CodePoint -> bool,        // the explicit list in CC_IGNORABLE after \p{Cn}
    bidiUnassigned: CodePoint -> bool,          // \p{Cu} as used by Bidi::getClass
    normalize: (NormalForm, Text) -> Text,      // Normalizer::normalize
    wellFormed: Text -> bool)                   // mb_check_encoding($string, 'UTF-8')
}
