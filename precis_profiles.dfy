/**
 * The PRECIS profiles: UsernameCaseMapped, UsernameCasePreserved and
 * OpaqueString of RFC 7613 sections 3.2, 3.3 and 4.2, and Nickname of
 * RFC 7700 section 2. Each `prepare` checks the encoding and the string
 * class; each `enforce` prepares and then applies the profile's rules in
 * order (width mapping, additional mapping, case mapping, normalization,
 * directionality).
 */
module PrecisProfiles {
  import opened Wrappers
  import opened Unicode
  import opened Precis
  import opened PrecisClass
  import CaseFold
  import Bidi

  /**
   * What a profile function gives back: the prepared or enforced string,
   * `false`, or the exception that the string-class test threw.
   */
  datatype Answer = Accepted(text: Text) | Refused | Thrown(failure: Failure)

  /** The range `[\x{FF00}-\x{FFEF}]` of mapFullwidthHalfwidthToCompat. */
  predicate IsWidthChar(c: CodePoint) {
    0xFF00 <= c <= 0xFFEF
  }

  /** What one character of the string becomes under width mapping. */
  function WidthImage(u: Ucd, c: CodePoint): Text {
    if IsWidthChar(c) then u.normalize(NFKD, [c]) else [c]
  }

  /**
   * mapFullwidthHalfwidthToCompat: every fullwidth or halfwidth character is
   * replaced by its NFKD decomposition; a string without such characters is
   * left as it is.
   */
  function MapWidth(u: Ucd, s: Text): (r: Text)
    ensures (forall i | 0 <= i < |s| :: !IsWidthChar(s[i])) ==> r == s
  {
    if s == [] then [] else WidthImage(u, s[0]) + MapWidth(u, s[1..])
  }

  /** Width mapping works on each character alone, so it distributes over concatenation. */
  lemma {:induction false} MapWidthConcat(u: Ucd, a: Text, b: Text)
    ensures MapWidth(u, a + b) == MapWidth(u, a) + MapWidth(u, b)
    decreases |a|
  {
    if a == [] {
      assert a + b == b;
    } else {
      assert (a + b)[1..] == a[1..] + b;
      MapWidthConcat(u, a[1..], b);
    }
  }

  /** Width mapping touches only the characters of U+FF00 to U+FFEF. */
  lemma MapWidthTouchesOnlyWidthChars(u: Ucd, a: Text, c: CodePoint, b: Text)
    requires !IsWidthChar(c)
    ensures MapWidth(u, a + [c] + b) == MapWidth(u, a) + [c] + MapWidth(u, b)
  {
    MapWidthConcat(u, a + [c], b);
    MapWidthConcat(u, a, [c]);
  }

  /**
   * When no decomposition of a fullwidth or halfwidth character is itself
   * fullwidth or halfwidth (as in the Unicode data), width mapping is idempotent.
   */
  predicate ImagesAreNarrow(u: Ucd) {
    forall c | 0xFF00 <= c <= 0xFFEF :: forall i | 0 <= i < |WidthImage(u, c)| :: !IsWidthChar(WidthImage(u, c)[i])
  }

  lemma {:induction false} MapWidthIdempotent(u: Ucd, s: Text)
    requires ImagesAreNarrow(u)
    ensures MapWidth(u, MapWidth(u, s)) == MapWidth(u, s)
    decreases |s|
  {
    if s != [] {
      var head := WidthImage(u, s[0]);
      MapWidthConcat(u, head, MapWidth(u, s[1..]));
      MapWidthIdempotent(u, s[1..]);
      assert forall i | 0 <= i < |head| :: !IsWidthChar(head[i]);
    }
  }

  /** prepareUsername: encoding check, width mapping, then IdentifierClass. */
  function PrepareUsername(u: Ucd, s: Text): Answer {
    if !u.wellFormed(s) then Refused
    else
      var mapped := MapWidth(u, s);
      match ClassMembership(u, mapped, IdentifierTest)
      case Err(f) => Thrown(f)
      case Ok(b) => if b then Accepted(mapped) else Refused
  }

  /** prepareUsernameCaseMapped. */
  function PrepareUsernameCaseMapped(u: Ucd, s: Text): Answer {
    PrepareUsername(u, s)
  }

  /** prepareUsernameCasePreserved. */
  function PrepareUsernameCasePreserved(u: Ucd, s: Text): Answer {
    PrepareUsername(u, s)
  }

  /** prepareOpaqueString: encoding check, then FreeformClass; the string itself is returned. */
  function PrepareOpaqueString(u: Ucd, s: Text): Answer {
    if !u.wellFormed(s) then Refused
    else
      match ClassMembership(u, s, FreeformTest)
      case Err(f) => Thrown(f)
      case Ok(b) => if b then Accepted(s) else Refused
  }

  /** prepareNickname. */
  function PrepareNickname(u: Ucd, s: Text): Answer {
    PrepareOpaqueString(u, s)
  }

  /**
   * The Username prepare step returns the width-mapped input exactly when it
   * is well formed and, mapped, an identifier; it throws only what the class
   * test throws. Every prepared username is also in FreeformClass.
   */
  lemma PrepareUsernameIff(u: Ucd, s: Text)
    ensures PrepareUsername(u, s).Accepted? <==>
              u.wellFormed(s) && ClassMembership(u, MapWidth(u, s), IdentifierTest) == Ok(true)
    ensures PrepareUsername(u, s).Accepted? ==>
              && PrepareUsername(u, s).text == MapWidth(u, s)
              && ClassMembership(u, PrepareUsername(u, s).text, FreeformTest) == Ok(true)
    ensures PrepareUsername(u, s).Thrown? <==>
              u.wellFormed(s) && ClassMembership(u, MapWidth(u, s), IdentifierTest).Err?
    ensures (forall i | 0 <= i < |s| :: !IsWidthChar(s[i])) && PrepareUsername(u, s).Accepted? ==>
              PrepareUsername(u, s).text == s
  {
    var m := MapWidth(u, s);
    IdentifierImpliesFreeform(Properties(u, m), 0);
  }

  /** OpaqueString and Nickname prepare return their input unchanged, or refuse, or throw. */
  lemma PrepareOpaqueStringIff(u: Ucd, s: Text)
    ensures PrepareOpaqueString(u, s).Accepted? <==>
              u.wellFormed(s) && ClassMembership(u, s, FreeformTest) == Ok(true)
    ensures PrepareOpaqueString(u, s).Accepted? ==> PrepareOpaqueString(u, s).text == s
    ensures PrepareOpaqueString(u, s).Thrown? <==> u.wellFormed(s) && ClassMembership(u, s, FreeformTest).Err?
    ensures PrepareNickname(u, s) == PrepareOpaqueString(u, s)
  {
  }

  /** The mapping steps of enforceUsername: fold (for UsernameCaseMapped), then NFC. */
  function UsernameMapping(u: Ucd, fold: CaseFold.FoldTable, p: Text, caseMapped: bool): Text {
    u.normalize(NFC, if caseMapped then CaseFold.Fold(u, fold, p, true) else p)
  }

  /**
   * enforceUsername: prepare, then (for UsernameCaseMapped) fold upper- and
   * title-case characters, normalize to NFC and apply the Bidi Rule of
   * RFC 5893.
   */
  function EnforceUsername(u: Ucd, fold: CaseFold.FoldTable, bidi: Bidi.BidiTables, s: Text, caseMapped: bool): Answer {
    match PrepareUsername(u, s)
    case Refused => Refused
    case Thrown(f) => Thrown(f)
    case Accepted(p) =>
      var normalized := UsernameMapping(u, fold, p, caseMapped);
      if Bidi.Rule(u, bidi, normalized) then Accepted(normalized) else Refused
  }

  /** enforceUsername with `Bidi::rule` as the code has it. */
  function EnforceUsernameAsWritten(u: Ucd, fold: CaseFold.FoldTable, bidi: Bidi.BidiTables, s: Text, caseMapped: bool): Answer {
    match PrepareUsername(u, s)
    case Refused => Refused
    case Thrown(f) => Thrown(f)
    case Accepted(p) =>
      var normalized := UsernameMapping(u, fold, p, caseMapped);
      if Bidi.BidiRuleAsWritten(u, bidi, normalized) then Accepted(normalized) else Refused
  }

  /**
   * The two enforce functions differ only in the rule they apply: they agree
   * when the mapped string has two or more characters and does not end in
   * NSM, and as written a mapped string of at most one character is always
   * refused, where RFC 5893 accepts one L, R or AL character.
   */
  lemma EnforceUsernameAsWrittenAgrees(u: Ucd, fold: CaseFold.FoldTable, bidi: Bidi.BidiTables, s: Text, caseMapped: bool)
    ensures !PrepareUsername(u, s).Accepted? ==>
              EnforceUsernameAsWritten(u, fold, bidi, s, caseMapped) == EnforceUsername(u, fold, bidi, s, caseMapped)
    ensures PrepareUsername(u, s).Accepted? ==>
              var n := UsernameMapping(u, fold, PrepareUsername(u, s).text, caseMapped);
              && (|n| >= 2 && Bidi.ClassAt(u, bidi, n, |n| - 1) != Bidi.NSM ==>
                    EnforceUsernameAsWritten(u, fold, bidi, s, caseMapped) == EnforceUsername(u, fold, bidi, s, caseMapped))
              && (|n| <= 1 && Bidi.GetClass(u, bidi, []) == Bidi.BN ==>
                    EnforceUsernameAsWritten(u, fold, bidi, s, caseMapped) == Refused)
              && (|n| == 1 && Bidi.GetClass(u, bidi, n) in {Bidi.L, Bidi.R, Bidi.AL} ==>
                    EnforceUsername(u, fold, bidi, s, caseMapped) == Accepted(n))
  {
    if PrepareUsername(u, s).Accepted? {
      var n := UsernameMapping(u, fold, PrepareUsername(u, s).text, caseMapped);
      assert EnforceUsername(u, fold, bidi, s, caseMapped) == if Bidi.Rule(u, bidi, n) then Accepted(n) else Refused;
      assert EnforceUsernameAsWritten(u, fold, bidi, s, caseMapped) ==
               if Bidi.BidiRuleAsWritten(u, bidi, n) then Accepted(n) else Refused;
      RulesOnShortStrings(u, bidi, n);
    }
  }

  /** Where the Bidi Rule as written and the corrected rule agree, and where they do not. */
  lemma RulesOnShortStrings(u: Ucd, bidi: Bidi.BidiTables, n: Text)
    ensures |n| >= 2 && Bidi.ClassAt(u, bidi, n, |n| - 1) != Bidi.NSM ==> Bidi.BidiRuleAsWritten(u, bidi, n) == Bidi.Rule(u, bidi, n)
    ensures |n| <= 1 && Bidi.GetClass(u, bidi, []) == Bidi.BN ==> !Bidi.BidiRuleAsWritten(u, bidi, n)
    ensures |n| == 1 && Bidi.GetClass(u, bidi, n) in {Bidi.L, Bidi.R, Bidi.AL} ==> Bidi.Rule(u, bidi, n)
  {
    if |n| >= 2 && Bidi.ClassAt(u, bidi, n, |n| - 1) != Bidi.NSM {
      Bidi.RuleAsWrittenAgrees(u, bidi, n);
    }
    if |n| == 1 {
      assert n == [n[0]];
      if Bidi.GetClass(u, bidi, []) == Bidi.BN {
        Bidi.OneCharacterRejected(u, bidi, n[0]);
      }
      if Bidi.GetClass(u, bidi, n) in {Bidi.L, Bidi.R, Bidi.AL} {
        assert Bidi.ClassAt(u, bidi, n, 0) == Bidi.GetClass(u, bidi, n);
      }
    }
    if |n| == 0 && Bidi.GetClass(u, bidi, []) == Bidi.BN {
      Bidi.OneCharacterRejected(u, bidi, 0);
    }
  }

  /** enforceUsernameCaseMapped. */
  function EnforceUsernameCaseMapped(u: Ucd, fold: CaseFold.FoldTable, bidi: Bidi.BidiTables, s: Text): Answer {
    EnforceUsername(u, fold, bidi, s, true)
  }

  /** enforceUsernameCasePreserved. */
  function EnforceUsernameCasePreserved(u: Ucd, fold: CaseFold.FoldTable, bidi: Bidi.BidiTables, s: Text): Answer {
    EnforceUsername(u, fold, bidi, s, false)
  }

  /** `preg_replace('%\p{Zs}%u', ' ', ...)`: every space separator becomes U+0020. */
  function MapSpaces(u: Ucd, s: Text): (r: Text)
    ensures |r| == |s|
    ensures forall i | 0 <= i < |s| :: r[i] == if u.category(s[i]) == Zs then Space else s[i]
  {
    if s == [] then [] else [if u.category(s[0]) == Zs then Space else s[0]] + MapSpaces(u, s[1..])
  }

  const Space: CodePoint := 0x20

  /** After space mapping the only space separator left is U+0020, so mapping again changes nothing. */
  lemma MapSpacesIdempotent(u: Ucd, s: Text)
    ensures forall i | 0 <= i < |s| :: u.category(MapSpaces(u, s)[i]) == Zs ==> MapSpaces(u, s)[i] == Space
    ensures MapSpaces(u, MapSpaces(u, s)) == MapSpaces(u, s)
  {
  }

  /** enforceOpaqueString: prepare, map spaces to U+0020, normalize to NFC; no directionality rule. */
  function EnforceOpaqueString(u: Ucd, s: Text): Answer {
    match PrepareOpaqueString(u, s)
    case Refused => Refused
    case Thrown(f) => Thrown(f)
    case Accepted(p) => Accepted(u.normalize(NFC, MapSpaces(u, p)))
  }

  predicate IsSpace(u: Ucd, c: CodePoint) {
    u.category(c) == Zs
  }

  /**
   * `preg_replace('%\p{Zs}+%u', ' ', ...)`: every maximal run of space
   * separators becomes one U+0020. `inRun` says that the characters just
   * before `s` were such a run, already replaced.
   */
  function CollapseFrom(u: Ucd, s: Text, inRun: bool): Text {
    if s == [] then []
    else if IsSpace(u, s[0]) then
      if inRun then CollapseFrom(u, s[1..], true) else [Space] + CollapseFrom(u, s[1..], true)
    else [s[0]] + CollapseFrom(u, s[1..], false)
  }

  function CollapseSpaces(u: Ucd, s: Text): Text {
    CollapseFrom(u, s, false)
  }

  /** Every space separator of `s` is U+0020. */
  predicate OnlyAsciiSpaces(u: Ucd, s: Text) {
    forall i | 0 <= i < |s| :: IsSpace(u, s[i]) ==> s[i] == Space
  }

  /** No two space separators of `s` are next to each other. */
  predicate NoAdjacentSpaces(u: Ucd, s: Text) {
    forall i | 0 <= i < |s| - 1 :: !(IsSpace(u, s[i]) && IsSpace(u, s[i + 1]))
  }

  /**
   * The result of collapsing holds no space separator but U+0020, and,
   * when U+0020 is itself a space separator, never two in a row.
   */
  lemma {:induction false} CollapseShape(u: Ucd, s: Text, inRun: bool)
    ensures OnlyAsciiSpaces(u, CollapseFrom(u, s, inRun))
    ensures IsSpace(u, Space) ==> NoAdjacentSpaces(u, CollapseFrom(u, s, inRun))
    ensures inRun && CollapseFrom(u, s, inRun) != [] ==> !IsSpace(u, CollapseFrom(u, s, inRun)[0])
    decreases |s|
  {
    if s != [] {
      var inner := IsSpace(u, s[0]);
      CollapseShape(u, s[1..], inner);
      var tail := CollapseFrom(u, s[1..], inner);
      var r := CollapseFrom(u, s, inRun);
      if !(inner && inRun) {
        var head := if inner then Space else s[0];
        assert r == [head] + tail;
        assert forall i | 1 <= i < |r| :: r[i] == tail[i - 1];
        assert IsSpace(u, head) ==> head == Space;
      }
    }
  }

  /** The characters that are not space separators, in order. */
  function NonSpaces(u: Ucd, s: Text): Text {
    if s == [] then []
    else if IsSpace(u, s[0]) then NonSpaces(u, s[1..])
    else [s[0]] + NonSpaces(u, s[1..])
  }

  /** Collapsing keeps every other character, in order, when U+0020 is a space separator. */
  lemma {:induction false} CollapseKeepsNonSpaces(u: Ucd, s: Text, inRun: bool)
    requires IsSpace(u, Space)
    ensures NonSpaces(u, CollapseFrom(u, s, inRun)) == NonSpaces(u, s)
    decreases |s|
  {
    if s != [] {
      var inner := IsSpace(u, s[0]);
      CollapseKeepsNonSpaces(u, s[1..], inner);
      var tail := CollapseFrom(u, s[1..], inner);
      if inner && !inRun {
        assert ([Space] + tail)[1..] == tail;
      } else if !inner {
        assert ([s[0]] + tail)[1..] == tail;
      }
    }
  }

  /** A string without space separators is not changed by collapsing. */
  lemma {:induction false} CollapseWithoutSpaces(u: Ucd, s: Text, inRun: bool)
    requires forall i | 0 <= i < |s| :: !IsSpace(u, s[i])
    ensures CollapseFrom(u, s, inRun) == s
    decreases |s|
  {
    if s != [] {
      CollapseWithoutSpaces(u, s[1..], false);
    }
  }

  /** The characters PHP's `trim` strips by default: space, tab, LF, CR, NUL and vertical tab. */
  predicate IsTrimmed(c: CodePoint) {
    c in {0x20, 0x09, 0x0A, 0x0D, 0x00, 0x0B}
  }

  /** The number of leading characters `trim` strips. */
  function Leading(s: Text): (k: nat)
    ensures k <= |s|
    ensures forall i | 0 <= i < k :: IsTrimmed(s[i])
    ensures k < |s| ==> !IsTrimmed(s[k])
  {
    if s == [] || !IsTrimmed(s[0]) then 0 else 1 + Leading(s[1..])
  }

  /** The number of trailing characters `trim` strips. */
  function Trailing(s: Text): (k: nat)
    ensures k <= |s|
    ensures forall i | |s| - k <= i < |s| :: IsTrimmed(s[i])
    ensures k < |s| ==> !IsTrimmed(s[|s| - 1 - k])
  {
    if s == [] || !IsTrimmed(s[|s| - 1]) then 0 else 1 + Trailing(s[..|s| - 1])
  }

  /**
   * PHP `trim`: the slice left after stripping the default characters from
   * both ends; it is empty, or it starts and ends with a character `trim`
   * keeps, and everything before and after it is stripped.
   */
  function Trim(s: Text): (r: Text)
    ensures r == [] || (!IsTrimmed(r[0]) && !IsTrimmed(r[|r| - 1]))
    ensures r == [] <==> forall i | 0 <= i < |s| :: IsTrimmed(s[i])
    ensures Leading(s) + |r| <= |s| && r == s[Leading(s)..Leading(s) + |r|]
    ensures forall i | Leading(s) + |r| <= i < |s| :: IsTrimmed(s[i])
  {
    var a := Leading(s);
    if a == |s| then []
    else s[a..|s| - Trailing(s)]
  }

  /** Trimming again changes nothing, and a string with kept ends is left as it is. */
  lemma TrimIdempotent(s: Text)
    ensures Trim(Trim(s)) == Trim(s)
    ensures s == [] || (!IsTrimmed(s[0]) && !IsTrimmed(s[|s| - 1])) ==> Trim(s) == s
  {
    TrimKeptEnds(Trim(s));
    if s == [] || (!IsTrimmed(s[0]) && !IsTrimmed(s[|s| - 1])) {
      TrimKeptEnds(s);
    }
  }

  lemma TrimKeptEnds(s: Text)
    requires s == [] || (!IsTrimmed(s[0]) && !IsTrimmed(s[|s| - 1]))
    ensures Trim(s) == s
  {
    if s != [] {
      assert Leading(s) == 0;
      assert Trailing(s) == 0;
    }
  }

  /** The Nickname profile's additional mapping: collapse space runs, then trim. */
  function NicknameMapping(u: Ucd, s: Text): Text {
    Trim(CollapseSpaces(u, s))
  }

  /**
   * enforceNickname: prepare, collapse and trim spaces, fold upper- and
   * title-case characters, normalize to NFKC; no directionality rule and,
   * as written, no test for an empty result.
   */
  function EnforceNickname(u: Ucd, fold: CaseFold.FoldTable, s: Text): Answer {
    match PrepareNickname(u, s)
    case Refused => Refused
    case Thrown(f) => Thrown(f)
    case Accepted(p) => Accepted(u.normalize(NFKC, CaseFold.Fold(u, fold, NicknameMapping(u, p), true)))
  }

  /**
   * Every enforce step refuses whenever its prepare step refuses, throws what
   * it throws, and accepts only strings that its prepare step accepts.
   */
  lemma EnforceFollowsPrepare(u: Ucd, fold: CaseFold.FoldTable, bidi: Bidi.BidiTables, s: Text, caseMapped: bool)
    ensures PrepareUsername(u, s).Refused? ==> EnforceUsername(u, fold, bidi, s, caseMapped).Refused?
    ensures PrepareUsername(u, s).Thrown? ==> EnforceUsername(u, fold, bidi, s, caseMapped) == PrepareUsername(u, s)
    ensures EnforceUsername(u, fold, bidi, s, caseMapped).Accepted? ==> PrepareUsername(u, s).Accepted?
    ensures PrepareOpaqueString(u, s).Refused? ==> EnforceOpaqueString(u, s).Refused?
    ensures PrepareOpaqueString(u, s).Thrown? ==> EnforceOpaqueString(u, s) == PrepareOpaqueString(u, s)
    ensures PrepareOpaqueString(u, s).Accepted? <==> EnforceOpaqueString(u, s).Accepted?
    ensures PrepareNickname(u, s).Refused? ==> EnforceNickname(u, fold, s).Refused?
    ensures PrepareNickname(u, s).Thrown? ==> EnforceNickname(u, fold, s) == PrepareNickname(u, s)
    ensures PrepareNickname(u, s).Accepted? <==> EnforceNickname(u, fold, s).Accepted?
  {
  }

  /**
   * An enforced username satisfies the Bidi Rule and is the NFC form of the
   * prepared string, folded first for UsernameCaseMapped.
   */
  lemma EnforcedUsername(u: Ucd, fold: CaseFold.FoldTable, bidi: Bidi.BidiTables, s: Text, caseMapped: bool)
    ensures EnforceUsername(u, fold, bidi, s, caseMapped).Accepted? ==>
              && Bidi.Rule(u, bidi, EnforceUsername(u, fold, bidi, s, caseMapped).text)
              && EnforceUsername(u, fold, bidi, s, caseMapped).text == UsernameMapping(u, fold, MapWidth(u, s), caseMapped)
  {
  }

  /**
   * The two Username profiles agree on strings whose width-mapped form has no
   * upper- or title-case character.
   */
  lemma CaseMappedAgreesWithoutCapitals(u: Ucd, fold: CaseFold.FoldTable, bidi: Bidi.BidiTables, s: Text)
    requires forall i | 0 <= i < |MapWidth(u, s)| :: u.category(MapWidth(u, s)[i]) !in {Lu, Lt}
    ensures EnforceUsernameCaseMapped(u, fold, bidi, s) == EnforceUsernameCasePreserved(u, fold, bidi, s)
  {
    var m := MapWidth(u, s);
    CaseFold.RestrictedFoldChangesOnlyUpperTitle(u, fold, m);
    assert CaseFold.Fold(u, fold, m, true) == m;
  }

  predicate AllTrimmed(s: Text) {
    forall i | 0 <= i < |s| :: IsTrimmed(s[i])
  }

  /** Every character is a space separator or one that `trim` strips. */
  predicate AllBlank(u: Ucd, s: Text) {
    forall i | 0 <= i < |s| :: IsSpace(u, s[i]) || IsTrimmed(s[i])
  }

  /** Collapsing leaves only characters `trim` strips exactly when the input holds only blanks. */
  lemma {:induction false} CollapseAllTrimmed(u: Ucd, s: Text, inRun: bool)
    ensures AllTrimmed(CollapseFrom(u, s, inRun)) <==> AllBlank(u, s)
    decreases |s|
  {
    if s != [] {
      var inner := IsSpace(u, s[0]);
      CollapseAllTrimmed(u, s[1..], inner);
      var tail := CollapseFrom(u, s[1..], inner);
      var r := CollapseFrom(u, s, inRun);
      assert AllBlank(u, s) <==> (IsSpace(u, s[0]) || IsTrimmed(s[0])) && AllBlank(u, s[1..]) by {
        assert forall i | 1 <= i < |s| :: s[1..][i - 1] == s[i];
      }
      if !(inner && inRun) {
        var head := if inner then Space else s[0];
        assert r == [head] + tail;
        assert r[0] == head && forall i | 0 <= i < |tail| :: r[i + 1] == tail[i];
        assert AllTrimmed(r) <==> IsTrimmed(head) && AllTrimmed(tail) by {
          if IsTrimmed(head) && AllTrimmed(tail) {
            forall i | 0 <= i < |r|
              ensures IsTrimmed(r[i])
            {
              if i > 0 {
                assert IsTrimmed(tail[i - 1]);
              }
            }
          }
        }
      }
    }
  }

  /** A slice keeps both properties of a collapsed string. */
  lemma SliceKeepsSpaceShape(u: Ucd, s: Text, a: nat, b: nat)
    requires a <= b <= |s|
    ensures OnlyAsciiSpaces(u, s) ==> OnlyAsciiSpaces(u, s[a..b])
    ensures NoAdjacentSpaces(u, s) ==> NoAdjacentSpaces(u, s[a..b])
  {
    assert forall i | 0 <= i < b - a :: s[a..b][i] == s[a + i];
  }

  /**
   * The Nickname mapping leaves no space separator but U+0020, never two in
   * a row, neither at either end, and it is empty exactly when the input
   * holds nothing but space separators and characters `trim` strips.
   */
  lemma NicknameMappingShape(u: Ucd, s: Text)
    ensures OnlyAsciiSpaces(u, NicknameMapping(u, s))
    ensures IsSpace(u, Space) ==> NoAdjacentSpaces(u, NicknameMapping(u, s))
    ensures NicknameMapping(u, s) == [] || (!IsTrimmed(NicknameMapping(u, s)[0]) && !IsTrimmed(NicknameMapping(u, s)[|NicknameMapping(u, s)| - 1]))
    ensures NicknameMapping(u, s) == [] <==> AllBlank(u, s)
  {
    var c := CollapseSpaces(u, s);
    CollapseShape(u, s, false);
    CollapseAllTrimmed(u, s, false);
    var k := Leading(c);
    SliceKeepsSpaceShape(u, c, k, k + |Trim(c)|);
  }

  /**
   * An enforced nickname is the NFKC form of the folded Nickname mapping of
   * the input; as written there is no test for an empty result, so an input
   * of blanks alone is enforced to the empty string.
   */
  lemma EnforcedNickname(u: Ucd, fold: CaseFold.FoldTable, s: Text)
    ensures EnforceNickname(u, fold, s).Accepted? ==>
              EnforceNickname(u, fold, s).text == u.normalize(NFKC, CaseFold.Fold(u, fold, NicknameMapping(u, s), true))
    ensures EnforceNickname(u, fold, s).Accepted? && AllBlank(u, s) && u.normalize(NFKC, []) == [] ==>
              EnforceNickname(u, fold, s).text == []
  {
    NicknameMappingShape(u, s);
  }

  /**
   * An enforced opaque string is the NFC form of the space-mapped input; an
   * accepted input whose only space separator is U+0020 and which is already
   * in NFC is enforced to itself.
   */
  lemma EnforcedOpaqueString(u: Ucd, s: Text)
    ensures EnforceOpaqueString(u, s).Accepted? ==>
              EnforceOpaqueString(u, s).text == u.normalize(NFC, MapSpaces(u, s))
    ensures EnforceOpaqueString(u, s).Accepted? && OnlyAsciiSpaces(u, s) && u.normalize(NFC, s) == s ==>
              EnforceOpaqueString(u, s).text == s
  {
    if OnlyAsciiSpaces(u, s) {
      assert MapSpaces(u, s) == s;
    }
  }

  /**
   * The empty username is refused by both Username profiles, since the Bidi
   * Rule needs a first character (given that NFC maps the empty string to
   * itself).
   */
  lemma EmptyUsernameRefused(u: Ucd, fold: CaseFold.FoldTable, bidi: Bidi.BidiTables, caseMapped: bool)
    requires u.normalize(NFC, []) == []
    ensures !EnforceUsername(u, fold, bidi, [], caseMapped).Accepted?
  {
  }
}
