/**
 * The context rules of RFC 5892 Appendix A that the derived-property cascade
 * consults for CONTEXTO and CONTEXTJ code points (Precis::getContextO and
 * Precis::getContextJ).
 */
module PrecisContext {
  import opened Wrappers
  import opened Unicode
  import opened Precis

  const SmallL: CodePoint := 0x6C      // LATIN SMALL LETTER L
  const DigitZero: CodePoint := 0x30   // PHP treats the one-character string "0" as false

  /** `$before`: the character before `pos`, when `pos > 0` and there is one. */
  function Before(s: Text, pos: nat): (b: Option<CodePoint>)
    ensures b.Some? <==> 0 < pos <= |s|
    ensures b.Some? ==> b.value == s[pos - 1]
  {
    if 0 < pos <= |s| then Some(s[pos - 1]) else None
  }

  /** `$after`: the character after `pos`, when there is one. */
  function After(s: Text, pos: nat): (a: Option<CodePoint>)
    ensures a.Some? <==> pos + 1 < |s|
    ensures a.Some? ==> a.value == s[pos + 1]
  {
    if pos + 1 < |s| then Some(s[pos + 1]) else None
  }

  /** `$x && preg_match('%\p{S}%u', $x)` for a neighbour `$x` and a script `S`. */
  predicate NeighbourInScript(u: Ucd, x: Option<CodePoint>, sc: Script) {
    x.Some? && x.value != DigitZero && u.script(x.value) == sc
  }

  predicate ContainsKana(u: Ucd, s: Text) {
    exists i | 0 <= i < |s| :: u.script(s[i]) in {Hiragana, Katakana, Han}
  }

  predicate ContainsArabicIndicDigit(s: Text) {
    exists i | 0 <= i < |s| :: IsArabicIndicDigit(s[i])
  }

  predicate ContainsExtendedArabicIndicDigit(s: Text) {
    exists i | 0 <= i < |s| :: IsExtendedArabicIndicDigit(s[i])
  }

  function Verdict(b: bool): Property {
    if b then PValid else Disallowed
  }

  /**
   * RFC 5892 Appendix A.3 to A.9. Past the end of the string the character is
   * the empty string, whose code point PHP reads as 0, so the call throws.
   */
  function ContextO(u: Ucd, s: Text, pos: nat): (r: Result<Property, Failure>)
    ensures r.Ok? ==> r.value in {PValid, Disallowed}
    ensures r.Err? <==> !(pos < |s| && IsExceptionContextO(s[pos]))
    ensures r.Err? ==> r.error == UnexpectedCharacter(pos)
    ensures pos < |s| && s[pos] == 0x00B7 ==>
              (r == Ok(PValid) <==> 0 < pos < |s| - 1 && s[pos - 1] == SmallL && s[pos + 1] == SmallL)
    ensures pos < |s| && s[pos] == 0x0375 ==>
              (r == Ok(PValid) <==> pos + 1 < |s| && s[pos + 1] != DigitZero && u.script(s[pos + 1]) == Greek)
    ensures pos < |s| && s[pos] in {0x05F3, 0x05F4} ==>
              (r == Ok(PValid) <==> 0 < pos && s[pos - 1] != DigitZero && u.script(s[pos - 1]) == Hebrew)
    ensures pos < |s| && s[pos] == 0x30FB ==>
              (r == Ok(PValid) <==> exists i | 0 <= i < |s| :: u.script(s[i]) in {Hiragana, Katakana, Han})
    ensures pos < |s| && IsArabicIndicDigit(s[pos]) ==>
              (r == Ok(PValid) <==> forall i | 0 <= i < |s| :: !IsExtendedArabicIndicDigit(s[i]))
    ensures pos < |s| && IsExtendedArabicIndicDigit(s[pos]) ==>
              (r == Ok(PValid) <==> forall i | 0 <= i < |s| :: !IsArabicIndicDigit(s[i]))
  {
    var cp := if pos < |s| then s[pos] else 0;
    var before := Before(s, pos);
    var after := After(s, pos);
    if cp == 0x00B7 then Ok(Verdict(before == Some(SmallL) && after == Some(SmallL)))
    else if cp == 0x0375 then Ok(Verdict(NeighbourInScript(u, after, Greek)))
    else if cp == 0x05F3 || cp == 0x05F4 then Ok(Verdict(NeighbourInScript(u, before, Hebrew)))
    else if cp == 0x30FB then Ok(Verdict(ContainsKana(u, s)))
    else if IsArabicIndicDigit(cp) then Ok(Verdict(!ContainsExtendedArabicIndicDigit(s)))
    else if IsExtendedArabicIndicDigit(cp) then Ok(Verdict(!ContainsArabicIndicDigit(s)))
    else Err(UnexpectedCharacter(pos))
  }

  /** The first test of RFC 5892 Appendix A.1 and A.2: a Virama followed by ZWNJ or ZWJ at `pos`. */
  predicate ViramaBefore(u: Ucd, s: Text, pos: nat) {
    0 < pos < |s| && u.virama(s[pos - 1]) && (s[pos] == ZWNJ || s[pos] == ZWJ)
  }

  /** Every character strictly between positions `a` and `b` is Transparent. */
  predicate TransparentBetween(u: Ucd, s: Text, a: int, b: int) {
    forall m | a < m < b && 0 <= m < |s| :: u.joiningType(s[m]) == Transparent
  }

  /**
   * The string contains, anywhere, a character whose joining type is in
   * `left`, then Transparent characters, then ZWNJ, then Transparent
   * characters, then a Right- or Dual-joining character.
   */
  predicate ZwnjJoins(u: Ucd, s: Text, left: set<JoiningType>) {
    exists i, k, j | 0 <= i < k < j < |s| ::
      && u.joiningType(s[i]) in left
      && TransparentBetween(u, s, i, k)
      && s[k] == ZWNJ
      && TransparentBetween(u, s, k, j)
      && u.joiningType(s[j]) in {RightJoining, DualJoining}
  }

  /** The left-hand joining types as the source writes them (CC_JT_RIGHT . CC_JT_DUAL). */
  const SourceLeft: set<JoiningType> := {RightJoining, DualJoining}

  /** The left-hand joining types of RFC 5892 Appendix A.1: Joining_Type L or D. */
  const RfcLeft: set<JoiningType> := {LeftJoining, DualJoining}

  /** getContextJ as written: the second test takes R or D joining characters on the left. */
  function ContextJAsWritten(u: Ucd, s: Text, pos: nat): (r: Result<Property, Failure>)
    ensures pos == 0 ==> r == Ok(Disallowed)
    ensures r.Ok? ==> r.value in {PValid, Disallowed}
    ensures r == Ok(PValid) <==> 0 < pos && (ViramaBefore(u, s, pos) || ZwnjJoins(u, s, SourceLeft))
    ensures r.Err? <==> 0 < pos && !ViramaBefore(u, s, pos) && !ZwnjJoins(u, s, SourceLeft)
  {
    if pos < 1 then Ok(Disallowed)
    else if ViramaBefore(u, s, pos) then Ok(PValid)
    else if ZwnjJoins(u, s, SourceLeft) then Ok(PValid)
    else Err(UnexpectedCharacter(pos))
  }

  /**
   * getContextJ with the left-hand side of the second test as RFC 5892
   * Appendix A.1 has it. Like the source it throws when neither test passes.
   */
  function ContextJ(u: Ucd, s: Text, pos: nat): (r: Result<Property, Failure>)
    ensures pos == 0 ==> r == Ok(Disallowed)
    ensures r.Ok? ==> r.value in {PValid, Disallowed}
    ensures r == Ok(PValid) <==> 0 < pos && (ViramaBefore(u, s, pos) || ZwnjJoins(u, s, RfcLeft))
    ensures r.Err? <==> 0 < pos && !ViramaBefore(u, s, pos) && !ZwnjJoins(u, s, RfcLeft)
  {
    if pos < 1 then Ok(Disallowed)
    else if ViramaBefore(u, s, pos) then Ok(PValid)
    else if ZwnjJoins(u, s, RfcLeft) then Ok(PValid)
    else Err(UnexpectedCharacter(pos))
  }

  /**
   * The string of DerivedPropertyValueTest::testContextJSecondTestReturnsPVALID,
   * U+A872 (Left joining) U+200C U+0622 (Right joining): the source throws
   * where the RFC rule, and the test, give PVALID.
   */
  lemma ContextJLeftJoiningBeforeZwnj(u: Ucd)
    requires u.joiningType(0xA872) == LeftJoining && u.joiningType(0x0622) == RightJoining
    requires !u.virama(0xA872)
    ensures ContextJAsWritten(u, [0xA872, ZWNJ, 0x0622], 1).Err?
    ensures ContextJ(u, [0xA872, ZWNJ, 0x0622], 1) == Ok(PValid)
  {
    var s: Text := [0xA872, ZWNJ, 0x0622];
    assert TransparentBetween(u, s, 0, 1) && TransparentBetween(u, s, 1, 2);
    assert ZwnjJoins(u, s, RfcLeft);
    assert u.joiningType(s[0]) !in SourceLeft;
  }

  /**
   * The converse: a Right-joining character before ZWNJ satisfies the source's
   * second test although RFC 5892 Appendix A.1 does not admit it.
   */
  lemma ContextJRightJoiningBeforeZwnj(u: Ucd)
    requires u.joiningType(0x0622) == RightJoining
    requires !u.virama(0x0622)
    ensures ContextJAsWritten(u, [0x0622, ZWNJ, 0x0622], 1) == Ok(PValid)
    ensures ContextJ(u, [0x0622, ZWNJ, 0x0622], 1).Err?
  {
    var s: Text := [0x0622, ZWNJ, 0x0622];
    assert TransparentBetween(u, s, 0, 1) && TransparentBetween(u, s, 1, 2);
    assert ZwnjJoins(u, s, SourceLeft);
    assert u.joiningType(s[0]) !in RfcLeft;
  }
}
