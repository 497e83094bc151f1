/**
 * The derived-property cascade of RFC 7564 section 8 (Precis::getPrecisProperty):
 * an ordered list of (test, outcome) cases in which the first test that
 * matches decides, with DISALLOWED when none does.
 */
module PrecisCascade {
  import opened Wrappers
  import opened Unicode
  import opened Precis
  import opened PrecisContext

  /** The second half of a case: a fixed property, or a context rule to run. */
  datatype Outcome = Yield(prop: Property) | RunContextO | RunContextJ

  datatype Case = Case(test: Charset, outcome: Outcome)

  /** `$ifelse`, in the source's order. */
  const IfElse: seq<Case> := [
    Case(ExceptionsPValid, Yield(PValid)),
    Case(ExceptionsDisallowed, Yield(Disallowed)),
    Case(ExceptionsContextO, RunContextO),
    Case(UnassignedChars, Yield(Unassigned)),
    Case(Ascii7, Yield(PValid)),
    Case(JoinControl, RunContextJ),
    Case(OldHangulJamo, Yield(Disallowed)),
    Case(Ignorable, Yield(Disallowed)),
    Case(Controls, Yield(Disallowed)),
    Case(HasCompat, Yield(FreePVal)),
    Case(LetterDigits, Yield(PValid)),
    Case(OtherLetterDigits, Yield(FreePVal)),
    Case(Spaces, Yield(FreePVal)),
    Case(Symbols, Yield(FreePVal)),
    Case(Punctuation, Yield(FreePVal))
  ]

  /** `is_int($prop) ? $prop : call_user_func($prop, $string, $pos)`. */
  function Apply(u: Ucd, s: Text, pos: nat, o: Outcome): Result<Property, Failure> {
    match o
    case Yield(p) => Ok(p)
    case RunContextO => ContextO(u, s, pos)
    case RunContextJ => ContextJ(u, s, pos)
  }

  /** The cases from index `k` on, evaluated in order: the first that matches wins; an exception aborts. */
  function Decide(u: Ucd, s: Text, pos: nat, k: nat): Result<Property, Failure>
    decreases |IfElse| - k
  {
    if k >= |IfElse| then Ok(Disallowed)
    else match InCharset(u, IfElse[k].test, CharAt(s, pos))
      case Err(e) => Err(e)
      case Ok(true) => Apply(u, s, pos, IfElse[k].outcome)
      case Ok(false) => Decide(u, s, pos, k + 1)
  }

  /** The derived property of the character at `pos` of `s`. */
  function PrecisProperty(u: Ucd, s: Text, pos: nat): Result<Property, Failure> {
    Decide(u, s, pos, 0)
  }

  /** getPrecisProperty: the foreach over `$ifelse` with its early returns. */
  method GetPrecisProperty(u: Ucd, s: Text, pos: nat) returns (r: Result<Property, Failure>)
    ensures r == PrecisProperty(u, s, pos)
  {
    var ch := CharAt(s, pos);
    var i := 0;
    while i < |IfElse|
      invariant 0 <= i <= |IfElse|
      invariant Decide(u, s, pos, i) == PrecisProperty(u, s, pos)
    {
      var t := InCharset(u, IfElse[i].test, ch);
      if t.Err? {
        return Err(t.error);
      }
      if t.value {
        return Apply(u, s, pos, IfElse[i].outcome);
      }
      i := i + 1;
    }
    return Ok(Disallowed);
  }

  /**
   * The cascade of RFC 7564 section 8 written out as one conditional, in the
   * order the source lists its cases.
   */
  function ReferenceProperty(u: Ucd, s: Text, pos: nat): Result<Property, Failure> {
    if pos >= |s| then Err(MustBeOneCharacter)
    else
      var c := s[pos];
      if IsExceptionPValid(c) then Ok(PValid)
      else if IsExceptionDisallowed(c) then Ok(Disallowed)
      else if IsExceptionContextO(c) then ContextO(u, s, pos)
      else if u.category(c) == Cn then Ok(Unassigned)
      else if 0x21 <= c <= 0x7E then Ok(PValid)
      else if c == ZWNJ || c == ZWJ then ContextJ(u, s, pos)
      else Ok(ReferenceByCategory(u, c))
  }

  /** The rest of the cascade, which depends on the code point alone. */
  function ReferenceByCategory(u: Ucd, c: CodePoint): Property {
    var gc := u.category(c);
    if IsOldHangulJamo(c) then Disallowed
    else if gc == Cn || u.defaultIgnorable(c) then Disallowed
    else if gc == Cc then Disallowed
    else if u.normalize(NFKC, [c]) != [c] then FreePVal
    else ReferenceByLetterClass(gc)
  }

  /** The last five cases, which depend on the general category alone. */
  function ReferenceByLetterClass(gc: GeneralCategory): Property {
    if gc in {Ll, Lu, Lo, Nd, Lm, Mn, Mc} then PValid
    else if gc in {Lt, Nl, No, Me} then FreePVal
    else if gc == Zs then FreePVal
    else if gc in {Sm, Sc, Sk, So} then FreePVal
    else if gc in {Pc, Pd, Ps, Pe, Pi, Pf, Po} then FreePVal
    else Disallowed
  }

  /** A case that does not match hands over to the next one. */
  lemma Skip(u: Ucd, s: Text, pos: nat, k: nat)
    requires pos < |s| && k < |IfElse| && !Member(u, IfElse[k].test, s[pos])
    ensures Decide(u, s, pos, k) == Decide(u, s, pos, k + 1)
  {
    assert CharAt(s, pos) == [s[pos]];
  }

  /** A case that matches decides. */
  lemma Hit(u: Ucd, s: Text, pos: nat, k: nat)
    requires pos < |s| && k < |IfElse| && Member(u, IfElse[k].test, s[pos])
    ensures Decide(u, s, pos, k) == Apply(u, s, pos, IfElse[k].outcome)
  {
    assert CharAt(s, pos) == [s[pos]];
  }

  /** From the Old Hangul Jamo case on, the list agrees with the per-code-point conditional. */
  lemma CascadeTailIsReference(u: Ucd, s: Text, pos: nat)
    requires pos < |s|
    ensures Decide(u, s, pos, 6) == Ok(ReferenceByCategory(u, s[pos]))
  {
    var c := s[pos];
    var gc := u.category(c);
    if IsOldHangulJamo(c) { Hit(u, s, pos, 6); return; }
    Skip(u, s, pos, 6);
    if gc == Cn || u.defaultIgnorable(c) { Hit(u, s, pos, 7); return; }
    Skip(u, s, pos, 7);
    if gc == Cc { Hit(u, s, pos, 8); return; }
    Skip(u, s, pos, 8);
    if u.normalize(NFKC, [c]) != [c] { Hit(u, s, pos, 9); return; }
    Skip(u, s, pos, 9);
    CascadeLettersIsReference(u, s, pos);
  }

  /** The last five cases agree with the conditional on the general category. */
  lemma CascadeLettersIsReference(u: Ucd, s: Text, pos: nat)
    requires pos < |s|
    ensures Decide(u, s, pos, 10) == Ok(ReferenceByLetterClass(u.category(s[pos])))
  {
    var gc := u.category(s[pos]);
    if gc in {Ll, Lu, Lo, Nd, Lm, Mn, Mc} { Hit(u, s, pos, 10); return; }
    Skip(u, s, pos, 10);
    if gc in {Lt, Nl, No, Me} { Hit(u, s, pos, 11); return; }
    Skip(u, s, pos, 11);
    if gc == Zs { Hit(u, s, pos, 12); return; }
    Skip(u, s, pos, 12);
    if gc in {Sm, Sc, Sk, So} { Hit(u, s, pos, 13); return; }
    Skip(u, s, pos, 13);
    if gc in {Pc, Pd, Ps, Pe, Pi, Pf, Po} { Hit(u, s, pos, 14); return; }
    Skip(u, s, pos, 14);
  }

  /** The list of cases and the written-out conditional agree everywhere. */
  lemma CascadeIsReference(u: Ucd, s: Text, pos: nat)
    ensures PrecisProperty(u, s, pos) == ReferenceProperty(u, s, pos)
  {
    if pos >= |s| {
      assert CharAt(s, pos) == [];
      return;
    }
    var c := s[pos];
    if IsExceptionPValid(c) { Hit(u, s, pos, 0); return; }
    Skip(u, s, pos, 0);
    if IsExceptionDisallowed(c) { Hit(u, s, pos, 1); return; }
    Skip(u, s, pos, 1);
    if IsExceptionContextO(c) { Hit(u, s, pos, 2); return; }
    Skip(u, s, pos, 2);
    CascadeMiddleIsReference(u, s, pos);
  }

  /** Past the exception lists, the unassigned, ASCII and join-control cases agree with the conditional. */
  lemma CascadeMiddleIsReference(u: Ucd, s: Text, pos: nat)
    requires pos < |s|
    requires !IsExceptionPValid(s[pos]) && !IsExceptionDisallowed(s[pos]) && !IsExceptionContextO(s[pos])
    ensures Decide(u, s, pos, 3) == ReferenceProperty(u, s, pos)
  {
    var c := s[pos];
    if u.category(c) == Cn { Hit(u, s, pos, 3); return; }
    Skip(u, s, pos, 3);
    if 0x21 <= c <= 0x7E { Hit(u, s, pos, 4); return; }
    Skip(u, s, pos, 4);
    if c == ZWNJ || c == ZWJ { Hit(u, s, pos, 5); return; }
    Skip(u, s, pos, 5);
    CascadeTailIsReference(u, s, pos);
  }

  /**
   * The cascade throws only past the end of the string, or for a join control
   * whose CONTEXTJ rule finds no context; the CONTEXTO rule never throws from here.
   */
  lemma PropertyThrowsIff(u: Ucd, s: Text, pos: nat)
    ensures PrecisProperty(u, s, pos).Err? <==>
              pos >= |s| || (s[pos] in {ZWNJ, ZWJ} && u.category(s[pos]) != Cn && ContextJ(u, s, pos).Err?)
    ensures pos >= |s| ==> PrecisProperty(u, s, pos) == Err(MustBeOneCharacter)
  {
    CascadeIsReference(u, s, pos);
  }

  /** UNASSIGNED is the property of exactly the unassigned code points that are not exceptions. */
  lemma UnassignedIff(u: Ucd, s: Text, pos: nat)
    ensures PrecisProperty(u, s, pos) == Ok(Unassigned) <==>
              pos < |s| && u.category(s[pos]) == Cn
              && !IsExceptionPValid(s[pos]) && !IsExceptionDisallowed(s[pos]) && !IsExceptionContextO(s[pos])
  {
    CascadeIsReference(u, s, pos);
  }

  /** The exception lists and the ASCII range decide before any category test. */
  lemma ExceptionsDecideFirst(u: Ucd, s: Text, pos: nat)
    requires pos < |s|
    ensures IsExceptionPValid(s[pos]) ==> PrecisProperty(u, s, pos) == Ok(PValid)
    ensures IsExceptionDisallowed(s[pos]) ==> PrecisProperty(u, s, pos) == Ok(Disallowed)
    ensures IsExceptionContextO(s[pos]) ==> PrecisProperty(u, s, pos) == ContextO(u, s, pos)
    ensures 0x21 <= s[pos] <= 0x7E && u.category(s[pos]) != Cn ==> PrecisProperty(u, s, pos) == Ok(PValid)
  {
    CascadeIsReference(u, s, pos);
  }

  /**
   * DerivedPropertyValueTest::testContextJSecondTestReturnsPVALID through the
   * whole cascade: ZWNJ between U+A872 (Left joining) and U+0622 (Right joining).
   */
  lemma ZwnjBetweenJoiningLettersIsPValid(u: Ucd)
    requires u.category(ZWNJ) != Cn
    requires u.joiningType(0xA872) == LeftJoining && u.joiningType(0x0622) == RightJoining
    requires !u.virama(0xA872)
    ensures PrecisProperty(u, [0xA872, ZWNJ, 0x0622], 1) == Ok(PValid)
  {
    CascadeIsReference(u, [0xA872, ZWNJ, 0x0622], 1);
    ContextJLeftJoiningBeforeZwnj(u);
  }
}
