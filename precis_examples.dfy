/**
 * The context rules seen through isFreeform on the strings of
 * PrecisTest::testMiddleDot, testKeraia, testGeresh, testGereshayim,
 * testKatakanaMiddleDot and testArabicIndicDigit. Where the answer depends
 * on Unicode data, the requires clauses state the facts the Unicode
 * Character Database gives for the characters involved.
 */
module PrecisExamples {
  import opened Wrappers
  import opened Unicode
  import opened Precis
  import opened PrecisContext
  import opened PrecisCascade
  import opened PrecisClass

  const MiddleDot: CodePoint := 0x00B7
  const Keraia: CodePoint := 0x0375
  const Geresh: CodePoint := 0x05F3
  const Gereshayim: CodePoint := 0x05F4
  const KatakanaMiddleDot: CodePoint := 0x30FB
  const SmallA: CodePoint := 0x61
  const SmallB: CodePoint := 0x62
  const Alpha: CodePoint := 0x03B1
  const He: CodePoint := 0x05D4
  const Shin: CodePoint := 0x05E9

  /** Every character is admitted: the string is in the class. */
  lemma AllAdmitted(u: Ucd, s: Text, t: ClassTest)
    requires forall i | 0 <= i < |s| :: PrecisProperty(u, s, i).Ok? && Admits(t, PrecisProperty(u, s, i).value)
    ensures ClassMembership(u, s, t) == Ok(true)
  {
    var ps := Properties(u, s);
    assert forall i | 0 <= i < |s| :: PassesAt(ps, t, i);
  }

  /** A CONTEXTO exception whose rule fails is DISALLOWED, which FreeformClass refuses. */
  lemma ContextOFails(u: Ucd, s: Text, pos: nat)
    requires forall j | 0 <= j < |s| :: s[j] != ZWNJ && s[j] != ZWJ
    requires pos < |s| && IsExceptionContextO(s[pos]) && ContextO(u, s, pos) != Ok(PValid)
    ensures ClassMembership(u, s, FreeformTest) == Ok(false)
  {
    ExceptionsDecideFirst(u, s, pos);
    RefusedCharacter(u, s, FreeformTest, pos);
  }

  /** A letter of a script assumed not to be Cn, an exception or a compatibility character is PVALID. */
  predicate PlainLetter(u: Ucd, c: CodePoint) {
    && u.category(c) in {Ll, Lo}
    && !u.defaultIgnorable(c)
    && u.normalize(NFKC, [c]) == [c]
    && !IsExceptionPValid(c) && !IsExceptionDisallowed(c) && !IsExceptionContextO(c)
    && !IsOldHangulJamo(c) && c != ZWNJ && c != ZWJ && !(0x21 <= c <= 0x7E)
  }

  lemma PlainLetterIsPValid(u: Ucd, s: Text, pos: nat)
    requires pos < |s| && PlainLetter(u, s[pos])
    ensures PrecisProperty(u, s, pos) == Ok(PValid)
  {
    CascadeIsReference(u, s, pos);
  }

  /** PrecisTest::testMiddleDot, the strings it expects to fail. */
  lemma MiddleDotOutsideLs(u: Ucd)
    ensures ClassMembership(u, [MiddleDot], FreeformTest) == Ok(false)
    ensures ClassMembership(u, [SmallL, MiddleDot], FreeformTest) == Ok(false)
    ensures ClassMembership(u, [MiddleDot, SmallL], FreeformTest) == Ok(false)
    ensures ClassMembership(u, [SmallL, MiddleDot, MiddleDot, SmallL], FreeformTest) == Ok(false)
    ensures ClassMembership(u, [SmallA, MiddleDot, SmallB], FreeformTest) == Ok(false)
    ensures ClassMembership(u, [SmallL, MiddleDot, SmallB], FreeformTest) == Ok(false)
    ensures ClassMembership(u, [SmallA, MiddleDot, SmallL], FreeformTest) == Ok(false)
  {
    ContextOFails(u, [MiddleDot], 0);
    ContextOFails(u, [SmallL, MiddleDot], 1);
    ContextOFails(u, [MiddleDot, SmallL], 0);
    ContextOFails(u, [SmallL, MiddleDot, MiddleDot, SmallL], 1);
    ContextOFails(u, [SmallA, MiddleDot, SmallB], 1);
    ContextOFails(u, [SmallL, MiddleDot, SmallB], 1);
    ContextOFails(u, [SmallA, MiddleDot, SmallL], 1);
  }

  /** PrecisTest::testMiddleDot, the string it expects to pass, given that `l` is assigned. */
  lemma MiddleDotBetweenLs(u: Ucd)
    requires u.category(SmallL) != Cn
    ensures ClassMembership(u, [SmallL, MiddleDot, SmallL], FreeformTest) == Ok(true)
  {
    var s: Text := [SmallL, MiddleDot, SmallL];
    ExceptionsDecideFirst(u, s, 0);
    ExceptionsDecideFirst(u, s, 1);
    ExceptionsDecideFirst(u, s, 2);
    AllAdmitted(u, s, FreeformTest);
  }

  /** PrecisTest::testKeraia. */
  lemma KeraiaBeforeGreek(u: Ucd)
    requires u.script(SmallA) != Greek
    requires PlainLetter(u, Alpha) && u.script(Alpha) == Greek
    ensures ClassMembership(u, [Keraia], FreeformTest) == Ok(false)
    ensures ClassMembership(u, [Keraia, SmallA], FreeformTest) == Ok(false)
    ensures ClassMembership(u, [Alpha, Keraia], FreeformTest) == Ok(false)
    ensures ClassMembership(u, [Keraia, Alpha], FreeformTest) == Ok(true)
  {
    ContextOFails(u, [Keraia], 0);
    ContextOFails(u, [Keraia, SmallA], 0);
    ContextOFails(u, [Alpha, Keraia], 1);
    var s: Text := [Keraia, Alpha];
    ExceptionsDecideFirst(u, s, 0);
    PlainLetterIsPValid(u, s, 1);
    AllAdmitted(u, s, FreeformTest);
  }

  /** PrecisTest::testGeresh and testGereshayim, for either mark. */
  lemma GereshAfterHebrew(u: Ucd, mark: CodePoint)
    requires mark == Geresh || mark == Gereshayim
    requires u.script(SmallA) != Hebrew
    requires PlainLetter(u, Shin) && u.script(Shin) == Hebrew
    ensures ClassMembership(u, [mark], FreeformTest) == Ok(false)
    ensures ClassMembership(u, [mark, He], FreeformTest) == Ok(false)
    ensures ClassMembership(u, [SmallA, mark, SmallB], FreeformTest) == Ok(false)
    ensures ClassMembership(u, [Shin, mark], FreeformTest) == Ok(true)
  {
    ContextOFails(u, [mark], 0);
    ContextOFails(u, [mark, He], 0);
    ContextOFails(u, [SmallA, mark, SmallB], 1);
    var s: Text := [Shin, mark];
    PlainLetterIsPValid(u, s, 0);
    ExceptionsDecideFirst(u, s, 1);
    AllAdmitted(u, s, FreeformTest);
  }

  /** PrecisTest::testKatakanaMiddleDot, the string without Hiragana, Katakana or Han. */
  lemma KatakanaMiddleDotAlone(u: Ucd)
    requires forall c | c in [SmallA, SmallB, 0x63, KatakanaMiddleDot, 0x64, 0x65, 0x66] ::
               u.script(c) !in {Hiragana, Katakana, Han}
    ensures ClassMembership(u, [SmallA, SmallB, 0x63, KatakanaMiddleDot, 0x64, 0x65, 0x66], FreeformTest) == Ok(false)
  {
    var s: Text := [SmallA, SmallB, 0x63, KatakanaMiddleDot, 0x64, 0x65, 0x66];
    assert !ContainsKana(u, s) by {
      forall i | 0 <= i < |s|
        ensures u.script(s[i]) !in {Hiragana, Katakana, Han}
      {
        assert s[i] in s;
      }
    }
    ContextOFails(u, s, 3);
  }

  const ArabicIndic12345: Text := [0x0661, 0x0662, 0x0663, 0x0664, 0x0665]
  const ExtendedArabicIndic12345: Text := [0x06F1, 0x06F2, 0x06F3, 0x06F4, 0x06F5]

  /** PrecisTest::testArabicIndicDigit: the two digit sets may not be mixed. */
  lemma ArabicIndicDigitsNotMixed(u: Ucd)
    ensures ClassMembership(u, ArabicIndic12345, FreeformTest) == Ok(true)
    ensures ClassMembership(u, ExtendedArabicIndic12345, FreeformTest) == Ok(true)
    ensures ClassMembership(u, ArabicIndic12345 + [0x06F6], FreeformTest) == Ok(false)
    ensures ClassMembership(u, ExtendedArabicIndic12345 + [0x0666], FreeformTest) == Ok(false)
  {
    DigitsAlone(u, ArabicIndic12345);
    DigitsAlone(u, ExtendedArabicIndic12345);
    var mixed := ArabicIndic12345 + [0x06F6];
    assert IsExtendedArabicIndicDigit(mixed[5]);
    ContextOFails(u, mixed, 0);
    var mixed2 := ExtendedArabicIndic12345 + [0x0666];
    assert IsArabicIndicDigit(mixed2[5]);
    ContextOFails(u, mixed2, 0);
  }

  /** A string of digits from one of the two Arabic digit sets only is freeform. */
  lemma DigitsAlone(u: Ucd, s: Text)
    requires (forall i | 0 <= i < |s| :: IsArabicIndicDigit(s[i])) ||
             (forall i | 0 <= i < |s| :: IsExtendedArabicIndicDigit(s[i]))
    ensures ClassMembership(u, s, FreeformTest) == Ok(true)
  {
    forall i | 0 <= i < |s|
      ensures PrecisProperty(u, s, i) == Ok(PValid)
    {
      ExceptionsDecideFirst(u, s, i);
    }
    AllAdmitted(u, s, FreeformTest);
  }
}
