/**
 * The profiles on the strings of PrecisTest::testProfilesSimple. The requires
 * clauses state what the Unicode Character Database, CaseFolding.txt and the
 * bidi tables give for the few ASCII characters involved.
 */
module ProfileExamples {
  import opened Wrappers
  import opened Unicode
  import opened Precis
  import opened PrecisCascade
  import opened PrecisClass
  import opened PrecisExamples
  import opened PrecisProfiles
  import CaseFold
  import Bidi

  const CapitalA: CodePoint := 0x41
  const CapitalB: CodePoint := 0x42

  /** U+0020 is a space separator and not default-ignorable. */
  predicate SpaceFacts(u: Ucd) {
    IsSpace(u, Space) && !u.defaultIgnorable(Space)
  }

  /** `a` and `b` are lower-case letters, `A` and `B` upper-case ones. */
  predicate LetterFacts(u: Ucd) {
    && u.category(SmallA) == Ll && u.category(SmallB) == Ll
    && u.category(CapitalA) == Lu && u.category(CapitalB) == Lu
  }

  /** The bidi tables give `a`, `b`, `A` and `B` the class L. */
  predicate LeftToRight(u: Ucd, bidi: Bidi.BidiTables) {
    forall c | c in [SmallA, SmallB, CapitalA, CapitalB] :: Bidi.GetClass(u, bidi, [c]) == Bidi.L
  }

  /** A space separator that is not default-ignorable is FREE_PVAL. */
  lemma SpaceIsFreePVal(u: Ucd, s: Text, i: nat)
    requires SpaceFacts(u) && i < |s| && s[i] == Space
    ensures PrecisProperty(u, s, i) == Ok(FreePVal)
  {
    CascadeIsReference(u, s, i);
  }

  /** A string of ASCII letters and spaces is freeform. */
  lemma LettersAndSpacesFreeform(u: Ucd, s: Text)
    requires SpaceFacts(u) && LetterFacts(u)
    requires forall i | 0 <= i < |s| :: s[i] in {Space, SmallA, SmallB, CapitalA, CapitalB}
    ensures ClassMembership(u, s, FreeformTest) == Ok(true)
  {
    forall i | 0 <= i < |s|
      ensures PrecisProperty(u, s, i).Ok? && Admits(FreeformTest, PrecisProperty(u, s, i).value)
    {
      if s[i] == Space {
        SpaceIsFreePVal(u, s, i);
      } else {
        ExceptionsDecideFirst(u, s, i);
      }
    }
    AllAdmitted(u, s, FreeformTest);
  }

  /** A string of ASCII letters is an identifier. */
  lemma LettersIdentifier(u: Ucd, s: Text)
    requires LetterFacts(u)
    requires forall i | 0 <= i < |s| :: s[i] in {SmallA, SmallB, CapitalA, CapitalB}
    ensures ClassMembership(u, s, IdentifierTest) == Ok(true)
  {
    forall i | 0 <= i < |s|
      ensures PrecisProperty(u, s, i) == Ok(PValid)
    {
      ExceptionsDecideFirst(u, s, i);
    }
    AllAdmitted(u, s, IdentifierTest);
  }

  /** Two characters of class L satisfy the Bidi Rule. */
  lemma TwoLeftToRight(u: Ucd, bidi: Bidi.BidiTables, x: CodePoint, y: CodePoint)
    requires Bidi.GetClass(u, bidi, [x]) == Bidi.L && Bidi.GetClass(u, bidi, [y]) == Bidi.L
    ensures Bidi.Rule(u, bidi, [x, y])
  {
    var s: Text := [x, y];
    assert Bidi.ClassAt(u, bidi, s, 0) == Bidi.L;
    assert Bidi.ClassAt(u, bidi, s, 1) == Bidi.L;
  }

  /** `prepareUsernameCaseMapped('a b')` is false: U+0020 is FREE_PVAL, which IdentifierClass refuses. */
  lemma UsernameWithSpaceRefused(u: Ucd)
    requires SpaceFacts(u)
    ensures PrepareUsernameCaseMapped(u, [SmallA, Space, SmallB]) == Refused
  {
    var s: Text := [SmallA, Space, SmallB];
    assert MapWidth(u, s) == s;
    SpaceIsFreePVal(u, s, 1);
    RefusedCharacter(u, s, IdentifierTest, 1);
  }

  /** `prepareUsernameCaseMapped('AB')` is not `'ab'`: preparing does not fold. */
  lemma PrepareDoesNotFold(u: Ucd)
    ensures PrepareUsernameCaseMapped(u, [CapitalA, CapitalB]) != Accepted([SmallA, SmallB])
  {
    assert MapWidth(u, [CapitalA, CapitalB]) == [CapitalA, CapitalB];
  }

  /** `prepareUsernameCaseMapped('ab')` and `enforceUsernameCaseMapped('ab')` are `'ab'`. */
  lemma UsernameLower(u: Ucd, fold: CaseFold.FoldTable, bidi: Bidi.BidiTables)
    requires LetterFacts(u) && LeftToRight(u, bidi)
    requires u.wellFormed([SmallA, SmallB]) && u.normalize(NFC, [SmallA, SmallB]) == [SmallA, SmallB]
    ensures PrepareUsernameCaseMapped(u, [SmallA, SmallB]) == Accepted([SmallA, SmallB])
    ensures EnforceUsernameCaseMapped(u, fold, bidi, [SmallA, SmallB]) == Accepted([SmallA, SmallB])
    ensures EnforceUsernameCasePreserved(u, fold, bidi, [SmallA, SmallB]) == Accepted([SmallA, SmallB])
  {
    var s: Text := [SmallA, SmallB];
    assert MapWidth(u, s) == s;
    LettersIdentifier(u, s);
    assert CaseFold.Fold(u, fold, s, true) == s;
    TwoLeftToRight(u, bidi, SmallA, SmallB);
  }

  /** `enforceUsernameCaseMapped('AB')` is `'ab'`; `enforceUsernameCasePreserved('AB')` is `'AB'`. */
  lemma UsernameUpper(u: Ucd, fold: CaseFold.FoldTable, bidi: Bidi.BidiTables)
    requires LetterFacts(u) && LeftToRight(u, bidi)
    requires CapitalA in fold && fold[CapitalA] == SmallA && CapitalB in fold && fold[CapitalB] == SmallB
    requires u.wellFormed([CapitalA, CapitalB])
    requires u.normalize(NFC, [SmallA, SmallB]) == [SmallA, SmallB]
    requires u.normalize(NFC, [CapitalA, CapitalB]) == [CapitalA, CapitalB]
    ensures EnforceUsernameCaseMapped(u, fold, bidi, [CapitalA, CapitalB]) == Accepted([SmallA, SmallB])
    ensures EnforceUsernameCasePreserved(u, fold, bidi, [CapitalA, CapitalB]) == Accepted([CapitalA, CapitalB])
  {
    var s: Text := [CapitalA, CapitalB];
    assert MapWidth(u, s) == s;
    LettersIdentifier(u, s);
    assert CaseFold.Fold(u, fold, s, true) == [SmallA, SmallB];
    TwoLeftToRight(u, bidi, SmallA, SmallB);
    TwoLeftToRight(u, bidi, CapitalA, CapitalB);
  }

  const Padded: Text := [Space, Space, Space, SmallA, Space, Space, Space, SmallB, Space, Space, Space]
  const PaddedUpper: Text := [Space, Space, Space, CapitalA, Space, Space, Space, CapitalB, Space, Space, Space]

  /** A non-empty run of space separators collapses to one U+0020, or to nothing inside a run. */
  lemma {:induction false} CollapseRun(u: Ucd, run: Text, rest: Text, inRun: bool)
    requires |run| > 0 && forall i | 0 <= i < |run| :: IsSpace(u, run[i])
    ensures CollapseFrom(u, run + rest, inRun) == (if inRun then [] else [Space]) + CollapseFrom(u, rest, true)
    decreases |run|
  {
    assert (run + rest)[1..] == run[1..] + rest;
    if |run| > 1 {
      CollapseRun(u, run[1..], rest, true);
    } else {
      assert run[1..] + rest == rest;
    }
  }

  /** A character that is not a space separator is kept and ends the run. */
  lemma CollapseOther(u: Ucd, c: CodePoint, rest: Text, inRun: bool)
    requires !IsSpace(u, c)
    ensures CollapseFrom(u, [c] + rest, inRun) == [c] + CollapseFrom(u, rest, false)
  {
    assert ([c] + rest)[1..] == rest;
  }

  const ThreeSpaces: Text := [Space, Space, Space]

  /** Collapsing and trimming `'   x   y   '` gives `'x y'`. */
  lemma NicknameMappingOfPadded(u: Ucd, x: CodePoint, y: CodePoint)
    requires IsSpace(u, Space) && !IsSpace(u, x) && !IsSpace(u, y) && !IsTrimmed(x) && !IsTrimmed(y)
    ensures NicknameMapping(u, [Space, Space, Space, x, Space, Space, Space, y, Space, Space, Space]) == [x, Space, y]
  {
    var s: Text := [Space, Space, Space, x, Space, Space, Space, y, Space, Space, Space];
    assert s == ThreeSpaces + ([x] + (ThreeSpaces + ([y] + (ThreeSpaces + []))));
    CollapseRun(u, ThreeSpaces, [], true);
    assert CollapseFrom(u, [], true) == [];
    CollapseOther(u, y, ThreeSpaces + [], true);
    CollapseRun(u, ThreeSpaces, [y] + (ThreeSpaces + []), false);
    CollapseOther(u, x, ThreeSpaces + ([y] + (ThreeSpaces + [])), true);
    CollapseRun(u, ThreeSpaces, [x] + (ThreeSpaces + ([y] + (ThreeSpaces + []))), false);
    var c: Text := [Space, x, Space, y, Space];
    assert CollapseSpaces(u, s) == c;
    assert c[1..] == [x, Space, y, Space];
    assert Leading(c[1..]) == 0;
    assert Leading(c) == 1;
    assert c[..4] == [Space, x, Space, y];
    assert Trailing(c[..4]) == 0;
    assert Trailing(c) == 1;
    assert c[1..4] == [x, Space, y];
  }

  /** `enforceNickname('ab')` is `'ab'`. */
  lemma NicknameLower(u: Ucd, fold: CaseFold.FoldTable)
    requires SpaceFacts(u) && LetterFacts(u)
    requires u.wellFormed([SmallA, SmallB]) && u.normalize(NFKC, [SmallA, SmallB]) == [SmallA, SmallB]
    ensures EnforceNickname(u, fold, [SmallA, SmallB]) == Accepted([SmallA, SmallB])
  {
    var s: Text := [SmallA, SmallB];
    LettersAndSpacesFreeform(u, s);
    CollapseWithoutSpaces(u, s, false);
    TrimKeptEnds(s);
    assert NicknameMapping(u, s) == s;
    CaseFold.RestrictedFoldChangesOnlyUpperTitle(u, fold, s);
    assert CaseFold.Fold(u, fold, s, true) == s;
  }

  /** `enforceNickname('   a   b   ')` and `enforceNickname('   A   B   ')` are `'a b'`. */
  lemma NicknamePadded(u: Ucd, fold: CaseFold.FoldTable)
    requires SpaceFacts(u) && LetterFacts(u)
    requires CapitalA in fold && fold[CapitalA] == SmallA && CapitalB in fold && fold[CapitalB] == SmallB
    requires u.wellFormed(Padded) && u.wellFormed(PaddedUpper)
    requires u.normalize(NFKC, [SmallA, Space, SmallB]) == [SmallA, Space, SmallB]
    ensures EnforceNickname(u, fold, Padded) == Accepted([SmallA, Space, SmallB])
    ensures EnforceNickname(u, fold, PaddedUpper) == Accepted([SmallA, Space, SmallB])
  {
    LettersAndSpacesFreeform(u, Padded);
    LettersAndSpacesFreeform(u, PaddedUpper);
    NicknameMappingOfPadded(u, SmallA, SmallB);
    NicknameMappingOfPadded(u, CapitalA, CapitalB);
    assert CaseFold.Fold(u, fold, [SmallA, Space, SmallB], true) == [SmallA, Space, SmallB];
    assert CaseFold.Fold(u, fold, [CapitalA, Space, CapitalB], true) == [SmallA, Space, SmallB];
  }

  /** `enforceOpaqueString(' a B ')` is `' a B '`. */
  lemma OpaqueStringKeepsSpacesAndCase(u: Ucd)
    requires SpaceFacts(u) && LetterFacts(u)
    requires u.wellFormed([Space, SmallA, Space, CapitalB, Space])
    requires u.normalize(NFC, [Space, SmallA, Space, CapitalB, Space]) == [Space, SmallA, Space, CapitalB, Space]
    ensures EnforceOpaqueString(u, [Space, SmallA, Space, CapitalB, Space]) == Accepted([Space, SmallA, Space, CapitalB, Space])
  {
    var s: Text := [Space, SmallA, Space, CapitalB, Space];
    LettersAndSpacesFreeform(u, s);
    assert MapSpaces(u, s) == s;
  }

  /**
   * The Nickname profile as written accepts a string of spaces and returns
   * the empty string: nothing tests the result for emptiness.
   */
  lemma NicknameOfSpacesIsEmpty(u: Ucd, fold: CaseFold.FoldTable)
    requires SpaceFacts(u) && u.wellFormed([Space]) && u.normalize(NFKC, []) == []
    ensures EnforceNickname(u, fold, [Space]) == Accepted([])
  {
    SpaceFreeform(u);
    assert PrepareNickname(u, [Space]) == Accepted([Space]);
    CollapseRun(u, [Space], [], false);
    assert [Space] + [] == [Space];
    assert CollapseFrom(u, [], true) == [];
    assert Leading([Space]) == 1;
    assert NicknameMapping(u, [Space]) == [];
    assert CaseFold.Fold(u, fold, [], true) == [];
  }

  lemma SpaceFreeform(u: Ucd)
    requires SpaceFacts(u)
    ensures ClassMembership(u, [Space], FreeformTest) == Ok(true)
  {
    SpaceIsFreePVal(u, [Space], 0);
    AllAdmitted(u, [Space], FreeformTest);
  }
}
