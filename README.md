# PRECIS string preparation, modelled in Dafny

This project models the core of a PHP implementation of the PRECIS framework (RFC 7564) and its profiles for usernames, opaque strings and nicknames (RFC 7613, RFC 7700). It covers:

- the derived property of a code point in its string (`getPrecisProperty`), including the CONTEXTO and CONTEXTJ rules of RFC 5892;
- whether a string belongs to the IdentifierClass or the FreeformClass (`isClass`, `isIdentifier`, `isFreeform`, `getStringClass`);
- width mapping, the prepare and enforce operations of the four profiles, and the PHP `trim` they use;
- Unicode simple case folding (`CaseFold::fold`);
- Bidi class lookup by binary search and the Bidi Rule of RFC 5893 (`Bidi::getClass`, `Bidi::rule`);
- the generator that builds the Bidi class tables from `DerivedBidiClass.txt` (`BidiDataGenerator::read` and `compress`).

Strings are sequences of code points (`Unicode.Text`). The Unicode Character Database is a parameter, `Unicode.Ucd`. It supplies general category, script, joining type, virama, default-ignorable, the `\p{Cu}` test, normalization and UTF-8 well-formedness. The library's exceptions are values of `Result`. Every fact about specific characters that a lemma needs is stated in that lemma's `requires`.

Modules and their source:

| module | models |
|---|---|
| `Precis` | the `CC_*` constants, `inCharset`, `getHasCompat` |
| `PrecisContext` | `getContextO`, `getContextJ` |
| `PrecisCascade` | `getPrecisProperty` |
| `PrecisClass` | `isClass`, `isIdentifier`, `isFreeform`, `getStringClass` |
| `PrecisProfiles` | the profile functions |
| `CaseFold` | `CaseFold.php` |
| `Bidi` | `Bidi.php` |
| `BidiData` | `data/BidiDataGenerator.php` |
| `PrecisExamples`, `ProfileExamples` | the assertions of `tests/unit/PrecisTest.php` |

Where the model follows the code rather than the documented intent (the places where it follows a corrected rule instead are listed under "## Left out"):

- enforceNickname has no test for an empty result. The code has none, so `EnforceNickname` maps a string of spaces to the empty string (`ProfileExamples.NicknameOfSpacesIsEmpty`).
- `prepareUsername` returns the width-mapped string, not its input. The `testTypes*` tests (`tests/unit/PrecisTest.php:90-140`) expect the input or false; the model returns the mapped string, as the code does.
- `getClass` answers `BR` for an unassigned ignorable code point, as written. RFC 5893 has no class of that name, so no allowed class list contains it.
- The Nickname profile folds only upper- and title-case characters (`fold($string, true)`), as written.

## Model

| member | source | states |
|---|---|---|
| PrecisContext.ContextO | Precis.php:248-288 | throws exactly for a non-CONTEXTO character; returns PVALID or DISALLOWED; for each exception, PVALID iff its RFC 5892 appendix A rule holds (middle dot between two `l`, keraia before Greek, geresh after Hebrew, katakana middle dot with kana or Han anywhere, Arabic-Indic digits not mixed with extended ones) |
| PrecisContext.ViramaBefore | Precis.php:305-309 | the first CONTEXTJ test: a virama right before the joiner at `pos` |
| PrecisContext.ZwnjJoins | Precis.php:311-320 | the second CONTEXTJ test: somewhere in the string a joining character of the given left types, transparent characters, ZWNJ, transparent characters, then a Right- or Dual-joining character |
| PrecisContext.ContextJAsWritten | Precis.php:299-323 | as written: DISALLOWED at position 0; PVALID iff a virama precedes or a Right/Dual-joining character, transparent run, ZWNJ, transparent run, Right/Dual-joining character occurs; throws otherwise |
| PrecisContext.ContextJ | Precis.php:299-323 | the same with the left side Left- or Dual-joining, as RFC 5892 appendix A.1 requires |
| PrecisContext.ContextJLeftJoiningBeforeZwnj | tests/unit/DerivedPropertyValueTest.php:83-87 | U+A872 ZWNJ U+0622 throws as written and is PVALID under the corrected rule |
| PrecisContext.ContextJRightJoiningBeforeZwnj | Precis.php:312-320 | a Right-joining character before ZWNJ passes as written and not under the corrected rule |
| PrecisCascade.GetPrecisProperty | Precis.php:335-365 | the foreach over `$ifelse` with its early returns computes the cascade `PrecisProperty` |
| PrecisCascade.Apply | Precis.php:359-360 | a fixed property is returned; a context rule is called on the string and position |
| PrecisCascade.PrecisProperty | Precis.php:337-364 | the cascade over `$ifelse` from its first case, DISALLOWED when no case matches |
| PrecisCascade.ReferenceProperty | Precis.php:337-364 | the independent if-else chain of RFC 7564 section 8 that `CascadeIsReference` compares the cascade with |
| PrecisCascade.Skip | Precis.php:356-362 | a case whose test fails hands over to the next case |
| PrecisCascade.Hit | Precis.php:356-362 | a case whose test holds decides the property |
| PrecisCascade.CascadeMiddleIsReference | Precis.php:341-343 | past the exception lists, the unassigned, ASCII and join-control cases agree with the reference chain |
| PrecisCascade.CascadeTailIsReference | Precis.php:344-364 | from the old-Hangul case on, the cascade depends on the code point alone and equals the reference by category |
| PrecisCascade.CascadeLettersIsReference | Precis.php:348-364 | from the letter-digits case on, the cascade equals the reference by general category |
| PrecisCascade.CascadeIsReference | Precis.php:337-364 | the table-driven cascade equals an independent if-else chain written from RFC 7564 section 8, for every string and position |
| PrecisCascade.PropertyThrowsIff | Precis.php:355-360 | the property throws iff the position is past the end, or the character is an assigned join control whose CONTEXTJ rule throws |
| PrecisCascade.UnassignedIff | Precis.php:338-341 | UNASSIGNED iff the character is `\p{Cn}` and not one of the exceptions tested before |
| PrecisCascade.ExceptionsDecideFirst | Precis.php:338-342 | the exception lists decide before any category test; printable ASCII that is assigned is PVALID |
| PrecisCascade.ZwnjBetweenJoiningLettersIsPValid | tests/unit/DerivedPropertyValueTest.php:83-87 | with the corrected CONTEXTJ rule the property of ZWNJ in U+A872 ZWNJ U+0622 is PVALID |
| PrecisClass.Properties | Precis.php:505-516 | one derived property per character |
| PrecisClass.FirstRefused | Precis.php:507-513 | the first index the class test refuses: all before it pass and it does not |
| PrecisClass.ClassFrom | Precis.php:505-516 | true iff every property from `k` on passes; otherwise the first refused position decides, its exception propagated or false |
| PrecisClass.ClassMembership | Precis.php:505-516 | the class test applied to the properties of the whole string |
| PrecisClass.IsClass | Precis.php:505-516 | the loop with its early return computes `ClassMembership` |
| PrecisClass.IsIdentifier | Precis.php:525-530 | membership with the PVALID test |
| PrecisClass.IsFreeform | Precis.php:539-544 | membership with the PVALID-or-FREE_PVAL test |
| PrecisClass.GetStringClass | Precis.php:477-493 | the loop that downgrades the class computes `StringClassOf` |
| PrecisClass.StringClassOf | Precis.php:477-493 | the string class: NUL at the first UNASSIGNED or DISALLOWED character, FREEFORM once a FREE_PVAL one is seen, IDENTIFIER otherwise |
| PrecisClass.IdentifierImpliesFreeform | Precis.php:525-544 | an identifier string is a freeform string; an exception is the same exception in both |
| PrecisClass.FreeformStaysFreeform | Precis.php:483-489 | once downgraded to freeform the scan never returns to identifier |
| PrecisClass.StringClassFromMembership | Precis.php:477-493 | the scan's result against the two membership tests, from any position |
| PrecisClass.StringClassMatchesMembership | Precis.php:477-544 | getStringClass is IDENTIFIER iff isIdentifier, FREEFORM iff isFreeform and not isIdentifier, NUL iff not isFreeform, and throws the same exception as isFreeform |
| PrecisClass.ScanMatchesMembership | Precis.php:477-493 | the same relation stated on a property sequence |
| PrecisClass.RefusedWithoutThrow | Precis.php:507-513 | one refused property makes the class test false when nothing throws |
| PrecisClass.NoJoinControlNoThrow | Precis.php:343 | without join controls no property throws and neither class test throws |
| PrecisClass.RefusedCharacter | Precis.php:505-516 | a character whose property the test refuses makes the string fail the class |
| PrecisExamples.AllAdmitted | Precis.php:505-516 | every character admitted makes the string a member of the class |
| PrecisExamples.ContextOFails | Precis.php:340 | a CONTEXTO exception whose rule fails makes the string not freeform |
| PrecisExamples.PlainLetterIsPValid | Precis.php:348 | a letter or digit that is no exception is PVALID |
| PrecisExamples.MiddleDotOutsideLs | tests/unit/PrecisTest.php:15-21 | the seven strings where the middle dot is not between two `l` are not freeform |
| PrecisExamples.MiddleDotBetweenLs | tests/unit/PrecisTest.php:22 | `l·l` is freeform |
| PrecisExamples.KeraiaBeforeGreek | tests/unit/PrecisTest.php:27-30 | the keraia passes only before a Greek letter |
| PrecisExamples.GereshAfterHebrew | tests/unit/PrecisTest.php:35-46 | geresh and gershayim pass only after a Hebrew letter |
| PrecisExamples.KatakanaMiddleDotAlone | tests/unit/PrecisTest.php:51 | the katakana middle dot among Latin letters only is not freeform |
| PrecisExamples.ArabicIndicDigitsNotMixed | tests/unit/PrecisTest.php:59-62 | each digit set alone is freeform; mixing the two is not |
| PrecisExamples.DigitsAlone | Precis.php:282-285 | a string of digits from one set is freeform |
| CaseFold.Fold | CaseFold.php:35-39 | same length; each selected character is replaced by its table image, every other character kept |
| CaseFold.FoldChar | CaseFold.php:13-20 | the table image of a key, any other character unchanged |
| CaseFold.Selected | CaseFold.php:37 | the characters the pattern matches: `Lu` or `Lt` when restricted, every character but LINE FEED otherwise |
| CaseFold.FoldConcat | CaseFold.php:37-38 | folding distributes over concatenation |
| CaseFold.FoldWithoutKeys | CaseFold.php:13-20 | a string without table keys is unchanged |
| CaseFold.RestrictedFoldChangesOnlyUpperTitle | CaseFold.php:37 | the restricted fold changes only upper- and title-case characters that are keys, and folds every such character |
| CaseFold.FullFoldSkipsOnlyLineFeed | CaseFold.php:37 | the full fold's `.` skips LINE FEED and folds every other character |
| CaseFold.FoldIdempotent | CaseFold.php:35-39 | folding twice is folding once when table images fold to themselves |
| Bidi.RankInjective | data/BidiDataGenerator.php:100 | class names order classes totally: equal names mean equal classes |
| Bidi.LookupHit | Bidi.php:54-76 | in a well-formed table the range covering the code point gives its class |
| Bidi.LookupMiss | Bidi.php:54-76 | no covering range means no class |
| Bidi.SearchRanges | Bidi.php:54-76 | the corrected binary search answers the covering range's class, L in a gap between ranges, null otherwise |
| Bidi.SearchStep | Bidi.php:59-73 | one iteration of the do-while loop as written, with its `while` test and the null read past the table |
| Bidi.SearchLoop | Bidi.php:59-75 | the loop as written for at most `fuel` iterations |
| Bidi.SearchRangesAsWritten | Bidi.php:54-76 | searchRanges as written, fuel-bounded; the empty table answers null |
| Bidi.StepStaysInBounds | Bidi.php:59-73 | one step of the search keeps the window inside the table and strictly shrinks it |
| Bidi.SearchLoopDiverges | Bidi.php:59-73 | as written, from a window ending at the last range, a code point at or beyond that range's start never ends the loop |
| Bidi.SearchRangesDiverges | Bidi.php:54-76 | as written, two or more ranges and a code point at or after the last range's start never end |
| Bidi.SearchRangesMissesLastRange | Bidi.php:54-76 | a concrete table and code point where the search as written does not end but the intended answer is AL |
| Bidi.GapAnswer | Bidi.php:66-68 | a code point between two neighbouring ranges is answered L |
| Bidi.StepSound | Bidi.php:59-73 | a step that answers gives the intended answer; one that continues keeps the window invariant |
| Bidi.SearchLoopSound | Bidi.php:59-75 | whenever the search as written ends, its answer is the intended one |
| Bidi.SearchEndsEmpty | Bidi.php:73-75 | a window that closes without a hit means no range and no gap |
| Bidi.SearchRangesAsWrittenSound | Bidi.php:54-76 | whenever the search as written answers, its answer is the intended one |
| Bidi.GetClass | Bidi.php:20-52 | getClass with the terminating search: point table, then ranges, then for `\p{Cu}` the defaults, BR for ignorables, else L |
| Bidi.GetClassAsWritten | Bidi.php:20-52 | getClass with both searches as written, fuel-bounded |
| Bidi.GetClassAsWrittenSound | Bidi.php:20-52 | whenever getClass as written returns, its answer is the one `GetClass` gives |
| Bidi.GetClassAsWrittenDiverges | Bidi.php:33-36 | getClass as written does not return for a code point outside the point table at or after the start of the last of two or more ranges, where `GetClass` answers that range's class |
| Bidi.GetClassTiers | Bidi.php:20-52 | for the terminating lookup: point table first; then any covering range; L in a gap; else for `\p{Cu}` the default ranges, then BR for ignorables; else L |
| Bidi.GapSkipsUnassignedDefaults | Bidi.php:33-36 | a gap answer L wins over the unassigned-default table |
| Bidi.BidiRuleAsWritten | Bidi.php:85-144 | Bidi::rule as written: the first character shifted off, the end test on the last remaining one, the allowed-class loops and the EN/AN test |
| Bidi.Rule | Bidi.php:85-144 | the Bidi Rule of RFC 5893 section 2, conditions 1 to 6, with NSM allowed after the end character |
| Bidi.RuleAsWritten | Bidi.php:85-144 | the method with its loops and early returns computes `BidiRuleAsWritten` |
| Bidi.EndsWithLast | Bidi.php:95 | when the last character is not NSM, ending with a class is the last character having it |
| Bidi.RuleAsWrittenAgrees | Bidi.php:85-144 | for two or more characters with a last class other than NSM, the rule as written equals RFC 5893's Bidi Rule |
| Bidi.ShiftedAll | Bidi.php:91-105 | the classes after `array_shift` are those of the original from index 1 |
| Bidi.ShiftedSome | Bidi.php:114-121 | the shifted string holds a class iff the original does, when the first does not |
| Bidi.OneCharacterRejected | Bidi.php:91-95 | as written the empty string and every one-character string fail; the RFC rule accepts one character iff its class is L, R or AL |
| Bidi.TrailingNsmRejected | Bidi.php:126-131 | `a` followed by a combining acute fails as written and passes the RFC rule |
| PrecisProfiles.MapWidth | Precis.php:553-562 | a string without fullwidth or halfwidth characters is unchanged |
| PrecisProfiles.MapWidthConcat | Precis.php:555-560 | width mapping distributes over concatenation |
| PrecisProfiles.MapWidthTouchesOnlyWidthChars | Precis.php:556 | a character outside U+FF00-U+FFEF stays in place |
| PrecisProfiles.MapWidthIdempotent | Precis.php:553-562 | mapping twice is mapping once when the decompositions are narrow |
| PrecisProfiles.PrepareUsername | Precis.php:571-580 | false for ill-formed input; otherwise the width-mapped string if it is an identifier, the class test's exception propagated |
| PrecisProfiles.PrepareUsernameCaseMapped | Precis.php:624-627 | prepareUsername |
| PrecisProfiles.PrepareUsernameCasePreserved | Precis.php:636-639 | prepareUsername |
| PrecisProfiles.PrepareOpaqueString | Precis.php:648-654 | false for ill-formed input; otherwise the input itself if it is freeform |
| PrecisProfiles.PrepareNickname | Precis.php:663-666 | prepareOpaqueString |
| PrecisProfiles.PrepareUsernameIff | Precis.php:571-580 | accepted iff well-formed UTF-8 whose width-mapped form is an identifier, and then the answer is that mapped form, which is freeform too; throws iff the class test throws |
| PrecisProfiles.PrepareOpaqueStringIff | Precis.php:648-666 | accepted iff well-formed and freeform, answering the input; prepareNickname is prepareOpaqueString |
| PrecisProfiles.UsernameMapping | Precis.php:601-607 | the case-mapping and NFC steps of enforceUsername |
| PrecisProfiles.EnforceUsername | Precis.php:590-615 | prepare, fold when case-mapped, NFC, then the corrected Bidi Rule |
| PrecisProfiles.EnforceUsernameAsWritten | Precis.php:590-615 | the same with Bidi::rule as written |
| PrecisProfiles.EnforceUsernameAsWrittenAgrees | Precis.php:609-612 | the two differ only where the rules do: equal for a mapped string of two or more characters that does not end in NSM; as written a mapped string of at most one character is refused, while the corrected rule accepts one L, R or AL character |
| PrecisProfiles.RulesOnShortStrings | Bidi.php:85-144 | the rule as written equals the corrected rule on two or more characters not ending in NSM, rejects every string of at most one character, while the corrected rule accepts one L, R or AL character |
| PrecisProfiles.EnforceUsernameCaseMapped | Precis.php:675-678 | enforceUsername with case mapping |
| PrecisProfiles.EnforceUsernameCasePreserved | Precis.php:687-690 | enforceUsername without case mapping |
| PrecisProfiles.EnforceOpaqueString | Precis.php:699-720 | prepare, map every space separator to U+0020, NFC; no directionality rule |
| PrecisProfiles.MapSpaces | Precis.php:709 | same length; each space separator becomes U+0020, every other character kept |
| PrecisProfiles.MapSpacesIdempotent | Precis.php:709 | after mapping every space separator is U+0020; mapping twice is mapping once |
| PrecisProfiles.CollapseShape | Precis.php:739 | after collapsing, U+0020 is the only space separator and never comes twice in a row |
| PrecisProfiles.CollapseKeepsNonSpaces | Precis.php:739 | collapsing keeps every other character, in order |
| PrecisProfiles.CollapseWithoutSpaces | Precis.php:739 | a string without space separators is unchanged |
| PrecisProfiles.CollapseSpaces | Precis.php:739 | `preg_replace('%\p{Zs}+%u', ' ', ...)`: each maximal run of space separators becomes one U+0020 |
| PrecisProfiles.CollapseAllTrimmed | Precis.php:739 | collapsing leaves only characters `trim` strips exactly when the input holds only space separators and such characters |
| PrecisProfiles.Leading | Precis.php:739 | the number of leading characters `trim` strips: all trimmed, the next not |
| PrecisProfiles.Trailing | Precis.php:739 | the same at the end |
| PrecisProfiles.Trim | Precis.php:739 | the result is the slice of the input between the stripped leading and trailing characters; it neither starts nor ends with a trimmed character and is empty iff every character is trimmed |
| PrecisProfiles.TrimIdempotent | Precis.php:739 | trimming twice is trimming once |
| PrecisProfiles.TrimKeptEnds | Precis.php:739 | a string with untrimmed ends is unchanged |
| PrecisProfiles.NicknameMapping | Precis.php:739 | the additional mapping of Nickname: collapse, then trim |
| PrecisProfiles.NicknameMappingShape | Precis.php:739 | the mapped nickname holds no space separator but U+0020, never two in a row, none at either end, and is empty iff the input is all space separators and trimmed characters |
| PrecisProfiles.EnforceNickname | Precis.php:729-751 | prepare, collapse and trim, fold upper and title case, NFKC; no empty-result test |
| PrecisProfiles.EnforceFollowsPrepare | Precis.php:590-751 | each enforce refuses or throws exactly as its prepare does, and accepts only what prepare accepts |
| PrecisProfiles.EnforcedUsername | Precis.php:590-615 | an enforced username satisfies the Bidi Rule and is the NFC of the width-mapped (and, when case-mapped, folded) input |
| PrecisProfiles.CaseMappedAgreesWithoutCapitals | Precis.php:675-690 | without upper- or title-case characters the two username profiles agree |
| PrecisProfiles.EnforcedNickname | Precis.php:729-751 | an enforced nickname is NFKC of the folded Nickname mapping; an accepted input of space separators and trimmed characters alone is enforced to the empty string |
| PrecisProfiles.EnforcedOpaqueString | Precis.php:699-720 | an enforced opaque string is NFC of the space-mapped input; an accepted input already in NFC whose only space separator is U+0020 is enforced to itself |
| PrecisProfiles.EmptyUsernameRefused | Precis.php:590-615 | the empty string is never an enforced username |
| ProfileExamples.SpaceIsFreePVal | Precis.php:350 | U+0020 has property FREE_PVAL |
| ProfileExamples.LettersAndSpacesFreeform | Precis.php:539-544 | strings of the test letters and spaces are freeform |
| ProfileExamples.LettersIdentifier | Precis.php:525-530 | strings of the test letters are identifiers |
| ProfileExamples.TwoLeftToRight | Bidi.php:126-141 | two L characters pass the Bidi Rule |
| ProfileExamples.UsernameWithSpaceRefused | tests/unit/PrecisTest.php:67 | `a b` is not a username |
| ProfileExamples.PrepareDoesNotFold | tests/unit/PrecisTest.php:69 | preparing `AB` does not give `ab` |
| ProfileExamples.UsernameLower | tests/unit/PrecisTest.php:68-74 | `ab` is prepared and enforced unchanged by both username profiles |
| ProfileExamples.UsernameUpper | tests/unit/PrecisTest.php:72-75 | `AB` enforces to `ab` case-mapped and to `AB` case-preserved |
| ProfileExamples.CollapseRun | Precis.php:739 | a run of spaces collapses to one U+0020, or to nothing inside a run |
| ProfileExamples.CollapseOther | Precis.php:739 | a non-space character is kept and ends the run |
| ProfileExamples.NicknameMappingOfPadded | Precis.php:739 | three spaces, x, three spaces, y, three spaces map to `x y` |
| ProfileExamples.NicknameLower | tests/unit/PrecisTest.php:77 | `ab` enforces to `ab` as a nickname |
| ProfileExamples.NicknamePadded | tests/unit/PrecisTest.php:78-79 | the padded `a b` and `A B` enforce to `a b` |
| ProfileExamples.OpaqueStringKeepsSpacesAndCase | tests/unit/PrecisTest.php:81-82 | ` a B ` enforces to itself as an opaque string |
| ProfileExamples.NicknameOfSpacesIsEmpty | Precis.php:729-751 | a single space enforces to the empty nickname, since the code has no empty-result test |
| ProfileExamples.SpaceFreeform | Precis.php:539-544 | a single space is freeform |
| BidiData.ReadStoresNoL | data/BidiDataGenerator.php:49-52 | no point or range stored by `read` has class L |
| BidiData.PointsOf | data/BidiDataGenerator.php:54-60 | the points `read` stores line after line, a later point line winning |
| BidiData.RangesOf | data/BidiDataGenerator.php:54-57 | the ranges `read` appends, in file order |
| BidiData.ReadRecordsLines | data/BidiDataGenerator.php:54-60 | every non-L line with an upper bound becomes that range; a single code point becomes that point unless a later point line overrides it |
| BidiData.PointsOfKeeps | data/BidiDataGenerator.php:59 | a point no later line names keeps its class |
| BidiData.SortedKeys | data/BidiDataGenerator.php:80 | the keys in strictly increasing order, each key once |
| BidiData.Entries | data/BidiDataGenerator.php:80 | ksort: the points as entries in strictly increasing code point order, each with its class |
| BidiData.FlushFromSound | data/BidiDataGenerator.php:85-98 | every flushed range covers two or more code points, each an entry of the range's class |
| BidiData.FlushFrom | data/BidiDataGenerator.php:85-98 | the ranges the first loop appends from a given position: a broken run of two or more points becomes one range |
| BidiData.FlushedAreRuns | data/BidiDataGenerator.php:82-98 | every range made from points spans two or more points, all of its class |
| BidiData.FlushFromBelowLast | data/BidiDataGenerator.php:85-98 | the run open at the end is never flushed: every flushed range ends before the last point |
| BidiData.PointsThatStay | data/BidiDataGenerator.php:85-98 | a point without a same-class neighbour, and the highest point, remain points |
| BidiData.FlushFromComplete | data/BidiDataGenerator.php:85-93 | a maximal run of two or more points broken by a later point is flushed as one range |
| BidiData.FlushFromBelowFinalRun | data/BidiDataGenerator.php:85-98 | every flushed range ends below the run open at the end |
| BidiData.RunsBecomeRanges | data/BidiDataGenerator.php:80-98 | every maximal run of two or more points followed by another point becomes the range of its class; every point of the final run stays a point |
| BidiData.InsertPermutes | data/BidiDataGenerator.php:100 | insertion adds exactly the one range |
| BidiData.InsertSorted | data/BidiDataGenerator.php:100 | insertion keeps the order |
| BidiData.SortRanges | data/BidiDataGenerator.php:100 | `sort` gives a permutation ordered by start, end, then class name |
| BidiData.LessEqAntisymmetric | data/BidiDataGenerator.php:100 | two ranges ordered both ways are equal, since class names are distinct |
| BidiData.SortedUnique | data/BidiDataGenerator.php:100 | two sorted permutations of one another are equal |
| BidiData.SortRangesIsSort | data/BidiDataGenerator.php:100 | every sorted permutation of the ranges is `SortRanges` of them, so the model's sort is PHP's `sort` |
| BidiData.MergeFromKeepsCoverage | data/BidiDataGenerator.php:105-114 | each merge step keeps which code points are covered with which class |
| BidiData.MergeFrom | data/BidiDataGenerator.php:102-114 | the second loop from a given position: a range of the same class starting right after the current run's end is joined to the previous entry |
| BidiData.MergeFromFullyMerged | data/BidiDataGenerator.php:105-114 | each merge step keeps neighbouring entries unmergeable |
| BidiData.MergeCorrect | data/BidiDataGenerator.php:102-114 | merging keeps coverage class by class and leaves no neighbours that continue each other with one class |
| BidiData.CompressKeepsClasses | data/BidiDataGenerator.php:78-115 | before and after compress the tables give every code point the same classes, and the ranges come out fully merged |
| BidiData.BidiDataGenerator.constructor | data/BidiDataGenerator.php:15-16 | both tables start empty |
| BidiData.BidiDataGenerator.Read | data/BidiDataGenerator.php:36-61 | the loop over the matched lines leaves `PointsOf` and appends `RangesOf` |
| BidiData.BidiDataGenerator.Compress | data/BidiDataGenerator.php:78-115 | the new points and ranges are `CompressedPoints` and `CompressedRanges` of the old |
| BidiData.BidiDataGenerator.RunsToRanges | data/BidiDataGenerator.php:80-98 | ksort and the first loop: the flushed runs are appended to the ranges and their points unset |
| BidiData.BidiDataGenerator.FlushRuns | data/BidiDataGenerator.php:82-98 | the loop over the sorted points, with `$lastCp`, `$lastClass` and `$run` |
| BidiData.BidiDataGenerator.UnsetAll | data/BidiDataGenerator.php:89-91 | every code point of the run is removed from the points and nothing else changes |
| BidiData.BidiDataGenerator.MergeRanges | data/BidiDataGenerator.php:100-114 | sort then the merge loop: the ranges become `Merge(SortRanges(old ranges))` |
| BidiData.KeptAfterFlush | data/BidiDataGenerator.php:88-91 | unsetting a run's points is keeping the points no flushed range covers |

## Left out

- Unicode data: general category, script, joining type, virama, default-ignorable, `\p{Cu}`, normalization and UTF-8 checking are oracles in `Unicode.Ucd`. The huge `CC_JT_*`, `CC_CCC_VIRAMA` and `CC_IGNORABLE` sets are represented by those oracles, not spelled out.
- The generated tables (`BidiDataTrait`, `CaseFoldDataTrait`) are parameters (`Bidi.BidiTables`, `CaseFold.FoldTable`).
- UTF-8 byte handling (`utf8chr`, `utf8ord`, `codePoint2utf8`, `utf82CodePoint`) and the debugging helper `analyzeString` are left out: strings are code points here.
- `Bidi.GetClass`: an empty string is looked up as code point 0, which is what `utf8ord('')` yields. The `\p{Cu}` test is the oracle `bidiUnassigned`; a PCRE that does not know `\p{Cu}` corresponds to an oracle that is always false.
- `BidiDataGenerator`: the file reading, the header-skipping loop, the line regular expression and `write` are left out. `read` is modelled from the matched lines on (`BidiData.Line`).
- `BidiDataGenerator::unassignedRanges` is left out: it parses comment text with regular expressions and has no logic beyond that.
- `BidiDataGenerator::run` and `CaseFoldDataGenerator` are not part of this model.
- BidiData.CompressKeepsClasses: the range-preservation property assumes every input range has `lo <= hi`, which holds for `DerivedBidiClass.txt` but is not checked by `read`.
- BidiData.CompressedRanges: it is not proved that the generated ranges are well-formed (sorted and disjoint) as `Bidi.SearchRanges` needs. Overlapping input ranges would stay overlapping.
- Bidi.SearchRangesAsWritten: the non-terminating loop is modelled with a fuel bound; `None` means the fuel ran out.
- Bidi.GetClass: both lookups use the terminating search `SearchSpec` where getClass calls searchRanges as written. For a code point outside the point table at or after the start of the last of two or more ranges (ranges `[0x10,0x20,R]`, `[0x30,0x40,AL]` and code point 0x35) the source never returns and the model answers AL. `GetClassAsWritten` models the call as written, and `GetClassAsWrittenSound` and `GetClassAsWrittenDiverges` say where the two agree.
- Bidi.GetClassTiers: its tiers are those of the terminating lookup; as written they hold only where getClass returns (`GetClassAsWrittenSound`).
- Bidi.RuleAsWritten: like every use of `GetClass` (`BidiRuleAsWritten`, `Rule`, the enforce functions), it answers where getClass as written would not return.
- PrecisCascade.GetPrecisProperty: the cascade runs the corrected `PrecisContext.ContextJ` (Left- or Dual-joining on the left of ZWNJ), not the code's R/D pattern. For U+A872 ZWNJ U+0622 at position 1 the source throws and the model gives PVALID; for U+0622 ZWNJ U+0622 the source gives PVALID and the model throws. `PrecisCascade.PrecisProperty`, `PrecisClass.IsClass`, `PrecisClass.GetStringClass`, the prepare functions and everything built on them inherit this.
- PrecisProfiles.EnforceUsername: applies the corrected `Bidi.Rule`, not Bidi::rule as written. The one-character username `a` is refused by the source and accepted here, and so is `a` U+0301. `EnforceUsernameAsWritten` applies the rule as written, and `EnforceUsernameAsWrittenAgrees` says where the two agree.
- PrecisProfiles.EnforcedUsername: the Bidi Rule it promises is the corrected one, for the reason above.
- Exceptions carry a kind and, for context rules, the position; their message text is left out.

## Findings

| source | as written | input that shows it | evidently intended | confidence | as-written member | corrected member |
|---|---|---|---|---|---|---|
| Bidi.php:59-73 | `$low = $mid` with `mid` rounded down: once `high == low + 1`, `mid == low` and the loop never ends for a code point at or after the start of the last range | ranges `[0x10,0x20,R]`, `[0x30,0x40,AL]`, code point 0x35 | binary search that ends and answers AL | not executed | Bidi.SearchRangesMissesLastRange | Bidi.SearchRanges |
| Precis.php:312 | the left side of the ZWNJ test is Right- or Dual-joining | U+A872 ZWNJ U+0622 at position 1 throws (the test at tests/unit/DerivedPropertyValueTest.php:83-87 expects PVALID) | Left- or Dual-joining on the left, as in RFC 5892 appendix A.1 | not executed | PrecisContext.ContextJLeftJoiningBeforeZwnj | PrecisContext.ContextJ |
| Bidi.php:91-95 | after `array_shift` of the only character, `end([])` is false and its class is that of code point 0, BN, so the end test fails | `a` (one L character) | one-character strings of class L, R or AL pass, as RFC 5893 section 2 allows | not executed | Bidi.OneCharacterRejected | Bidi.Rule |
| Bidi.php:95,129 | the end test looks at the very last character, so a trailing NSM fails | `a` U+0301 | the last non-NSM character must be L or EN (RTL: R, AL, EN or AN), followed by zero or more NSM, as in RFC 5893 rules 3 and 6 | not executed | Bidi.TrailingNsmRejected | Bidi.Rule |
