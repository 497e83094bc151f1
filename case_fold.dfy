/**
 * Unicode simple case folding (CaseFold::foldChar, CaseFold::fold): every
 * selected character is replaced by its image in the folding table, or kept
 * when the table has no entry for it. The table holds the C and S entries of
 * CaseFolding.txt, one code point to one code point.
 */
module CaseFold {
  import opened Unicode

  type FoldTable = map<CodePoint, CodePoint>

  const LineFeed: CodePoint := 0x0A

  /** foldChar: the table's image of `c`, or `c` itself when it is not a key. */
  function FoldChar(table: FoldTable, c: CodePoint): CodePoint {
    if c in table then table[c] else c
  }

  /**
   * The characters the pattern of `fold` matches: `[\p{Lu}\p{Lt}]` when only
   * upper- and title-case characters are folded, otherwise `.`, which without
   * the `s` modifier matches every character except LINE FEED.
   */
  predicate Selected(u: Ucd, upperTitleOnly: bool, c: CodePoint) {
    if upperTitleOnly then u.category(c) in {Lu, Lt} else c != LineFeed
  }

  /** fold: the per-match replacement of preg_replace_callback, character by character. */
  function Fold(u: Ucd, table: FoldTable, s: Text, upperTitleOnly: bool): (r: Text)
    ensures |r| == |s|
    ensures forall i | 0 <= i < |s| ::
              r[i] == if Selected(u, upperTitleOnly, s[i]) then FoldChar(table, s[i]) else s[i]
  {
    if s == [] then []
    else
      var c := if Selected(u, upperTitleOnly, s[0]) then FoldChar(table, s[0]) else s[0];
      [c] + Fold(u, table, s[1..], upperTitleOnly)
  }

  /** Folding works on each character alone, so it distributes over concatenation. */
  lemma {:induction false} FoldConcat(u: Ucd, table: FoldTable, a: Text, b: Text, upperTitleOnly: bool)
    ensures Fold(u, table, a + b, upperTitleOnly) == Fold(u, table, a, upperTitleOnly) + Fold(u, table, b, upperTitleOnly)
  {
    if a == [] {
      assert a + b == b;
    } else {
      assert (a + b)[0] == a[0] && (a + b)[1..] == a[1..] + b;
      FoldConcat(u, table, a[1..], b, upperTitleOnly);
    }
  }

  /** A string none of whose characters is a key of the table comes back unchanged. */
  lemma FoldWithoutKeys(u: Ucd, table: FoldTable, s: Text, upperTitleOnly: bool)
    requires forall i | 0 <= i < |s| :: s[i] !in table
    ensures Fold(u, table, s, upperTitleOnly) == s
  {
    var r := Fold(u, table, s, upperTitleOnly);
    assert forall i | 0 <= i < |s| :: r[i] == s[i];
  }

  /**
   * With `upperTitleOnly`, only upper- and title-case characters that are keys
   * of the table may change; every other character stays in place.
   */
  lemma RestrictedFoldChangesOnlyUpperTitle(u: Ucd, table: FoldTable, s: Text)
    ensures forall i | 0 <= i < |s| :: Fold(u, table, s, true)[i] != s[i] ==>
              u.category(s[i]) in {Lu, Lt} && s[i] in table
    ensures forall i | 0 <= i < |s| :: u.category(s[i]) in {Lu, Lt} ==>
              Fold(u, table, s, true)[i] == FoldChar(table, s[i])
  {
  }

  /** The full fold leaves LINE FEED alone and folds every other character. */
  lemma FullFoldSkipsOnlyLineFeed(u: Ucd, table: FoldTable, s: Text)
    ensures forall i | 0 <= i < |s| :: Fold(u, table, s, false)[i] ==
              if s[i] == LineFeed then LineFeed else FoldChar(table, s[i])
  {
  }

  /**
   * A table whose images are fixed points (as CaseFolding.txt's are: a folded
   * character folds to itself) makes either fold idempotent.
   */
  predicate ImagesAreFixed(table: FoldTable) {
    forall c | c in table :: FoldChar(table, table[c]) == table[c]
  }

  lemma FoldIdempotent(u: Ucd, table: FoldTable, s: Text, upperTitleOnly: bool)
    requires ImagesAreFixed(table)
    ensures Fold(u, table, Fold(u, table, s, upperTitleOnly), upperTitleOnly) == Fold(u, table, s, upperTitleOnly)
  {
    var once := Fold(u, table, s, upperTitleOnly);
    var twice := Fold(u, table, once, upperTitleOnly);
    forall i | 0 <= i < |s|
      ensures twice[i] == once[i]
    {
      if Selected(u, upperTitleOnly, s[i]) && s[i] in table {
        assert FoldChar(table, once[i]) == once[i];
      }
    }
  }
}
