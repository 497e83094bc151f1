/**
 * The Bidi Rule of RFC 5893 section 2 and the Bidi_Class lookup it rests on
 * (Bidi::getClass, Bidi::searchRanges, Bidi::rule). The class tables are the
 * ones the data generator emits: exact code points, sorted ranges, and the
 * ranges that give unassigned code points their default class.
 */
module Bidi {
  import opened Wrappers
  import opened Unicode
  import Precis

  /**
   * The Bidi_Class aliases of DerivedBidiClass.txt, in the byte order of their
   * names, plus `BR`, the label getClass gives ignorable unassigned code points.
   */
  datatype BidiClass =
    | AL | AN | B | BN | BR | CS | EN | ES | ET | FSI | L | LRE | LRI | LRO
    | NSM | ON | PDF | PDI | R | RLE | RLI | RLO | S | WS

  /** The position of a class's name in PHP's string order (`strcmp` of the aliases). */
  function Rank(c: BidiClass): nat {
    match c
    case AL => 0 case AN => 1 case B => 2 case BN => 3 case BR => 4 case CS => 5
    case EN => 6 case ES => 7 case ET => 8 case FSI => 9 case L => 10 case LRE => 11
    case LRI => 12 case LRO => 13 case NSM => 14 case ON => 15 case PDF => 16 case PDI => 17
    case R => 18 case RLE => 19 case RLI => 20 case RLO => 21 case S => 22 case WS => 23
  }

  /** Distinct classes have distinct names, so comparing names orders classes totally. */
  lemma RankInjective(a: BidiClass, b: BidiClass)
    ensures Rank(a) == Rank(b) <==> a == b
  {
  }

  /** `[first, last, class]`: the code points `lo..hi`, all of class `cls`. */
  datatype Range = Range(lo: CodePoint, hi: CodePoint, cls: BidiClass)

  /** The three tables of BidiDataTrait. */
  datatype BidiTables = BidiTables(
    codePoints: map<CodePoint, BidiClass>,
    codePointRanges: seq<Range>,
    unassignedDefaultRanges: seq<Range>)

  predicate Covers(r: Range, ord: CodePoint) {
    r.lo <= ord <= r.hi
  }

  /** Each range is non-empty and the ranges are sorted and do not overlap. */
  predicate WellFormed(rs: seq<Range>) {
    && (forall i | 0 <= i < |rs| :: rs[i].lo <= rs[i].hi)
    && (forall i, j | 0 <= i < j < |rs| :: rs[i].hi < rs[j].lo)
  }

  /** The class of the first range that covers `ord`, by linear scan. */
  function RangeLookup(rs: seq<Range>, ord: CodePoint): Option<BidiClass> {
    if rs == [] then None
    else if Covers(rs[0], ord) then Some(rs[0].cls)
    else RangeLookup(rs[1..], ord)
  }

  /** In a well-formed table the range that covers `ord` gives its class. */
  lemma {:induction false} LookupHit(rs: seq<Range>, ord: CodePoint, i: nat)
    requires WellFormed(rs) && i < |rs| && Covers(rs[i], ord)
    ensures RangeLookup(rs, ord) == Some(rs[i].cls)
  {
    if i > 0 {
      assert !Covers(rs[0], ord) by {
        assert rs[0].hi < rs[i].lo;
      }
      assert WellFormed(rs[1..]) by {
        forall a, b | 0 <= a < b < |rs[1..]|
          ensures rs[1..][a].hi < rs[1..][b].lo
        {
          assert rs[1..][a] == rs[a + 1] && rs[1..][b] == rs[b + 1];
        }
      }
      LookupHit(rs[1..], ord, i - 1);
    }
  }

  /** A code point no range covers has no class. */
  lemma {:induction false} LookupMiss(rs: seq<Range>, ord: CodePoint)
    requires forall i | 0 <= i < |rs| :: !Covers(rs[i], ord)
    ensures RangeLookup(rs, ord) == None
  {
    if rs != [] {
      assert !Covers(rs[0], ord);
      assert forall i | 0 <= i < |rs[1..]| :: rs[1..][i] == rs[i + 1];
      LookupMiss(rs[1..], ord);
    }
  }

  /** `ord` lies strictly between two neighbouring ranges. */
  predicate InGap(rs: seq<Range>, ord: CodePoint) {
    exists j | 0 <= j < |rs| - 1 :: rs[j].hi < ord < rs[j + 1].lo
  }

  /**
   * What searchRanges answers when it answers: the covering range's class;
   * the literal `L` for a code point between two ranges; otherwise nothing
   * (`null`), which sends getClass on to its fallbacks.
   */
  function SearchSpec(rs: seq<Range>, ord: CodePoint): Option<BidiClass> {
    match RangeLookup(rs, ord)
    case Some(c) => Some(c)
    case None => if InGap(rs, ord) then Some(L) else None
  }

  /**
   * searchRanges with the bounds of a terminating binary search: `low` moves
   * past `mid` and `high` below it, so every range is looked at, the last one
   * included, and `ranges[mid + 1]` is read only when it exists.
   */
  method SearchRanges(rs: seq<Range>, ord: CodePoint) returns (r: Option<BidiClass>)
    requires WellFormed(rs)
    ensures r == SearchSpec(rs, ord)
  {
    var low := 0;
    var high := |rs| - 1;
    while low <= high
      invariant 0 <= low <= high + 1 <= |rs|
      invariant forall i | 0 <= i < low :: rs[i].hi < ord
      invariant forall i | high < i < |rs| :: ord < rs[i].lo
      invariant 0 < low < |rs| ==> rs[low].lo <= ord
      decreases high - low
    {
      var mid := low + (high - low) / 2;
      if rs[mid].lo <= ord {
        if ord <= rs[mid].hi {
          LookupHit(rs, ord, mid);
          return Some(rs[mid].cls);
        }
        if mid + 1 < |rs| && ord < rs[mid + 1].lo {
          GapAnswer(rs, ord, mid);
          return Some(L);
        }
        forall i | 0 <= i <= mid
          ensures rs[i].hi < ord
        {
          if i < mid {
            assert rs[i].hi < rs[mid].lo;
          }
        }
        low := mid + 1;
      } else {
        forall i | mid <= i < |rs|
          ensures ord < rs[i].lo
        {
          if i > mid {
            assert rs[mid].hi < rs[i].lo;
          }
        }
        high := mid - 1;
      }
    }
    assert low == 0 || low == |rs|;
    LookupMiss(rs, ord);
    forall j | 0 <= j < |rs| - 1
      ensures !(rs[j].hi < ord < rs[j + 1].lo)
    {
      if j + 1 < low {
        assert rs[j + 1].lo <= rs[j + 1].hi;
      }
    }
    return None;
  }

  /** One state of searchRanges's do-while loop as written. */
  datatype SearchState = Searching(low: int, high: int) | Found(answer: Option<BidiClass>)

  /**
   * One iteration of the loop as written, followed by its `while` test. When
   * `ord` is past `ranges[mid]` and `ranges[mid + 1]` does not exist, PHP
   * reads null, `ord < null` is false, and `low = mid` is taken.
   */
  function SearchStep(rs: seq<Range>, ord: CodePoint, low: int, high: int): SearchState
    requires 0 <= low <= high < |rs|
  {
    var mid := low + (high - low) / 2;
    var next :=
      if rs[mid].lo <= ord then
        if ord <= rs[mid].hi then Found(Some(rs[mid].cls))
        else if mid + 1 < |rs| && ord < rs[mid + 1].lo then Found(Some(L))
        else Searching(mid, high)
      else Searching(low, mid);
    if next.Searching? && !(next.high - next.low > 0) then Found(None) else next
  }

  /** The window stays inside the table, and only shrinks or stays put. */
  lemma StepStaysInBounds(rs: seq<Range>, ord: CodePoint, low: int, high: int)
    requires 0 <= low <= high < |rs|
    ensures SearchStep(rs, ord, low, high).Searching? ==>
              && low <= SearchStep(rs, ord, low, high).low < SearchStep(rs, ord, low, high).high <= high
  {
  }

  /**
   * searchRanges as written, run for at most `fuel` iterations: `None` when
   * the loop is still going after them, `Some(answer)` when it returned.
   * With no ranges at all PHP's loop reads `ranges[-1]` and returns null.
   */
  function SearchLoop(rs: seq<Range>, ord: CodePoint, low: int, high: int, fuel: nat): Option<Option<BidiClass>>
    requires 0 <= low <= high < |rs|
    decreases fuel
  {
    if fuel == 0 then None
    else
      match SearchStep(rs, ord, low, high)
      case Found(a) => Some(a)
      case Searching(l, h) => StepStaysInBounds(rs, ord, low, high); SearchLoop(rs, ord, l, h, fuel - 1)
  }

  function SearchRangesAsWritten(rs: seq<Range>, ord: CodePoint, fuel: nat): Option<Option<BidiClass>> {
    if rs == [] then Some(None) else SearchLoop(rs, ord, 0, |rs| - 1, fuel)
  }

  /**
   * With two ranges or more, a code point at or after the start of the last
   * range keeps the loop running for ever: `high` stays at the last index,
   * `mid` never reaches it, and `low = mid` stops moving once `high = low + 1`.
   */
  lemma {:induction false} SearchLoopDiverges(rs: seq<Range>, ord: CodePoint, low: int, fuel: nat)
    requires WellFormed(rs) && 0 <= low < |rs| - 1 && rs[|rs| - 1].lo <= ord
    decreases fuel
    ensures SearchLoop(rs, ord, low, |rs| - 1, fuel) == None
  {
    var high := |rs| - 1;
    var mid := low + (high - low) / 2;
    assert mid < high;
    assert rs[mid].hi < rs[high].lo;
    if mid + 1 < high {
      assert rs[mid + 1].hi < rs[high].lo;
    }
    if fuel > 0 {
      assert SearchStep(rs, ord, low, high) == Searching(mid, high);
      SearchLoopDiverges(rs, ord, mid, fuel - 1);
    }
  }

  lemma SearchRangesDiverges(rs: seq<Range>, ord: CodePoint, fuel: nat)
    requires WellFormed(rs) && |rs| >= 2 && rs[|rs| - 1].lo <= ord
    ensures SearchRangesAsWritten(rs, ord, fuel) == None
  {
    SearchLoopDiverges(rs, ord, 0, fuel);
  }

  /** The smallest instance: a code point inside the last of two ranges is never found. */
  lemma SearchRangesMissesLastRange(fuel: nat)
    ensures SearchRangesAsWritten([Range(0x10, 0x20, R), Range(0x30, 0x40, AL)], 0x35, fuel) == None
    ensures SearchSpec([Range(0x10, 0x20, R), Range(0x30, 0x40, AL)], 0x35) == Some(AL)
  {
    var rs := [Range(0x10, 0x20, R), Range(0x30, 0x40, AL)];
    SearchRangesDiverges(rs, 0x35, fuel);
    LookupHit(rs, 0x35, 1);
  }

  /**
   * What the loop as written knows about its window: everything before `low`
   * ends before `ord`; from `high` on everything starts after `ord`, unless
   * `high` is still the last index; and once `low` has moved, `ord` is at or
   * after the start of the range after `low`.
   */
  predicate WindowInvariant(rs: seq<Range>, ord: CodePoint, low: int, high: int) {
    && 0 <= low <= high < |rs|
    && (low < high || |rs| == 1)
    && (forall i | 0 <= i < low :: rs[i].hi < ord)
    && (high == |rs| - 1 || forall i | high <= i < |rs| :: ord < rs[i].lo)
    && (0 < low ==> low + 1 < |rs| && rs[low + 1].lo <= ord)
  }

  /** A code point strictly between ranges `mid` and `mid + 1` of a well-formed table is in a gap. */
  lemma GapAnswer(rs: seq<Range>, ord: CodePoint, mid: int)
    requires WellFormed(rs) && 0 <= mid && mid + 1 < |rs| && rs[mid].hi < ord < rs[mid + 1].lo
    ensures SearchSpec(rs, ord) == Some(L)
  {
    forall i | 0 <= i < |rs|
      ensures !Covers(rs[i], ord)
    {
      if i < mid {
        assert rs[i].hi < rs[mid].lo;
      } else if i > mid + 1 {
        assert rs[mid + 1].hi < rs[i].lo;
      }
    }
    LookupMiss(rs, ord);
  }

  /** One iteration as written keeps the window invariant, and what it returns is right. */
  lemma StepSound(rs: seq<Range>, ord: CodePoint, low: int, high: int)
    requires WellFormed(rs) && WindowInvariant(rs, ord, low, high)
    ensures SearchStep(rs, ord, low, high).Found? ==> SearchStep(rs, ord, low, high).answer == SearchSpec(rs, ord)
    ensures SearchStep(rs, ord, low, high).Searching? ==>
              WindowInvariant(rs, ord, SearchStep(rs, ord, low, high).low, SearchStep(rs, ord, low, high).high)
  {
    var mid := low + (high - low) / 2;
    if rs[mid].lo <= ord {
      if ord <= rs[mid].hi {
        LookupHit(rs, ord, mid);
      } else if mid + 1 < |rs| && ord < rs[mid + 1].lo {
        GapAnswer(rs, ord, mid);
      } else {
        forall i | 0 <= i < mid
          ensures rs[i].hi < ord
        {
          assert rs[i].hi < rs[mid].lo;
        }
        if high - mid <= 0 {
          SearchEndsEmpty(rs, ord);
        }
      }
    } else {
      forall i | mid <= i < |rs|
        ensures ord < rs[i].lo
      {
        if i > mid {
          assert rs[mid].hi < rs[i].lo;
        }
      }
      if mid - low <= 0 {
        SearchEndsEmpty(rs, ord);
      }
    }
  }

  /** Whenever the loop as written does return, on a well-formed table, it returns what `SearchSpec` says. */
  lemma {:induction false} SearchLoopSound(rs: seq<Range>, ord: CodePoint, low: int, high: int, fuel: nat)
    requires WellFormed(rs) && WindowInvariant(rs, ord, low, high)
    decreases fuel
    ensures SearchLoop(rs, ord, low, high, fuel).Some? ==> SearchLoop(rs, ord, low, high, fuel).value == SearchSpec(rs, ord)
  {
    if fuel > 0 {
      StepSound(rs, ord, low, high);
      var st := SearchStep(rs, ord, low, high);
      if st.Searching? {
        SearchLoopSound(rs, ord, st.low, st.high, fuel - 1);
      }
    }
  }

  /**
   * The loop as written only runs out of window at index 0: below the first
   * range, or past the only one. Then no range covers `ord` and no gap holds it.
   */
  lemma SearchEndsEmpty(rs: seq<Range>, ord: CodePoint)
    requires WellFormed(rs) && 0 < |rs|
    requires forall i | 0 < i < |rs| :: ord < rs[i].lo
    requires !Covers(rs[0], ord)
    requires ord > rs[0].hi ==> |rs| == 1
    ensures SearchSpec(rs, ord) == None
  {
    forall i | 0 <= i < |rs|
      ensures !Covers(rs[i], ord)
    {
    }
    LookupMiss(rs, ord);
    forall j | 0 <= j < |rs| - 1
      ensures !(rs[j].hi < ord < rs[j + 1].lo)
    {
      if j > 0 {
        assert rs[j].lo <= rs[j].hi;
      }
    }
  }

  lemma SearchRangesAsWrittenSound(rs: seq<Range>, ord: CodePoint, fuel: nat)
    requires WellFormed(rs)
    ensures SearchRangesAsWritten(rs, ord, fuel).Some? ==> SearchRangesAsWritten(rs, ord, fuel).value == SearchSpec(rs, ord)
  {
    if rs != [] {
      SearchLoopSound(rs, ord, 0, |rs| - 1, fuel);
    }
  }

  /**
   * getClass on the string `ch`. Only its first character counts
   * (`mb_substr($char, 0, 1)`), and the empty string, which is what
   * `array_shift`, `end` and `array_pop` hand over for an empty array, has
   * code point 0 but matches no `\p{..}` class.
   */
  function GetClass(u: Ucd, t: BidiTables, ch: Text): BidiClass {
    var ord := if ch == [] then 0 else ch[0];
    if ord in t.codePoints then t.codePoints[ord]
    else
      match SearchSpec(t.codePointRanges, ord)
      case Some(k) => k
      case None =>
        if ch != [] && u.bidiUnassigned(ord) then
          match SearchSpec(t.unassignedDefaultRanges, ord)
          case Some(k) => k
          case None => if Precis.Member(u, Precis.Ignorable, ord) then BR else L
        else L
  }

  /** The tiers of getClass against the tables, for a well-formed range table. */
  lemma GetClassTiers(u: Ucd, t: BidiTables, c: CodePoint)
    requires WellFormed(t.codePointRanges) && WellFormed(t.unassignedDefaultRanges)
    ensures c in t.codePoints ==> GetClass(u, t, [c]) == t.codePoints[c]
    ensures forall i | 0 <= i < |t.codePointRanges| && Covers(t.codePointRanges[i], c) ::
              c !in t.codePoints ==> GetClass(u, t, [c]) == t.codePointRanges[i].cls
    ensures c !in t.codePoints && InGap(t.codePointRanges, c) && RangeLookup(t.codePointRanges, c) == None ==>
              GetClass(u, t, [c]) == L
    ensures c !in t.codePoints && SearchSpec(t.codePointRanges, c) == None ==>
              GetClass(u, t, [c]) ==
                if !u.bidiUnassigned(c) then L
                else match SearchSpec(t.unassignedDefaultRanges, c)
                  case Some(k) => k
                  case None => if u.category(c) == Cn || u.defaultIgnorable(c) then BR else L
  {
    forall i | 0 <= i < |t.codePointRanges| && Covers(t.codePointRanges[i], c)
      ensures RangeLookup(t.codePointRanges, c) == Some(t.codePointRanges[i].cls)
    {
      LookupHit(t.codePointRanges, c, i);
    }
  }

  /** A code point in a gap of the range table is `L`, whatever the unassigned-default table says. */
  lemma GapSkipsUnassignedDefaults(u: Ucd, t: BidiTables, c: CodePoint, j: nat)
    requires WellFormed(t.codePointRanges) && c !in t.codePoints
    requires j + 1 < |t.codePointRanges| && t.codePointRanges[j].hi < c < t.codePointRanges[j + 1].lo
    ensures GetClass(u, t, [c]) == L
  {
    GapAnswer(t.codePointRanges, c, j);
  }

  /**
   * getClass with both lookups done by searchRanges as written, each search
   * run for at most `fuel` iterations: `None` when a search is still going.
   */
  function GetClassAsWritten(u: Ucd, t: BidiTables, ch: Text, fuel: nat): Option<BidiClass> {
    var ord := if ch == [] then 0 else ch[0];
    if ord in t.codePoints then Some(t.codePoints[ord])
    else
      match SearchRangesAsWritten(t.codePointRanges, ord, fuel)
      case None => None
      case Some(Some(k)) => Some(k)
      case Some(None) =>
        if ch != [] && u.bidiUnassigned(ord) then
          match SearchRangesAsWritten(t.unassignedDefaultRanges, ord, fuel)
          case None => None
          case Some(Some(k)) => Some(k)
          case Some(None) => Some(if Precis.Member(u, Precis.Ignorable, ord) then BR else L)
        else Some(L)
  }

  /**
   * Whenever getClass as written returns, it returns what `GetClass` gives,
   * so every tier of `GetClassTiers` holds of its answers.
   */
  lemma GetClassAsWrittenSound(u: Ucd, t: BidiTables, ch: Text, fuel: nat)
    requires WellFormed(t.codePointRanges) && WellFormed(t.unassignedDefaultRanges)
    ensures GetClassAsWritten(u, t, ch, fuel).Some? ==> GetClassAsWritten(u, t, ch, fuel).value == GetClass(u, t, ch)
  {
    var ord := if ch == [] then 0 else ch[0];
    SearchRangesAsWrittenSound(t.codePointRanges, ord, fuel);
    SearchRangesAsWrittenSound(t.unassignedDefaultRanges, ord, fuel);
  }

  /**
   * getClass as written does not return for a code point outside the point
   * table at or after the start of the last of two or more ranges, where
   * `GetClass` answers.
   */
  lemma GetClassAsWrittenDiverges(u: Ucd, t: BidiTables, c: CodePoint, fuel: nat)
    requires WellFormed(t.codePointRanges) && |t.codePointRanges| >= 2
    requires c !in t.codePoints && t.codePointRanges[|t.codePointRanges| - 1].lo <= c
    ensures GetClassAsWritten(u, t, [c], fuel) == None
    ensures c <= t.codePointRanges[|t.codePointRanges| - 1].hi ==>
              GetClass(u, t, [c]) == t.codePointRanges[|t.codePointRanges| - 1].cls
  {
    SearchRangesDiverges(t.codePointRanges, c, fuel);
    if c <= t.codePointRanges[|t.codePointRanges| - 1].hi {
      LookupHit(t.codePointRanges, c, |t.codePointRanges| - 1);
    }
  }

  /** The class of the character at `i`. */
  function ClassAt(u: Ucd, t: BidiTables, s: Text, i: int): BidiClass
    requires 0 <= i < |s|
  {
    GetClass(u, t, [s[i]])
  }

  const RtlAllowed: set<BidiClass> := {R, AL, AN, EN, ES, CS, ET, ON, BN, NSM}
  const RtlEnd: set<BidiClass> := {R, AL, EN, AN}
  const LtrAllowed: set<BidiClass> := {L, EN, ES, CS, ET, ON, BN, NSM}
  const LtrEnd: set<BidiClass> := {L, EN}

  /** `end($chars)` or `array_pop($chars)` as a string: the empty string for an empty array. */
  function LastOf(chars: Text): Text {
    if chars == [] then [] else [chars[|chars| - 1]]
  }

  /** Every character at an index in `[lo, hi)` has a class in `allowed`. */
  predicate AllIn(u: Ucd, t: BidiTables, s: Text, lo: nat, hi: int, allowed: set<BidiClass>)
    requires hi <= |s|
  {
    forall i | lo <= i < hi :: ClassAt(u, t, s, i) in allowed
  }

  /** Some character of `s` has class `c`. */
  predicate HasClass(u: Ucd, t: BidiTables, s: Text, c: BidiClass) {
    exists i | 0 <= i < |s| :: ClassAt(u, t, s, i) == c
  }

  /**
   * Bidi::rule as written. The first character is shifted off; for an RTL
   * start the class of the last remaining character must end the string and
   * every remaining character must be allowed in RTL, with no AN once an EN
   * has appeared; for an LTR start the popped last character must be L or EN
   * and every character between must be allowed in LTR.
   */
  function BidiRuleAsWritten(u: Ucd, t: BidiTables, s: Text): bool {
    var first := if s == [] then [] else [s[0]];
    var rest := if s == [] then [] else s[1..];
    var firstClass := GetClass(u, t, first);
    if firstClass == R || firstClass == AL then
      && GetClass(u, t, LastOf(rest)) in RtlEnd
      && AllIn(u, t, rest, 0, |rest|, RtlAllowed)
      && !(HasClass(u, t, rest, EN) && HasClass(u, t, rest, AN))
    else if firstClass == L then
      && GetClass(u, t, LastOf(rest)) in LtrEnd
      && AllIn(u, t, rest, 0, |rest| - 1, LtrAllowed)
    else false
  }

  /** Bidi::rule: `array_shift`, `end`/`array_pop`, the foreach loops and the `$en` flag. */
  method RuleAsWritten(u: Ucd, t: BidiTables, s: Text) returns (ok: bool)
    ensures ok == BidiRuleAsWritten(u, t, s)
  {
    var chars := s;
    var first: Text := [];
    if chars != [] {
      first := [chars[0]];
      chars := chars[1..];
    }
    var firstClass := GetClass(u, t, first);
    if firstClass == R || firstClass == AL {
      if GetClass(u, t, LastOf(chars)) !in RtlEnd {
        return false;
      }
      var en := false;
      var i := 0;
      while i < |chars|
        invariant 0 <= i <= |chars|
        invariant AllIn(u, t, chars, 0, i, RtlAllowed)
        invariant en <==> exists k | 0 <= k < i :: ClassAt(u, t, chars, k) == EN
      {
        var cls := GetClass(u, t, [chars[i]]);
        assert cls == ClassAt(u, t, chars, i);
        if cls !in RtlAllowed {
          return false;
        }
        if cls == EN {
          en := true;
        }
        i := i + 1;
      }
      if en {
        var j := 0;
        while j < |chars|
          invariant 0 <= j <= |chars|
          invariant forall k | 0 <= k < j :: ClassAt(u, t, chars, k) != AN
        {
          if GetClass(u, t, [chars[j]]) == AN {
            assert ClassAt(u, t, chars, j) == AN;
            return false;
          }
          j := j + 1;
        }
      }
      return true;
    }
    if firstClass == L {
      var last := LastOf(chars);
      ghost var rest := chars;
      if chars != [] {
        chars := chars[..|chars| - 1];
      }
      if GetClass(u, t, last) !in LtrEnd {
        return false;
      }
      var i := 0;
      while i < |chars|
        invariant 0 <= i <= |chars|
        invariant |chars| == if rest == [] then 0 else |rest| - 1
        invariant forall k | 0 <= k < |chars| :: chars[k] == rest[k]
        invariant AllIn(u, t, rest, 0, i, LtrAllowed)
      {
        assert chars[i] == rest[i];
        if GetClass(u, t, [chars[i]]) !in LtrAllowed {
          assert ClassAt(u, t, rest, i) !in LtrAllowed;
          return false;
        }
        i := i + 1;
      }
      return true;
    }
    return false;
  }

  /** The string ends with a character whose class is in `ends`, followed by NSM characters only. */
  predicate EndsWith(u: Ucd, t: BidiTables, s: Text, ends: set<BidiClass>) {
    exists e | 0 <= e < |s| :: ClassAt(u, t, s, e) in ends && forall k | e < k < |s| :: ClassAt(u, t, s, k) == NSM
  }

  /**
   * The Bidi Rule of RFC 5893 section 2, conditions 1 to 6, applied as the
   * profiles apply it (to every string). The empty string has no first
   * character and fails condition 1.
   */
  predicate Rule(u: Ucd, t: BidiTables, s: Text) {
    if s == [] then false
    else
      var first := ClassAt(u, t, s, 0);
      if first == R || first == AL then
        && AllIn(u, t, s, 1, |s|, RtlAllowed)
        && EndsWith(u, t, s, RtlEnd)
        && !(HasClass(u, t, s, EN) && HasClass(u, t, s, AN))
      else if first == L then
        && AllIn(u, t, s, 1, |s|, LtrAllowed)
        && EndsWith(u, t, s, LtrEnd)
      else false
  }

  /** With a last character that is not NSM, the end condition is about the last character alone. */
  lemma EndsWithLast(u: Ucd, t: BidiTables, s: Text, ends: set<BidiClass>)
    requires |s| > 0 && ClassAt(u, t, s, |s| - 1) != NSM
    ensures EndsWith(u, t, s, ends) <==> ClassAt(u, t, s, |s| - 1) in ends
  {
    if EndsWith(u, t, s, ends) {
      var e :| 0 <= e < |s| && ClassAt(u, t, s, e) in ends && forall k | e < k < |s| :: ClassAt(u, t, s, k) == NSM;
      assert e == |s| - 1;
    }
  }

  /**
   * For strings of two or more characters that do not end in NSM the rule as
   * written is the RFC 5893 rule.
   */
  lemma RuleAsWrittenAgrees(u: Ucd, t: BidiTables, s: Text)
    requires |s| >= 2 && ClassAt(u, t, s, |s| - 1) != NSM
    ensures BidiRuleAsWritten(u, t, s) == Rule(u, t, s)
  {
    var first := ClassAt(u, t, s, 0);
    assert GetClass(u, t, LastOf(s[1..])) == ClassAt(u, t, s, |s| - 1);
    if first == R || first == AL {
      EndsWithLast(u, t, s, RtlEnd);
      ShiftedAll(u, t, s, RtlAllowed, |s| - 1);
      ShiftedSome(u, t, s, EN);
      ShiftedSome(u, t, s, AN);
    } else if first == L {
      EndsWithLast(u, t, s, LtrEnd);
      ShiftedAll(u, t, s, LtrAllowed, |s| - 2);
    }
  }

  /** Dropping the first character shifts the indices of the rest by one. */
  lemma ShiftedAll(u: Ucd, t: BidiTables, s: Text, allowed: set<BidiClass>, n: nat)
    requires 0 < |s| && n < |s|
    ensures AllIn(u, t, s[1..], 0, n, allowed) <==> AllIn(u, t, s, 1, n + 1, allowed)
  {
    assert forall i | 0 <= i < n :: ClassAt(u, t, s[1..], i) == ClassAt(u, t, s, i + 1);
    if AllIn(u, t, s[1..], 0, n, allowed) {
      forall i | 1 <= i < n + 1
        ensures ClassAt(u, t, s, i) in allowed
      {
        assert ClassAt(u, t, s[1..], i - 1) == ClassAt(u, t, s, i);
      }
    }
  }

  lemma ShiftedSome(u: Ucd, t: BidiTables, s: Text, c: BidiClass)
    requires 0 < |s| && ClassAt(u, t, s, 0) != c
    ensures HasClass(u, t, s[1..], c) <==> HasClass(u, t, s, c)
  {
    if i :| 0 <= i < |s| && ClassAt(u, t, s, i) == c {
      assert ClassAt(u, t, s[1..], i - 1) == c;
    }
    if i :| 0 <= i < |s[1..]| && ClassAt(u, t, s[1..], i) == c {
      assert ClassAt(u, t, s, i + 1) == c;
    }
  }

  /**
   * A one-character string: `end` and `array_pop` find the array empty, so the
   * end test reads the class of code point 0, which DerivedBidiClass.txt
   * gives as BN (whether the tables hold it as a point or in a range).
   * Every one-character string is rejected, where RFC 5893 accepts those
   * whose character is L, R or AL.
   */
  lemma OneCharacterRejected(u: Ucd, t: BidiTables, c: CodePoint)
    requires GetClass(u, t, []) == BN
    ensures !BidiRuleAsWritten(u, t, []) && !Rule(u, t, [])
    ensures !BidiRuleAsWritten(u, t, [c])
    ensures Rule(u, t, [c]) <==> GetClass(u, t, [c]) in {L, R, AL}
  {
    assert [c][1..] == [];
    if GetClass(u, t, [c]) in {L, R, AL} {
      assert ClassAt(u, t, [c], 0) == GetClass(u, t, [c]);
    }
  }

  /**
   * RFC 5893 conditions 3 and 6 allow NSM characters after the end
   * character; the rule as written does not: `a` followed by U+0301 COMBINING
   * ACUTE ACCENT (NSM) is rejected.
   */
  lemma TrailingNsmRejected(u: Ucd, t: BidiTables)
    requires GetClass(u, t, [0x61]) == L && GetClass(u, t, [0x0301]) == NSM
    ensures !BidiRuleAsWritten(u, t, [0x61, 0x0301])
    ensures Rule(u, t, [0x61, 0x0301])
  {
    var s: Text := [0x61, 0x0301];
    assert s[1..] == [0x0301];
    assert ClassAt(u, t, s, 0) == L && ClassAt(u, t, s, 1) == NSM;
  }
}
