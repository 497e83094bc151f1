/**
 * BidiDataGenerator: the tables that Bidi.getClass searches are built from
 * the lines of DerivedBidiClass.txt. `read` keeps every line whose class is
 * not L, as a range when it has an upper bound and as a point otherwise;
 * `compress` turns runs of consecutive points of one class into ranges and
 * then merges ranges that follow each other with the same class.
 */
module BidiData {
  import opened Wrappers
  import opened Bidi

  /** One matched line of DerivedBidiClass.txt: `first[..last] ; class`. */
  datatype Line = Line(first: int, last: Option<int>, cls: BidiClass)

  /** A point of the table, as ksort leaves it: code point and class. */
  datatype Point = Point(cp: int, cls: BidiClass)

  /** Some range of `ranges` covers `c` with class `k`. */
  predicate InRanges(ranges: seq<Range>, c: int, k: BidiClass) {
    exists r | r in ranges :: Covers(r, c) && r.cls == k
  }

  /** Some range of `ranges` covers `c`. */
  predicate Covered(ranges: seq<Range>, c: int) {
    exists r | r in ranges :: Covers(r, c)
  }

  /**
   * The classes the tables give `c`: the point's class, or the class of any
   * range covering it. A relation, because nothing stops two input ranges
   * from overlapping.
   */
  predicate Maps(points: map<int, BidiClass>, ranges: seq<Range>, c: int, k: BidiClass) {
    (c in points && points[c] == k) || InRanges(ranges, c, k)
  }

  // ---------------------------------------------------------------- read

  /** The points `read` stores, line after line; a later point line for the same code point wins. */
  function PointsOf(points: map<int, BidiClass>, lines: seq<Line>): map<int, BidiClass>
    decreases |lines|
  {
    if lines == [] then points
    else
      var line := lines[0];
      var next := if line.cls == L || line.last.Some? then points else points[line.first := line.cls];
      PointsOf(next, lines[1..])
  }

  /** The ranges `read` appends, in file order. */
  function RangesOf(lines: seq<Line>): seq<Range> {
    if lines == [] then []
    else
      var line := lines[0];
      (if line.cls != L && line.last.Some? then [Range(line.first, line.last.value, line.cls)] else [])
        + RangesOf(lines[1..])
  }

  /** No table holds class L: it is the default that getClass falls back to. */
  predicate NoL(points: map<int, BidiClass>, ranges: seq<Range>) {
    && (forall c | c in points :: points[c] != L)
    && (forall r | r in ranges :: r.cls != L)
  }

  /** `read` never stores L. */
  lemma {:induction false} ReadStoresNoL(points: map<int, BidiClass>, lines: seq<Line>)
    requires forall c | c in points :: points[c] != L
    ensures NoL(PointsOf(points, lines), RangesOf(lines))
    decreases |lines|
  {
    if lines != [] {
      var line := lines[0];
      var next := if line.cls == L || line.last.Some? then points else points[line.first := line.cls];
      ReadStoresNoL(next, lines[1..]);
    }
  }

  /**
   * Every line whose class is not L is recorded: a line with an upper bound
   * as that range, a single code point as that point unless a later point
   * line names the same code point.
   */
  lemma {:induction false} ReadRecordsLines(points: map<int, BidiClass>, lines: seq<Line>, i: nat)
    requires i < |lines| && lines[i].cls != L
    ensures lines[i].last.Some? ==> Range(lines[i].first, lines[i].last.value, lines[i].cls) in RangesOf(lines)
    ensures lines[i].last.None? && (forall j | i < j < |lines| :: lines[j].last.Some? || lines[j].cls == L || lines[j].first != lines[i].first) ==>
              lines[i].first in PointsOf(points, lines) && PointsOf(points, lines)[lines[i].first] == lines[i].cls
    decreases i
  {
    var line := lines[0];
    var next := if line.cls == L || line.last.Some? then points else points[line.first := line.cls];
    assert forall j | 1 <= j < |lines| :: lines[1..][j - 1] == lines[j];
    if i > 0 {
      ReadRecordsLines(next, lines[1..], i - 1);
    } else if line.last.None? && (forall j | 0 < j < |lines| :: lines[j].last.Some? || lines[j].cls == L || lines[j].first != line.first) {
      PointsOfKeeps(next, lines[1..], line.first);
    }
  }

  /** A code point that no later point line names keeps its class. */
  lemma {:induction false} PointsOfKeeps(points: map<int, BidiClass>, lines: seq<Line>, c: int)
    requires c in points
    requires forall j | 0 <= j < |lines| :: lines[j].last.Some? || lines[j].cls == L || lines[j].first != c
    ensures c in PointsOf(points, lines) && PointsOf(points, lines)[c] == points[c]
    decreases |lines|
  {
    if lines != [] {
      var line := lines[0];
      var next := if line.cls == L || line.last.Some? then points else points[line.first := line.cls];
      assert lines[0].last.Some? || lines[0].cls == L || lines[0].first != c;
      PointsOfKeeps(next, lines[1..], c);
    }
  }

  // ---------------------------------------------------------------- ksort

  lemma HasElement(s: set<int>)
    requires s != {}
    ensures exists x :: x in s
  {
    if forall x :: x !in s {
      assert false;
    }
  }

  predicate IsMin(s: set<int>, m: int) {
    m in s && forall y | y in s :: m <= y
  }

  lemma {:induction false} MinExists(s: set<int>)
    requires s != {}
    ensures exists m :: IsMin(s, m)
    decreases |s|
  {
    HasElement(s);
    var x :| x in s;
    if s == {x} {
      assert IsMin(s, x);
    } else {
      var t := s - {x};
      MinExists(t);
      var m :| IsMin(t, m);
      var lo := if x < m then x else m;
      forall y | y in s
        ensures lo <= y
      {
        if y != x {
          assert y in t;
        }
      }
      assert IsMin(s, lo);
    }
  }

  function Min(s: set<int>): (m: int)
    requires s != {}
    ensures IsMin(s, m)
  {
    MinExists(s);
    var m :| IsMin(s, m);
    m
  }

  /** The keys in increasing order. */
  function SortedKeys(s: set<int>): (ks: seq<int>)
    ensures |ks| == |s|
    ensures forall i | 0 <= i < |ks| :: ks[i] in s
    ensures forall c | c in s :: c in ks
    ensures forall i, j | 0 <= i < j < |ks| :: ks[i] < ks[j]
    decreases |s|
  {
    if s == {} then []
    else
      var m := Min(s);
      var rest := SortedKeys(s - {m});
      assert forall i | 0 <= i < |rest| :: m < rest[i] by {
        forall i | 0 <= i < |rest|
          ensures m < rest[i]
        {
          assert rest[i] in s - {m};
        }
      }
      var ks := [m] + rest;
      assert forall i | 0 < i < |ks| :: ks[i] == rest[i - 1];
      assert forall c | c in s :: c == m || c in s - {m};
      ks
  }

  /** ksort: the points in increasing order of code point. */
  function Entries(points: map<int, BidiClass>): (e: seq<Point>)
    ensures |e| == |points.Keys|
    ensures forall i | 0 <= i < |e| :: e[i].cp in points && points[e[i].cp] == e[i].cls
    ensures forall i, j | 0 <= i < j < |e| :: e[i].cp < e[j].cp
  {
    var ks := SortedKeys(points.Keys);
    seq(|ks|, i requires 0 <= i < |ks| => Point(ks[i], points[ks[i]]))
  }

  // ---------------------------------------------------------------- runs to ranges

  /** The point at `i` starts a new run: it does not continue the previous one by code point and class. */
  predicate Breaks(e: seq<Point>, i: int)
    requires 0 <= i < |e|
  {
    i == 0 || e[i].cp != e[i - 1].cp + 1 || e[i].cls != e[i - 1].cls
  }

  /** `e[start..i]` is one run: consecutive code points, one class. */
  predicate IsRun(e: seq<Point>, start: int, i: int)
    requires 0 <= start < i <= |e|
  {
    forall j | start <= j < i :: e[j].cp == e[start].cp + (j - start) && e[j].cls == e[start].cls
  }

  /**
   * The ranges the first loop of compress appends, scanning from `i` with
   * the current run starting at `start`: a run is flushed when a later point
   * breaks it and it holds two or more points; the run open at the end is not.
   */
  function FlushFrom(e: seq<Point>, i: nat, start: nat): seq<Range>
    requires start <= i <= |e|
    decreases |e| - i
  {
    if i == |e| then []
    else if Breaks(e, i) then Piece(e, i, start) + FlushFrom(e, i + 1, i)
    else FlushFrom(e, i + 1, start)
  }

  /** The ranges made from runs of points. */
  function Flushed(points: map<int, BidiClass>): seq<Range> {
    FlushFrom(Entries(points), 0, 0)
  }

  /** The points left once the points of the flushed runs are unset. */
  function Kept(points: map<int, BidiClass>, flushed: seq<Range>): map<int, BidiClass> {
    map c | c in points && !Covered(flushed, c) :: points[c]
  }

  /**
   * Every flushed range covers two or more code points, each of them a point
   * of the given class.
   */
  lemma {:induction false} FlushFromSound(e: seq<Point>, i: nat, start: nat)
    requires start <= i <= |e| && (start < i ==> IsRun(e, start, i)) && (i == 0 ==> start == 0)
    requires i > 0 ==> start < i
    ensures forall r | r in FlushFrom(e, i, start) ::
              r.lo < r.hi && forall c | r.lo <= c <= r.hi :: exists j | 0 <= j < |e| :: e[j] == Point(c, r.cls)
    decreases |e| - i
  {
    if i < |e| {
      if Breaks(e, i) {
        FlushFromSound(e, i + 1, i);
        if i - start > 1 {
          var r := Range(e[start].cp, e[i - 1].cp, e[i - 1].cls);
          forall c | r.lo <= c <= r.hi
            ensures exists j | 0 <= j < |e| :: e[j] == Point(c, r.cls)
          {
            var j := start + (c - e[start].cp);
            assert e[i - 1].cp == e[start].cp + (i - 1 - start);
            assert e[j] == Point(c, r.cls);
          }
        }
      } else {
        assert IsRun(e, start, i + 1);
        FlushFromSound(e, i + 1, start);
      }
    }
  }

  /** Every flushed range covers two or more points of its class and nothing else. */
  lemma FlushedAreRuns(points: map<int, BidiClass>)
    ensures forall r | r in Flushed(points) ::
              r.lo < r.hi && forall c | r.lo <= c <= r.hi :: c in points && points[c] == r.cls
  {
    var e := Entries(points);
    FlushFromSound(e, 0, 0);
    forall r | r in Flushed(points)
      ensures forall c | r.lo <= c <= r.hi :: c in points && points[c] == r.cls
    {
      forall c | r.lo <= c <= r.hi
        ensures c in points && points[c] == r.cls
      {
        var j :| 0 <= j < |e| && e[j] == Point(c, r.cls);
      }
    }
  }

  /** A flushed range ends before the last point of the scan. */
  lemma {:induction false} FlushFromBelowLast(e: seq<Point>, i: nat, start: nat)
    requires start <= i <= |e| && 0 < |e|
    requires forall a, b | 0 <= a < b < |e| :: e[a].cp < e[b].cp
    ensures forall r | r in FlushFrom(e, i, start) :: r.hi < e[|e| - 1].cp
    decreases |e| - i
  {
    if i < |e| {
      if Breaks(e, i) {
        FlushFromBelowLast(e, i + 1, i);
      } else {
        FlushFromBelowLast(e, i + 1, start);
      }
    }
  }

  /**
   * The points compress leaves alone: a point whose neighbours by code point
   * do not share its class is never part of a run, and the highest point
   * belongs to the run still open at the end, which is never flushed.
   */
  lemma PointsThatStay(points: map<int, BidiClass>, c: int)
    requires c in points
    ensures !((c - 1) in points && points[c - 1] == points[c]) && !((c + 1) in points && points[c + 1] == points[c]) ==>
              c in Kept(points, Flushed(points))
    ensures (forall d | d in points :: d <= c) ==> c in Kept(points, Flushed(points))
  {
    FlushedAreRuns(points);
    var e := Entries(points);
    if forall d | d in points :: d <= c {
      assert |points.Keys| > 0 by {
        assert c in points.Keys;
      }
      FlushFromBelowLast(e, 0, 0);
      assert e[|e| - 1].cp <= c;
    }
  }

  /** `e[a..b]` is a run that cannot be extended on either side. */
  predicate MaximalRun(e: seq<Point>, a: int, b: int) {
    && 0 <= a < b <= |e|
    && IsRun(e, a, b)
    && Breaks(e, a)
    && (b < |e| ==> Breaks(e, b))
  }

  /**
   * A maximal run of two or more points that a later point breaks is
   * flushed as one range, whether the scan is still before it or inside it.
   */
  lemma {:induction false} FlushFromComplete(e: seq<Point>, i: nat, start: nat, a: nat, b: nat)
    requires start <= i <= |e| && MaximalRun(e, a, b) && b < |e| && b - a >= 2
    requires i <= a || (start == a && i <= b)
    ensures Range(e[a].cp, e[b - 1].cp, e[a].cls) in FlushFrom(e, i, start)
    decreases |e| - i
  {
    if i == b {
      assert Piece(e, b, a) == [Range(e[a].cp, e[b - 1].cp, e[a].cls)];
    } else if Breaks(e, i) {
      FlushFromComplete(e, i + 1, i, a, b);
    } else {
      FlushFromComplete(e, i + 1, start, a, b);
    }
  }

  /**
   * A flushed range ends below the run still open at the end of the scan, so
   * that run is never flushed.
   */
  lemma {:induction false} FlushFromBelowFinalRun(e: seq<Point>, i: nat, start: nat, a: nat)
    requires start <= i <= |e| && MaximalRun(e, a, |e|)
    requires forall x, y | 0 <= x < y < |e| :: e[x].cp < e[y].cp
    requires i <= a || start == a
    ensures forall r | r in FlushFrom(e, i, start) :: r.hi < e[a].cp
    decreases |e| - i
  {
    if i < |e| {
      if Breaks(e, i) {
        if i - start > 1 {
          assert e[i - 1].cp < e[a].cp;
        }
        FlushFromBelowFinalRun(e, i + 1, i, a);
      } else {
        FlushFromBelowFinalRun(e, i + 1, start, a);
      }
    }
  }

  /**
   * Runs become ranges: every maximal run of two or more points followed by
   * a later point is flushed as one range of its class, and every point of
   * the run open at the end stays a point.
   */
  lemma RunsBecomeRanges(points: map<int, BidiClass>, a: nat, b: nat)
    requires MaximalRun(Entries(points), a, b)
    ensures b < |Entries(points)| && b - a >= 2 ==>
              Range(Entries(points)[a].cp, Entries(points)[b - 1].cp, Entries(points)[a].cls) in Flushed(points)
    ensures b == |Entries(points)| ==>
              forall j | a <= j < b :: Entries(points)[j].cp in Kept(points, Flushed(points))
  {
    var e := Entries(points);
    if b < |e| && b - a >= 2 {
      FlushFromComplete(e, 0, 0, a, b);
    }
    if b == |e| {
      FlushFromBelowFinalRun(e, 0, 0, a);
      forall j | a <= j < b
        ensures e[j].cp in Kept(points, Flushed(points))
      {
        if j > a {
          assert e[a].cp < e[j].cp;
        }
        assert !Covered(Flushed(points), e[j].cp);
      }
    }
  }

  // ---------------------------------------------------------------- sort

  /** PHP's order on `[lo, hi, class]` arrays: by lo, then hi, then the class name. */
  predicate LessEq(a: Range, b: Range) {
    a.lo < b.lo || (a.lo == b.lo && (a.hi < b.hi || (a.hi == b.hi && Rank(a.cls) <= Rank(b.cls))))
  }

  predicate Sorted(rs: seq<Range>) {
    forall i, j | 0 <= i < j < |rs| :: LessEq(rs[i], rs[j])
  }

  function Insert(r: Range, rs: seq<Range>): seq<Range> {
    if rs == [] || LessEq(r, rs[0]) then [r] + rs else [rs[0]] + Insert(r, rs[1..])
  }

  lemma {:induction false} InsertPermutes(r: Range, rs: seq<Range>)
    ensures multiset(Insert(r, rs)) == multiset(rs) + multiset{r}
  {
    if rs != [] && !LessEq(r, rs[0]) {
      InsertPermutes(r, rs[1..]);
      assert rs == [rs[0]] + rs[1..];
    }
  }

  lemma {:induction false} InsertSorted(r: Range, rs: seq<Range>)
    requires Sorted(rs)
    ensures Sorted(Insert(r, rs))
  {
    if rs != [] && !LessEq(r, rs[0]) {
      var tail := Insert(r, rs[1..]);
      InsertSorted(r, rs[1..]);
      InsertPermutes(r, rs[1..]);
      forall j | 0 <= j < |tail|
        ensures LessEq(rs[0], tail[j])
      {
        assert tail[j] in multiset(tail);
        if tail[j] != r {
          assert tail[j] in multiset(rs[1..]);
          var m :| 1 <= m < |rs| && rs[m] == tail[j];
        }
      }
      var out := [rs[0]] + tail;
      forall a, b | 0 <= a < b < |out|
        ensures LessEq(out[a], out[b])
      {
        if a > 0 {
          assert out[a] == tail[a - 1] && out[b] == tail[b - 1];
        } else {
          assert out[b] == tail[b - 1];
        }
      }
    }
  }

  /** `sort($this->ranges)`: a sorted permutation. */
  function SortRanges(rs: seq<Range>): (out: seq<Range>)
    ensures multiset(out) == multiset(rs)
    ensures Sorted(out)
  {
    if rs == [] then []
    else
      var tail := SortRanges(rs[1..]);
      InsertPermutes(rs[0], tail);
      InsertSorted(rs[0], tail);
      assert rs == [rs[0]] + rs[1..];
      Insert(rs[0], tail)
  }

  /** Two ranges ordered both ways are the same range, since class names are distinct. */
  lemma LessEqAntisymmetric(x: Range, y: Range)
    requires LessEq(x, y) && LessEq(y, x)
    ensures x == y
  {
    RankInjective(x.cls, y.cls);
  }

  /** The head of a sorted sequence is below every element of it. */
  lemma SortedHeadLeast(a: seq<Range>, x: Range)
    requires Sorted(a) && x in multiset(a)
    ensures a != [] && LessEq(a[0], x)
  {
    var k :| 0 <= k < |a| && a[k] == x;
    if k > 0 {
      assert LessEq(a[0], a[k]);
    }
  }

  lemma SortedTail(a: seq<Range>)
    requires Sorted(a) && a != []
    ensures Sorted(a[1..])
  {
    forall i, j | 0 <= i < j < |a[1..]|
      ensures LessEq(a[1..][i], a[1..][j])
    {
      assert a[1..][i] == a[i + 1] && a[1..][j] == a[j + 1];
    }
  }

  /**
   * A sorted permutation is unique, so `SortRanges` is the order PHP's `sort`
   * leaves, whatever algorithm it uses.
   */
  lemma {:induction false} SortedUnique(a: seq<Range>, b: seq<Range>)
    requires Sorted(a) && Sorted(b) && multiset(a) == multiset(b)
    ensures a == b
    decreases |a|
  {
    if a != [] {
      SortedHeadLeast(b, a[0]);
      SortedHeadLeast(a, b[0]);
      LessEqAntisymmetric(a[0], b[0]);
      assert a == [a[0]] + a[1..] && b == [b[0]] + b[1..];
      assert a[0] == b[0];
      assert multiset(a[1..]) == multiset(a) - multiset{a[0]};
      assert multiset(b[1..]) == multiset(b) - multiset{b[0]};
      SortedTail(a);
      SortedTail(b);
      SortedUnique(a[1..], b[1..]);
    } else {
      assert multiset(b) == multiset{};
    }
  }

  /** Any sorted permutation of the ranges is the one `SortRanges` gives. */
  lemma SortRangesIsSort(rs: seq<Range>, out: seq<Range>)
    requires multiset(out) == multiset(rs) && Sorted(out)
    ensures out == SortRanges(rs)
  {
    SortedUnique(out, SortRanges(rs));
  }

  // ---------------------------------------------------------------- merge

  /**
   * The second loop of compress, from index `i`, where `out` holds the
   * entries still set and `runStart` the first code point of the current
   * run: a range that starts right after the previous one ends, with the
   * same class, replaces the previous entry and takes the run's start.
   */
  function MergeFrom(rs: seq<Range>, i: nat, out: seq<Range>, runStart: int): seq<Range>
    requires i <= |rs| && (i > 0 ==> out != [])
    decreases |rs| - i
  {
    if i == |rs| then out
    else
      var r := rs[i];
      if i == 0 || r.lo != rs[i - 1].hi + 1 || r.cls != rs[i - 1].cls then MergeFrom(rs, i + 1, out + [r], r.lo)
      else MergeFrom(rs, i + 1, out[..|out| - 1] + [Range(runStart, r.hi, r.cls)], runStart)
  }

  function Merge(rs: seq<Range>): seq<Range> {
    MergeFrom(rs, 0, [], -10)
  }

  /** No two entries that follow each other could still be merged. */
  predicate FullyMerged(rs: seq<Range>) {
    forall j | 0 <= j < |rs| - 1 :: !(rs[j + 1].lo == rs[j].hi + 1 && rs[j + 1].cls == rs[j].cls)
  }

  /** The state the merge loop keeps: the last entry set is the current run, ending where `rs[i - 1]` ends. */
  predicate MergeState(rs: seq<Range>, i: nat, out: seq<Range>, runStart: int)
    requires i <= |rs|
  {
    && (i == 0 ==> out == [])
    && (i > 0 ==> out != [] && out[|out| - 1] == Range(runStart, rs[i - 1].hi, rs[i - 1].cls) && runStart <= rs[i - 1].hi)
  }

  lemma InRangesConcat(a: seq<Range>, b: seq<Range>, c: int, k: BidiClass)
    ensures InRanges(a + b, c, k) <==> InRanges(a, c, k) || InRanges(b, c, k)
  {
    if InRanges(a + b, c, k) {
      var r :| r in a + b && Covers(r, c) && r.cls == k;
      assert r in a || r in b;
    }
    if InRanges(a, c, k) {
      var r :| r in a && Covers(r, c) && r.cls == k;
      assert r in a + b;
    }
    if InRanges(b, c, k) {
      var r :| r in b && Covers(r, c) && r.cls == k;
      assert r in a + b;
    }
  }

  lemma InRangesSingle(r: Range, c: int, k: BidiClass)
    ensures InRanges([r], c, k) <==> Covers(r, c) && r.cls == k
  {
    assert r in [r];
  }

  /** One step of the merge that starts a new entry. */
  lemma MergeStepBreak(out: seq<Range>, rest: seq<Range>, r: Range, c: int, k: BidiClass)
    ensures (InRanges(out + [r], c, k) || InRanges(rest, c, k)) <==> (InRanges(out, c, k) || InRanges([r] + rest, c, k))
  {
    InRangesConcat(out, [r], c, k);
    InRangesConcat([r], rest, c, k);
  }

  /** One step of the merge that widens the last entry over the next range. */
  lemma MergeStepJoin(out: seq<Range>, rest: seq<Range>, r: Range, runStart: int, c: int, k: BidiClass)
    requires out != [] && out[|out| - 1].lo == runStart && out[|out| - 1].cls == r.cls
    requires runStart <= out[|out| - 1].hi && r.lo == out[|out| - 1].hi + 1 && r.lo <= r.hi
    ensures (InRanges(out[..|out| - 1] + [Range(runStart, r.hi, r.cls)], c, k) || InRanges(rest, c, k))
            <==> (InRanges(out, c, k) || InRanges([r] + rest, c, k))
  {
    var n := |out| - 1;
    var last := out[n];
    var merged := Range(runStart, r.hi, r.cls);
    InRangesConcat(out[..n], [merged], c, k);
    assert out == out[..n] + [last];
    InRangesConcat(out[..n], [last], c, k);
    InRangesConcat([r], rest, c, k);
    InRangesSingle(merged, c, k);
    InRangesSingle(last, c, k);
    InRangesSingle(r, c, k);
  }

  /** Merging keeps the ranges' coverage, class by class. */
  lemma {:induction false} MergeFromKeepsCoverage(rs: seq<Range>, i: nat, out: seq<Range>, runStart: int, c: int, k: BidiClass)
    requires i <= |rs| && (i > 0 ==> out != []) && MergeState(rs, i, out, runStart)
    requires forall r | r in rs :: r.lo <= r.hi
    ensures InRanges(MergeFrom(rs, i, out, runStart), c, k) <==> InRanges(out, c, k) || InRanges(rs[i..], c, k)
    decreases |rs| - i
  {
    if i < |rs| {
      var r := rs[i];
      assert rs[i..] == [r] + rs[i + 1..];
      assert r in rs;
      if i == 0 || r.lo != rs[i - 1].hi + 1 || r.cls != rs[i - 1].cls {
        MergeFromKeepsCoverage(rs, i + 1, out + [r], r.lo, c, k);
        MergeStepBreak(out, rs[i + 1..], r, c, k);
      } else {
        var merged := Range(runStart, r.hi, r.cls);
        MergeFromKeepsCoverage(rs, i + 1, out[..|out| - 1] + [merged], runStart, c, k);
        MergeStepJoin(out, rs[i + 1..], r, runStart, c, k);
      }
    }
  }

  /** After the merge no two neighbouring entries could be merged further. */
  lemma {:induction false} MergeFromFullyMerged(rs: seq<Range>, i: nat, out: seq<Range>, runStart: int)
    requires i <= |rs| && (i > 0 ==> out != []) && MergeState(rs, i, out, runStart)
    requires forall r | r in rs :: r.lo <= r.hi
    requires FullyMerged(out)
    ensures FullyMerged(MergeFrom(rs, i, out, runStart))
    decreases |rs| - i
  {
    if i < |rs| {
      var r := rs[i];
      assert r in rs;
      var n := |out| - 1;
      if i == 0 || r.lo != rs[i - 1].hi + 1 || r.cls != rs[i - 1].cls {
        var next := out + [r];
        assert forall j | 0 <= j < |out| :: next[j] == out[j];
        assert next[|next| - 1] == r;
        MergeFromFullyMerged(rs, i + 1, next, r.lo);
      } else {
        var merged := Range(runStart, r.hi, r.cls);
        var next := out[..n] + [merged];
        assert forall j | 0 <= j < n :: next[j] == out[j];
        assert next[n] == merged && merged.lo == out[n].lo && merged.cls == out[n].cls;
        MergeFromFullyMerged(rs, i + 1, next, runStart);
      }
    }
  }

  /** The merge keeps coverage and leaves nothing to merge. */
  lemma MergeCorrect(rs: seq<Range>)
    requires forall r | r in rs :: r.lo <= r.hi
    ensures forall c, k :: InRanges(Merge(rs), c, k) <==> InRanges(rs, c, k)
    ensures FullyMerged(Merge(rs))
  {
    forall c, k
      ensures InRanges(Merge(rs), c, k) <==> InRanges(rs, c, k)
    {
      MergeFromKeepsCoverage(rs, 0, [], -10, c, k);
      assert rs[0..] == rs;
      assert !InRanges([], c, k);
    }
    MergeFromFullyMerged(rs, 0, [], -10);
  }

  // ---------------------------------------------------------------- compress

  /** What compress makes of the tables: the points left, and the sorted and merged ranges. */
  function CompressedPoints(points: map<int, BidiClass>): map<int, BidiClass> {
    Kept(points, Flushed(points))
  }

  function CompressedRanges(points: map<int, BidiClass>, ranges: seq<Range>): seq<Range> {
    Merge(SortRanges(ranges + Flushed(points)))
  }

  /**
   * compress changes how the classes are stored, never which class a code
   * point has: given non-empty input ranges, the tables before and after map
   * every code point to the same classes, and the ranges come out fully merged.
   */
  lemma CompressKeepsClasses(points: map<int, BidiClass>, ranges: seq<Range>)
    requires forall r | r in ranges :: r.lo <= r.hi
    ensures forall c, k :: Maps(points, ranges, c, k) <==>
              Maps(CompressedPoints(points), CompressedRanges(points, ranges), c, k)
    ensures FullyMerged(CompressedRanges(points, ranges))
  {
    var f := Flushed(points);
    FlushedAreRuns(points);
    var sorted := SortRanges(ranges + f);
    assert forall r | r in sorted :: r in multiset(ranges + f);
    assert forall r | r in ranges + f :: r.lo <= r.hi;
    MergeCorrect(sorted);
    forall c, k
      ensures Maps(points, ranges, c, k) <==> Maps(CompressedPoints(points), CompressedRanges(points, ranges), c, k)
    {
      InRangesConcat(ranges, f, c, k);
      assert InRanges(sorted, c, k) <==> InRanges(ranges + f, c, k) by {
        if InRanges(sorted, c, k) {
          var r :| r in sorted && Covers(r, c) && r.cls == k;
          assert r in multiset(ranges + f);
        }
        if InRanges(ranges + f, c, k) {
          var r :| r in ranges + f && Covers(r, c) && r.cls == k;
          assert r in multiset(sorted);
        }
      }
      if c in points && points[c] == k && Covered(f, c) {
        var r :| r in f && Covers(r, c);
        assert r.cls == k;
      }
    }
  }

  /** The generator's tables; `points` is the PHP array keyed by code point. */
  class BidiDataGenerator {
    var points: map<int, BidiClass>
    var ranges: seq<Range>

    constructor()
      ensures points == map[] && ranges == []
    {
      points := map[];
      ranges := [];
    }

    /** The loop of `read` over the matched lines. */
    method Read(lines: seq<Line>)
      modifies this
      ensures points == PointsOf(old(points), lines)
      ensures ranges == old(ranges) + RangesOf(lines)
    {
      var i := 0;
      while i < |lines|
        invariant 0 <= i <= |lines|
        invariant PointsOf(points, lines[i..]) == PointsOf(old(points), lines)
        invariant ranges + RangesOf(lines[i..]) == old(ranges) + RangesOf(lines)
      {
        var line := lines[i];
        assert lines[i..][1..] == lines[i + 1..];
        if line.cls != L {
          if line.last.Some? {
            ranges := ranges + [Range(line.first, line.last.value, line.cls)];
          } else {
            points := points[line.first := line.cls];
          }
        }
        i := i + 1;
      }
      assert lines[i..] == [];
    }

    /** compress: runs of points become ranges, then the ranges are sorted and merged. */
    method Compress()
      modifies this
      ensures points == CompressedPoints(old(points))
      ensures ranges == CompressedRanges(old(points), old(ranges))
    {
      RunsToRanges();
      MergeRanges();
    }

    /** The first loop of compress over the ksorted points, with `$lastCp`, `$lastClass` and `$run`. */
    method RunsToRanges()
      modifies this
      ensures points == Kept(old(points), Flushed(old(points)))
      ensures ranges == old(ranges) + Flushed(old(points))
    {
      FlushRuns(Entries(points));
    }

    /** The loop itself, over the ksorted points `e`. */
    method FlushRuns(e: seq<Point>)
      modifies this
      ensures points == Kept(old(points), FlushFrom(e, 0, 0))
      ensures ranges == old(ranges) + FlushFrom(e, 0, 0)
    {
      ghost var p0 := points;
      ghost var flushed: seq<Range> := [];
      ghost var start := 0;
      var lastCp := -10;
      var lastClass: Option<BidiClass> := None;
      var run: seq<int> := [];
      var i := 0;
      while i < |e|
        invariant 0 <= start <= i <= |e| && (i > 0 ==> start < i) && (i == 0 ==> start == 0)
        invariant start < i ==> IsRun(e, start, i)
        invariant |run| == i - start && forall j | 0 <= j < |run| :: run[j] == e[start + j].cp
        invariant i > 0 ==> lastCp == e[i - 1].cp && lastClass == Some(e[i - 1].cls)
        invariant i == 0 ==> lastCp == -10 && lastClass == None
        invariant ranges == old(ranges) + flushed
        invariant flushed + FlushFrom(e, i, start) == FlushFrom(e, 0, 0)
        invariant points == Kept(p0, flushed)
      {
        var cp := e[i].cp;
        var cls := e[i].cls;
        if cp != lastCp + 1 || lastClass != Some(cls) {
          assert Breaks(e, i);
          BreakStep(e, i, start, flushed);
          if |run| > 1 {
            var r := Range(run[0], run[|run| - 1], lastClass.value);
            assert Piece(e, i, start) == [r];
            RunIsConsecutive(e, start, i, run);
            KeptAfterFlush(p0, flushed, run, r);
            ranges := ranges + [r];
            UnsetAll(run);
          }
          flushed := flushed + Piece(e, i, start);
          run := [];
          start := i;
        } else {
          assert FlushFrom(e, i, start) == FlushFrom(e, i + 1, start);
          RunExtends(e, start, i);
        }
        run := run + [cp];
        lastCp := cp;
        lastClass := Some(cls);
        i := i + 1;
      }
    }

    /** `unset($this->points[$runCp])` for every code point of the run. */
    method UnsetAll(run: seq<int>)
      modifies this
      ensures points == old(points) - (set k | 0 <= k < |run| :: run[k])
      ensures ranges == old(ranges)
    {
      var j := 0;
      while j < |run|
        invariant 0 <= j <= |run|
        invariant points == old(points) - (set k | 0 <= k < j :: run[k])
        invariant ranges == old(ranges)
      {
        points := points - {run[j]};
        assert (set k | 0 <= k < j + 1 :: run[k]) == (set k | 0 <= k < j :: run[k]) + {run[j]};
        j := j + 1;
      }
    }

    /** The second loop of compress: sort, then merge neighbouring ranges of one class. */
    method MergeRanges()
      modifies this
      ensures points == old(points)
      ensures ranges == Merge(SortRanges(old(ranges)))
    {
      var rs := SortRanges(ranges);
      var out: seq<Range> := [];
      var lastCp := -10;
      var lastClass: Option<BidiClass> := None;
      var runStart := -10;
      var i := 0;
      while i < |rs|
        invariant 0 <= i <= |rs| && (i > 0 ==> out != [])
        invariant i > 0 ==> lastCp == rs[i - 1].hi && lastClass == Some(rs[i - 1].cls)
        invariant i == 0 ==> lastCp == -10 && lastClass == None && out == [] && runStart == -10
        invariant MergeFrom(rs, i, out, runStart) == Merge(rs)
      {
        var r := rs[i];
        if r.lo != lastCp + 1 || lastClass != Some(r.cls) {
          runStart := r.lo;
          out := out + [r];
        } else {
          out := out[..|out| - 1] + [Range(runStart, r.hi, r.cls)];
        }
        lastCp := r.hi;
        lastClass := Some(r.cls);
        i := i + 1;
      }
      ranges := out;
    }
  }

  /** The range a break flushes: the run before it, when it holds two or more points. */
  function Piece(e: seq<Point>, i: nat, start: nat): seq<Range>
    requires start <= i <= |e|
  {
    if i - start > 1 then [Range(e[start].cp, e[i - 1].cp, e[i - 1].cls)] else []
  }

  lemma BreakStep(e: seq<Point>, i: nat, start: nat, flushed: seq<Range>)
    requires start <= i < |e| && Breaks(e, i)
    ensures flushed + FlushFrom(e, i, start) == (flushed + Piece(e, i, start)) + FlushFrom(e, i + 1, i)
  {
  }

  lemma RunExtends(e: seq<Point>, start: nat, i: nat)
    requires start < i < |e| && IsRun(e, start, i) && !Breaks(e, i)
    ensures IsRun(e, start, i + 1)
  {
    assert e[i - 1].cp == e[start].cp + (i - 1 - start);
  }

  lemma RunIsConsecutive(e: seq<Point>, start: nat, i: nat, run: seq<int>)
    requires start < i <= |e| && IsRun(e, start, i)
    requires |run| == i - start && forall j | 0 <= j < |run| :: run[j] == e[start + j].cp
    ensures forall j | 0 <= j < |run| :: run[j] == run[0] + j
  {
  }

  /**
   * Unsetting the points of a run is the same as keeping only the points no
   * flushed range covers, once the run's range is flushed.
   */
  lemma KeptAfterFlush(points: map<int, BidiClass>, flushed: seq<Range>, run: seq<int>, r: Range)
    requires |run| > 1 && r.lo == run[0] && r.hi == run[|run| - 1]
    requires forall j | 0 <= j < |run| :: run[j] == run[0] + j
    ensures Kept(points, flushed) - (set k | 0 <= k < |run| :: run[k]) == Kept(points, flushed + [r])
  {
    var lhs := Kept(points, flushed) - (set k | 0 <= k < |run| :: run[k]);
    var rhs := Kept(points, flushed + [r]);
    forall c
      ensures c in lhs <==> c in rhs
    {
      assert Covered(flushed + [r], c) <==> Covered(flushed, c) || Covers(r, c) by {
        if Covered(flushed + [r], c) {
          var x :| x in flushed + [r] && Covers(x, c);
          assert x in flushed || x == r;
        }
        if Covered(flushed, c) {
          var x :| x in flushed && Covers(x, c);
          assert x in flushed + [r];
        }
        if Covers(r, c) {
          assert r in flushed + [r];
        }
      }
      if Covers(r, c) {
        assert run[c - run[0]] == c;
      }
    }
    assert lhs == rhs;
  }
}
