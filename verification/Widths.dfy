/** Screen widths: the generator `gen_wcwidth.py` of the table in `locale_wcwidth.c`, and
    the binary search of `locale_ctype.c` over that table. */
module Widths {
  import opened Words

  /** `__CT_SCRW0` and `__CT_SCRW2`. */
  const SCRW0: Word32 := {29}
  const SCRW2: Word32 := {31}

  datatype Range = Range(first: nat, last: nat, width: Word32)

  predicate Covers(r: Range, c: nat) { r.first <= c <= r.last }

  ghost predicate CoversAny(rs: seq<Range>, c: nat) {
    exists i | 0 <= i < |rs| :: Covers(rs[i], c)
  }

  /** Sorted and disjoint, with at least `gap` between the ends of two ranges. */
  ghost predicate Ordered(rs: seq<Range>, gap: nat) {
    && (forall i | 0 <= i < |rs| :: rs[i].first <= rs[i].last)
    && forall i, j | 0 <= i < j < |rs| :: rs[i].last + gap <= rs[j].first
  }

  // ---------------------------------------------------------------- searching

  /** The flags of the first range that holds `c`, found by looking at all of them. */
  function WidthOf(rs: seq<Range>, c: nat): Word32 {
    if rs == [] then {} else if Covers(rs[0], c) then rs[0].width else WidthOf(rs[1..], c)
  }

  lemma {:induction false} WidthOfCovering(rs: seq<Range>, c: nat, i: nat)
    requires Ordered(rs, 1) && i < |rs| && Covers(rs[i], c)
    ensures WidthOf(rs, c) == rs[i].width
  {
    if i > 0 { WidthOfCovering(rs[1..], c, i - 1); }
  }

  lemma {:induction false} WidthOfNone(rs: seq<Range>, c: nat)
    requires !CoversAny(rs, c)
    ensures WidthOf(rs, c) == {}
  {
    if rs != [] {
      assert !Covers(rs[0], c);
      forall i | 0 <= i < |rs[1..]| ensures !Covers(rs[1..][i], c) { assert rs[1..][i] == rs[i + 1]; }
      WidthOfNone(rs[1..], c);
    }
  }

  /** `unicodeWidthFlags`: halving finds the flags of the one range that holds `wc`, or
      0 when none does. */
  method UnicodeWidthFlags(rs: seq<Range>, wc: nat) returns (flags: Word32)
    requires Ordered(rs, 1)
    ensures flags == WidthOf(rs, wc)
    ensures forall i | 0 <= i < |rs| && Covers(rs[i], wc) :: flags == rs[i].width
    ensures !CoversAny(rs, wc) ==> flags == {}
  {
    var first, count := 0, |rs|;
    while first < count
      invariant first <= count <= |rs|
      invariant forall i | 0 <= i < first :: rs[i].last < wc
      invariant forall i | count <= i < |rs| :: wc < rs[i].first
    {
      var middle := first + (count - first) / 2;
      var range := rs[middle];
      if wc < range.first {
        count := middle;
      } else if wc > range.last {
        first := middle + 1;
      } else {
        WidthOfCovering(rs, wc, middle);
        return range.width;
      }
    }
    WidthOfNone(rs, wc);
    return {};
  }

  // ---------------------------------------------------------------- generating

  ghost predicate Increasing(points: seq<nat>) {
    forall i, j | 0 <= i < j < |points| :: points[i] < points[j]
  }

  /** The fewest ranges that hold exactly these points. */
  ghost predicate Intervals(rs: seq<Range>, points: seq<nat>, width: Word32) {
    && Ordered(rs, 2)
    && (forall i | 0 <= i < |rs| :: rs[i].width == width)
    && forall c: nat :: c in points <==> CoversAny(rs, c)
  }

  /** `intervals`, over the sorted points: grow the last range or begin another. */
  method MakeIntervals(points: seq<nat>, width: Word32) returns (rs: seq<Range>)
    requires Increasing(points)
    ensures Intervals(rs, points, width)
  {
    rs := [];
    for i := 0 to |points|
      invariant Intervals(rs, points[..i], width)
      invariant rs == [] <==> i == 0
      invariant i > 0 ==> rs[|rs| - 1].last == points[i - 1]
    {
      var point := points[i];
      assert points[..i + 1] == points[..i] + [point];
      if rs != [] && point == rs[|rs| - 1].last + 1 {
        GrowLast(rs, points[..i], width, point);
        rs := rs[..|rs| - 1] + [rs[|rs| - 1].(last := point)];
      } else {
        BeginRange(rs, points[..i], width, point);
        rs := rs + [Range(point, point, width)];
      }
    }
    assert points[..|points|] == points;
  }

  lemma GrowLast(rs: seq<Range>, points: seq<nat>, width: Word32, point: nat)
    requires Intervals(rs, points, width) && rs != [] && point == rs[|rs| - 1].last + 1
    ensures Intervals(rs[..|rs| - 1] + [rs[|rs| - 1].(last := point)], points + [point], width)
  {
    var n := |rs| - 1;
    var ts := rs[..n] + [rs[n].(last := point)];
    forall c: nat ensures c in points + [point] <==> CoversAny(ts, c) {
      if CoversAny(rs, c) {
        var i :| 0 <= i < |rs| && Covers(rs[i], c);
        assert Covers(ts[i], c);
      }
      if CoversAny(ts, c) {
        var i :| 0 <= i < |ts| && Covers(ts[i], c);
        assert Covers(rs[i], c) || c == point;
      }
      assert Covers(ts[n], point);
    }
  }

  lemma BeginRange(rs: seq<Range>, points: seq<nat>, width: Word32, point: nat)
    requires Intervals(rs, points, width) && (rs != [] ==> point > rs[|rs| - 1].last + 1)
    ensures Intervals(rs + [Range(point, point, width)], points + [point], width)
  {
    var ts := rs + [Range(point, point, width)];
    forall c: nat ensures c in points + [point] <==> CoversAny(ts, c) {
      if CoversAny(rs, c) {
        var i :| 0 <= i < |rs| && Covers(rs[i], c);
        assert Covers(ts[i], c);
      }
      if CoversAny(ts, c) {
        var i :| 0 <= i < |ts| && Covers(ts[i], c);
        assert i < |rs| ==> Covers(rs[i], c);
      }
      assert Covers(ts[|rs|], point);
    }
  }

  /** What Python's `sorted` promises of a list of ranges. */
  ghost predicate SortedFrom(table: seq<Range>, rs: seq<Range>) {
    && multiset(table) == multiset(rs)
    && forall i, j | 0 <= i < j < |table| :: table[i].first <= table[j].first
  }

  predicate Disjoint(r: Range, t: Range) { r.last < t.first || t.last < r.first }

  ghost predicate AllDisjoint(rs: seq<Range>) {
    && (forall i | 0 <= i < |rs| :: rs[i].first <= rs[i].last)
    && forall i, j | 0 <= i < j < |rs| :: Disjoint(rs[i], rs[j])
  }

  lemma {:induction false} CountOnce(rs: seq<Range>, r: Range)
    requires AllDisjoint(rs)
    ensures multiset(rs)[r] <= 1
  {
    if rs != [] {
      CountOnce(rs[1..], r);
      assert rs == [rs[0]] + rs[1..];
      if r == rs[0] {
        assert r !in rs[1..];
        assert r !in multiset(rs[1..]);
      }
    }
  }

  lemma CountTwice(rs: seq<Range>, i: nat, j: nat)
    requires i < j < |rs| && rs[i] == rs[j]
    ensures multiset(rs)[rs[i]] >= 2
  {
    assert rs == rs[..j] + rs[j..];
    assert rs[..j][i] in multiset(rs[..j]);
    assert rs[j..][0] in multiset(rs[j..]);
  }

  /** A range of the sorted list is one of the given ones. */
  lemma FromGiven(table: seq<Range>, rs: seq<Range>, i: nat) returns (k: nat)
    requires multiset(table) == multiset(rs) && i < |table|
    ensures k < |rs| && rs[k] == table[i]
  {
    assert table[i] in multiset(rs);
    k :| 0 <= k < |rs| && rs[k] == table[i];
  }

  lemma PairOrdered(table: seq<Range>, rs: seq<Range>, i: nat, j: nat)
    requires AllDisjoint(rs) && SortedFrom(table, rs) && i < j < |table|
    ensures table[i].last < table[j].first
  {
    if table[i] == table[j] {
      CountTwice(table, i, j);
      CountOnce(rs, table[i]);
    } else {
      var k := FromGiven(table, rs, i);
      var l := FromGiven(table, rs, j);
      assert Disjoint(rs[k], rs[l]);
    }
  }

  /** Sorting disjoint ranges gives a sorted, disjoint table. */
  lemma TableOrdered(table: seq<Range>, rs: seq<Range>)
    requires AllDisjoint(rs) && SortedFrom(table, rs)
    ensures Ordered(table, 1)
  {
    forall i | 0 <= i < |table| ensures table[i].first <= table[i].last {
      var k := FromGiven(table, rs, i);
    }
    forall i, j | 0 <= i < j < |table| ensures table[i].last + 1 <= table[j].first {
      PairOrdered(table, rs, i, j);
    }
  }

  lemma TogetherDisjoint(zs: seq<Range>, ws: seq<Range>)
    requires Ordered(zs, 1) && Ordered(ws, 1)
    requires forall c: nat :: !(CoversAny(zs, c) && CoversAny(ws, c))
    ensures AllDisjoint(zs + ws)
  {
    forall i, j | 0 <= i < |zs| && 0 <= j < |ws| ensures Disjoint(zs[i], ws[j]) {
      var c := if zs[i].first <= ws[j].first then ws[j].first else zs[i].first;
      if Covers(zs[i], c) && Covers(ws[j], c) { assert CoversAny(zs, c) && CoversAny(ws, c); }
    }
  }

  /** What the generator makes of its two sets of points: the zero-width ones are taken
      out of the wide ones, and the ranges of both are sorted together. */
  ghost predicate Generated(zero: set<nat>, wide: set<nat>, table: seq<Range>) {
    exists zeros: seq<nat>, wides: seq<nat>, zs: seq<Range>, ws: seq<Range> ::
      GeneratedBy(zero, wide, table, zeros, wides, zs, ws)
  }

  ghost predicate GeneratedBy(
    zero: set<nat>, wide: set<nat>, table: seq<Range>,
    zeros: seq<nat>, wides: seq<nat>, zs: seq<Range>, ws: seq<Range>)
  {
    && (forall c: nat :: c in zeros <==> c in zero)
    && (forall c: nat :: c in wides <==> c in wide && c !in zero)
    && Intervals(zs, zeros, SCRW0) && Intervals(ws, wides, SCRW2)
    && SortedFrom(table, zs + ws)
  }

  /** The generated table gives every zero-width point the flag for 0, every other wide
      point the flag for 2, and no other point a flag. */
  lemma GeneratedWidths(zero: set<nat>, wide: set<nat>, table: seq<Range>)
    requires Generated(zero, wide, table)
    ensures Ordered(table, 1)
    ensures forall c: nat ::
      WidthOf(table, c) == if c in zero then SCRW0 else if c in wide then SCRW2 else {}
  {
    var zeros: seq<nat>, wides: seq<nat>, zs: seq<Range>, ws: seq<Range> :|
      GeneratedBy(zero, wide, table, zeros, wides, zs, ws);
    TogetherDisjoint(zs, ws);
    TableOrdered(table, zs + ws);
    forall c: nat
      ensures WidthOf(table, c) == if c in zero then SCRW0 else if c in wide then SCRW2 else {}
    {
      if c in zero {
        Found(zs, zs + ws, table, c, SCRW0);
      } else if c in wide {
        Found(ws, zs + ws, table, c, SCRW2);
      } else {
        if CoversAny(table, c) {
          var i :| 0 <= i < |table| && Covers(table[i], c);
          assert table[i] in multiset(zs + ws);
          var k :| 0 <= k < |zs + ws| && (zs + ws)[k] == table[i];
          assert if k < |zs| then CoversAny(zs, c) else CoversAny(ws, c);
        }
        WidthOfNone(table, c);
      }
    }
  }

  lemma Found(part: seq<Range>, rs: seq<Range>, table: seq<Range>, c: nat, width: Word32)
    requires Ordered(table, 1) && multiset(table) == multiset(rs) && CoversAny(part, c)
    requires forall r | r in part :: r in rs && r.width == width
    ensures WidthOf(table, c) == width
  {
    var k :| 0 <= k < |part| && Covers(part[k], c);
    assert part[k] in multiset(rs);
    var i :| 0 <= i < |table| && table[i] == part[k];
    WidthOfCovering(table, c, i);
  }
}
