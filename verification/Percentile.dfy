/** The interpolated percentile (scripts/measure_performance.py, _pct), over the reals. */
module Percentile {
  import opened Sorting
  import opened Reals

  predicate RealLe(a: real, b: real) {
    a <= b
  }

  // Between a and b, the share f of the way.
  function Mix(a: real, b: real, f: real): real {
    a * (1.0 - f) + b * f
  }

  // A rank among n sorted values.
  function Position(n: nat, q: real): real
    requires n > 0
  {
    Times((n - 1) as real, q / 100.0)
  }

  function Interpolate(s: seq<real>, pos: real): real
    requires s != [] && 0.0 <= pos <= (|s| - 1) as real
  {
    var lo := pos.Floor;
    var hi := if lo + 1 < |s| - 1 then lo + 1 else |s| - 1;
    Mix(s[lo], s[hi], pos - lo as real)
  }

  lemma PositionInRange(n: nat, q: real)
    requires n > 0 && 0.0 <= q <= 100.0
    ensures 0.0 <= Position(n, q) <= (n - 1) as real
    ensures Position(n, 0.0) == 0.0 && Position(n, 100.0) == (n - 1) as real
  {
    var m, f := (n - 1) as real, q / 100.0;
    assert 0.0 <= f <= 1.0;
    hide Times;
    ShareOf(m, f);
  }

  lemma ShareOf(m: real, f: real)
    requires 0.0 <= f <= 1.0 && m >= 0.0
    ensures 0.0 <= Times(m, f) <= m
    ensures Times(m, 0.0) == 0.0 && Times(m, 1.0) == m
  {
    assert m * (1.0 - f) >= 0.0;
  }

  lemma PositionAscends(n: nat, p: real, q: real)
    requires n > 0 && p <= q
    ensures Position(n, p) <= Position(n, q)
  {
    Product((n - 1) as real, p / 100.0, q / 100.0);
  }

  lemma Product(m: real, a: real, b: real)
    requires m >= 0.0 && a <= b
    ensures Times(m, a) <= Times(m, b)
  {
  }

  // Percentile q of the values; 0 when there is none.
  function Pct(values: seq<real>, q: real): real
    requires 0.0 <= q <= 100.0
  {
    if values == [] then 0.0 else
      var s := Sort(RealLe, values);
      SortPermutes(RealLe, values);
      if |s| == 1 then s[0] else
        PositionInRange(|s|, q);
        Interpolate(s, Position(|s|, q))
  }

  lemma RealLeIsOrder()
    ensures TotalPreorder(RealLe) && AntiSymmetric(RealLe)
  {
  }

  // The order of the input does not matter.
  lemma PctIgnoresOrder(values: seq<real>, shuffled: seq<real>, q: real)
    requires 0.0 <= q <= 100.0 && multiset(values) == multiset(shuffled)
    ensures Pct(values, q) == Pct(shuffled, q)
  {
    hide Interpolate, Position, Sort;
    RealLeIsOrder();
    SortOfPermutation(RealLe, values, shuffled);
    SortPermutes(RealLe, values);
    assert |values| == |multiset(values)| == |shuffled|;
  }

  lemma MixBetween(a: real, b: real, f: real, g: real)
    requires a <= b && 0.0 <= f <= g <= 1.0
    ensures a <= Mix(a, b, f) <= Mix(a, b, g) <= b
    ensures Mix(a, b, 0.0) == a
  {
    hide Mix, Times;
    MixIs(a, b, f);
    MixIs(a, b, g);
    MixIs(a, b, 0.0);
    ShareOf(b - a, f);
    ShareOf(b - a, g);
    Product(b - a, f, g);
  }

  lemma MixIs(a: real, b: real, f: real)
    ensures Mix(a, b, f) == a + Times(b - a, f)
  {
  }

  // The interpolation lies between its two neighbours.
  lemma InterpolateBetween(s: seq<real>, pos: real)
    requires s != [] && Sorted(RealLe, s) && 0.0 <= pos <= (|s| - 1) as real
    ensures var lo := pos.Floor;
            s[lo] <= Interpolate(s, pos) <= s[if lo + 1 < |s| - 1 then lo + 1 else |s| - 1]
    ensures pos == pos.Floor as real ==> Interpolate(s, pos) == s[pos.Floor]
  {
    hide Mix;
    var lo := pos.Floor;
    var hi := if lo + 1 < |s| - 1 then lo + 1 else |s| - 1;
    assert RealLe(s[lo], s[hi]) || lo == hi;
    MixBetween(s[lo], s[hi], pos - lo as real, 1.0);
  }

  // It never goes down, within a segment or across several.
  lemma InterpolateAscends(s: seq<real>, p: real, r: real)
    requires s != [] && Sorted(RealLe, s) && 0.0 <= p <= r <= (|s| - 1) as real
    ensures Interpolate(s, p) <= Interpolate(s, r)
  {
    hide Mix;
    var i, j := p.Floor, r.Floor;
    if i == j {
      var hi := if i + 1 < |s| - 1 then i + 1 else |s| - 1;
      assert RealLe(s[i], s[hi]) || i == hi;
      MixBetween(s[i], s[hi], p - i as real, r - i as real);
    } else {
      InterpolateBetween(s, p);
      InterpolateBetween(s, r);
      assert i + 1 == j || RealLe(s[i + 1], s[j]);
    }
  }

  lemma {:induction false} SortedValues(values: seq<real>)
    requires values != []
    ensures var s := Sort(RealLe, values);
            |s| == |values| && Sorted(RealLe, s) && forall x :: x in s <==> x in values
  {
    RealLeIsOrder();
    SortSorts(RealLe, values);
    SortPermutes(RealLe, values);
    SortMembers(RealLe, values);
  }

  lemma {:induction false} PctIs(values: seq<real>, q: real)
    requires values != [] && 0.0 <= q <= 100.0
    ensures var s := Sort(RealLe, values);
            |s| == |values| && 0.0 <= Position(|s|, q) <= (|s| - 1) as real && Pct(values, q) == Interpolate(s, Position(|s|, q))
  {
    hide Interpolate, Position, Sort;
    SortedValues(values);
    var s := Sort(RealLe, values);
    PositionInRange(|s|, q);
    if |s| == 1 {
      InterpolateBetween(s, 0.0);
    }
  }

  // The percentile is monotone in q over [0, 100].
  lemma PctAscends(values: seq<real>, p: real, q: real)
    requires 0.0 <= p <= q <= 100.0
    ensures Pct(values, p) <= Pct(values, q)
  {
    hide Interpolate, Position, Sort, Pct;
    if values == [] {
      NoValues(p);
      NoValues(q);
    } else {
      SortedValues(values);
      PctIs(values, p);
      PctIs(values, q);
      PositionAscends(|values|, p, q);
      InterpolateAscends(Sort(RealLe, values), Position(|values|, p), Position(|values|, q));
    }
  }

  lemma NoValues(q: real)
    requires 0.0 <= q <= 100.0
    ensures Pct([], q) == 0.0
  {
  }

  // It is the least value at 0, the greatest at 100, and between them everywhere.
  lemma PctWithinValues(values: seq<real>, q: real)
    requires values != [] && 0.0 <= q <= 100.0
    ensures Pct(values, 0.0) in values && Pct(values, 100.0) in values
    ensures forall v | v in values :: Pct(values, 0.0) <= v <= Pct(values, 100.0)
    ensures Pct(values, 0.0) <= Pct(values, q) <= Pct(values, 100.0)
  {
    hide Interpolate, Position, Sort, Pct;
    var s := Sort(RealLe, values);
    SortedValues(values);
    PctIs(values, 0.0);
    PctIs(values, 100.0);
    PositionInRange(|s|, q);
    InterpolateBetween(s, 0.0);
    InterpolateBetween(s, (|s| - 1) as real);
    PctAscends(values, 0.0, q);
    PctAscends(values, q, 100.0);
    forall v | v in values ensures s[0] <= v <= s[|s| - 1] {
      var i :| 0 <= i < |s| && s[i] == v;
      assert i == 0 || RealLe(s[0], s[i]);
      assert i == |s| - 1 || RealLe(s[i], s[|s| - 1]);
    }
  }

  // Between two neighbouring ranks of the values in order the percentile grows in proportion.
  lemma PctIsLinear(values: seq<real>, sorted: seq<real>, q: real, r: nat, f: real)
    requires 0.0 <= q <= 100.0 && 0.0 <= f <= 1.0
    requires multiset(sorted) == multiset(values) && Sorted(RealLe, sorted) && r + 1 < |sorted|
    requires Times((|sorted| - 1) as real, q) == 100.0 * (r as real + f)
    ensures Pct(values, q) == sorted[r] + Times(f, sorted[r + 1] - sorted[r])
  {
    hide *;
    SortedIs(values, sorted);
    PctIs(values, q);
    PositionIs(|sorted|, q, r as real + f);
    MixAt(sorted, r, f);
  }

  lemma {:induction false} SortedIs(values: seq<real>, sorted: seq<real>)
    requires multiset(sorted) == multiset(values) && Sorted(RealLe, sorted)
    ensures Sort(RealLe, values) == sorted && |values| == |sorted|
  {
    assert |sorted| == |multiset(sorted)| == |multiset(values)| == |values|;
    RealLeIsOrder();
    SortOfPermutation(RealLe, values, sorted);
    SortOfSorted(RealLe, sorted);
  }

  lemma PositionIs(n: nat, q: real, pos: real)
    requires n > 0 && Times((n - 1) as real, q) == 100.0 * pos
    ensures Position(n, q) == pos
  {
  }

  lemma MixAt(s: seq<real>, r: nat, f: real)
    requires r + 1 < |s| && 0.0 <= f <= 1.0
    ensures Interpolate(s, r as real + f) == s[r] + Times(f, s[r + 1] - s[r])
  {
    hide Mix, Times;
    if f < 1.0 {
      assert (r as real + f).Floor == r;
      MixIs(s[r], s[r + 1], f);
      Commutes(s[r + 1] - s[r], f);
    } else {
      assert (r as real + f).Floor == r + 1;
      var hi := if r + 2 < |s| - 1 then r + 2 else |s| - 1;
      MixIs(s[r + 1], s[hi], 0.0);
      Zero(s[hi] - s[r + 1]);
      One(s[r + 1] - s[r]);
    }
  }

  lemma Commutes(a: real, b: real)
    ensures Times(a, b) == Times(b, a)
  {
  }

  lemma Zero(a: real)
    ensures Times(a, 0.0) == 0.0
  {
  }

  lemma One(a: real)
    ensures Times(1.0, a) == a
  {
  }

  // Half way between two values.
  lemma HalfWay(a: real, b: real)
    requires a <= b
    ensures Pct([b, a], 50.0) == (a + b) / 2.0
  {
    var sorted := [a, b];
    assert multiset([b, a]) == multiset(sorted);
    assert Times((|sorted| - 1) as real, 50.0) == 100.0 * (0 as real + 0.5);
    PctIsLinear([b, a], sorted, 50.0, 0, 0.5);
  }
}
