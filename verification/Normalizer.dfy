/**
 Median / interquartile-range normalisation of feature vectors, over exact reals.
 */
module Normalizer {
  import opened Core

  const VECTOR_DIM := 202
  const DEFAULT_LOOKBACK := 60
  const CENTER := 0.5

  datatype NormParam = NormParam(median: real, iqr: real)

  // ---- Sorting ----

  predicate Ascending(s: seq<real>) {
    forall i, j :: 0 <= i < j < |s| ==> s[i] <= s[j]
  }

  function Insert(x: real, s: seq<real>): seq<real> {
    if s == [] then [x] else if x <= s[0] then [x] + s else [s[0]] + Insert(x, s[1..])
  }

  function Sort(s: seq<real>): (r: seq<real>)
    ensures |r| == |s|
  {
    if s == [] then [] else
      InsertLength(s[0], Sort(s[1..]));
      Insert(s[0], Sort(s[1..]))
  }

  lemma {:induction false} InsertLength(x: real, s: seq<real>)
    ensures |Insert(x, s)| == |s| + 1
  {
    if s != [] {
      InsertLength(x, s[1..]);
    }
  }

  lemma {:induction false} InsertMultiset(x: real, s: seq<real>)
    ensures multiset(Insert(x, s)) == multiset{x} + multiset(s)
  {
    if s != [] {
      assert s == [s[0]] + s[1..];
      if x > s[0] {
        InsertMultiset(x, s[1..]);
      }
    }
  }

  predicate AllFrom(low: real, s: seq<real>) {
    forall i :: 0 <= i < |s| ==> low <= s[i]
  }

  lemma {:induction false} InsertAscending(x: real, s: seq<real>, low: real)
    requires Ascending(s) && AllFrom(low, s) && low <= x
    ensures Ascending(Insert(x, s)) && AllFrom(low, Insert(x, s))
  {
    if s != [] && x > s[0] {
      InsertAscending(x, s[1..], s[0]);
    }
  }

  lemma InsertKeepsAscending(x: real, s: seq<real>)
    requires Ascending(s)
    ensures Ascending(Insert(x, s))
  {
    InsertAscending(x, s, if s == [] || x <= s[0] then x else s[0]);
  }

  lemma {:induction false} SortMultiset(s: seq<real>)
    ensures multiset(Sort(s)) == multiset(s)
  {
    hide Insert;
    if s != [] {
      SortMultiset(s[1..]);
      InsertMultiset(s[0], Sort(s[1..]));
      assert s == [s[0]] + s[1..];
    }
  }

  lemma {:induction false} SortLaw(s: seq<real>)
    ensures Ascending(Sort(s)) && multiset(Sort(s)) == multiset(s)
  {
    SortMultiset(s);
    if s != [] {
      SortLaw(s[1..]);
      InsertKeepsAscending(s[0], Sort(s[1..]));
    }
  }

  lemma FirstIsLeast(s: seq<real>, x: real)
    requires s != [] && Ascending(s) && x in multiset(s)
    ensures s[0] <= x
  {
    var i :| 0 <= i < |s| && s[i] == x;
  }

  /** The values alone decide the ascending sequence. */
  lemma {:induction false} AscendingUnique(s: seq<real>, t: seq<real>)
    requires Ascending(s) && Ascending(t) && multiset(s) == multiset(t)
    ensures s == t
  {
    hide Ascending;
    NoElements(s);
    NoElements(t);
    if s != [] {
      SameHead(s, t);
      AscendingUnique(s[1..], t[1..]);
      assert s == [s[0]] + s[1..] && t == [t[0]] + t[1..];
    }
  }

  lemma SameHead(s: seq<real>, t: seq<real>)
    requires s != [] && t != [] && Ascending(s) && Ascending(t) && multiset(s) == multiset(t)
    ensures s[0] == t[0] && multiset(s[1..]) == multiset(t[1..]) && Ascending(s[1..]) && Ascending(t[1..])
  {
    hide Ascending;
    Split(s);
    Split(t);
    FirstIsLeast(s, t[0]);
    FirstIsLeast(t, s[0]);
    TailAscending(s);
    TailAscending(t);
  }

  lemma NoElements(s: seq<real>)
    ensures s == [] <==> multiset(s) == multiset{}
  {
    if s != [] {
      assert s[0] in multiset(s);
    }
  }

  lemma Split(s: seq<real>)
    requires s != []
    ensures s == [s[0]] + s[1..] && s[0] in multiset(s) && multiset(s[1..]) == multiset(s) - multiset{s[0]}
  {
    assert s == [s[0]] + s[1..];
  }

  lemma TailAscending(s: seq<real>)
    requires s != [] && Ascending(s)
    ensures Ascending(s[1..])
  {
  }

  // ---- Percentiles ----

  /** `x` and `y` mixed in the proportion `1 - frac` to `frac`. */
  function Mix(x: real, y: real, frac: real): real {
    x * (1.0 - frac) + y * frac
  }

  function Position(n: nat, p: real): real {
    p / 100.0 * (n as real - 1.0)
  }

  /** Percentile by linear interpolation; the input is expected in ascending order. */
  function Percentile(sorted: seq<real>, p: real): real
    requires 0.0 <= p <= 100.0
  {
    if |sorted| == 0 then 0.0
    else if |sorted| == 1 then sorted[0]
    else
      PositionInRange(|sorted|, p);
      var idx := Position(|sorted|, p);
      var lo := idx.Floor;
      if lo as real == idx then sorted[lo] else Mix(sorted[lo], sorted[lo + 1], idx - lo as real)
  }

  /** A share of a non-negative whole. */
  lemma Share(ratio: real, whole: real)
    requires 0.0 <= ratio <= 1.0 && whole >= 0.0
    ensures 0.0 <= ratio * whole <= whole
    ensures (1.0 - ratio) * whole == whole - ratio * whole
    ensures ratio < 1.0 && whole > 0.0 ==> ratio * whole < whole
  {
  }

  lemma PositionInRange(n: nat, p: real)
    requires 0.0 <= p <= 100.0 && n > 0
    ensures 0 <= Position(n, p).Floor <= n - 1
    ensures Position(n, p) != Position(n, p).Floor as real ==> Position(n, p).Floor < n - 1
    ensures Position(n, p) == n as real - 1.0 - Position(n, 100.0 - p)
  {
    var ratio, top := p / 100.0, n as real - 1.0;
    assert 0.0 <= ratio <= 1.0;
    Share(ratio, top);
    assert Position(n, p) == ratio * top;
    assert (100.0 - p) / 100.0 == 1.0 - ratio;
    assert Position(n, 100.0 - p) == (1.0 - ratio) * top;
    hide Position;
    FloorBetween(ratio * top, n - 1);
  }

  lemma FloorBetween(x: real, top: int)
    requires 0.0 <= x <= top as real
    ensures 0 <= x.Floor <= top && (x != x.Floor as real ==> x.Floor < top)
  {
  }

  // ---- Parameters and normalisation ----

  function Params(values: seq<real>): NormParam {
    var sorted := Sort(values);
    NormParam(Percentile(sorted, 50.0), Percentile(sorted, 75.0) - Percentile(sorted, 25.0))
  }

  /**
   A quarter-th: with `q` quarters of the steps between the first and the last sorted value, it
   lies on a value, or that many quarters of a step beyond it.
   */
  ghost predicate IsQuarter(sorted: seq<real>, q: nat, x: real)
    requires sorted != [] && q <= 4
  {
    var steps := q * (|sorted| - 1);
    var lo, rest := steps / 4, steps % 4;
    if rest == 0 then x == sorted[lo]
    else 4.0 * x == (4 - rest) as real * sorted[lo] + rest as real * sorted[lo + 1]
  }

  lemma QuarterSteps(n: nat, q: nat)
    requires n > 0 && q <= 4
    ensures var steps := q * (n - 1);
      && Position(n, 25.0 * q as real) == (steps / 4) as real + (steps % 4) as real / 4.0
      && Position(n, 25.0 * q as real).Floor == steps / 4
      && steps / 4 <= n - 1 && (steps % 4 != 0 ==> steps / 4 < n - 1)
  {
    var steps := q * (n - 1);
    assert (25.0 * q as real) / 100.0 == q as real / 4.0;
    assert q as real / 4.0 * (n - 1) as real == (q * (n - 1)) as real / 4.0 by {
      assert q as real * (n - 1) as real == (q * (n - 1)) as real;
    }
    assert steps == 4 * (steps / 4) + steps % 4;
    assert steps <= 4 * (n - 1);
  }

  lemma PercentileIsQuarter(sorted: seq<real>, q: nat)
    requires sorted != [] && q <= 4
    ensures IsQuarter(sorted, q, Percentile(sorted, 25.0 * q as real))
  {
    QuarterSteps(|sorted|, q);
    hide Position;
    if |sorted| > 1 {
      var steps := q * (|sorted| - 1);
      var lo, rest := steps / 4, steps % 4;
      if rest != 0 {
        MixQuarters(sorted[lo], sorted[lo + 1], rest);
      }
    }
  }

  lemma MixQuarters(x: real, y: real, rest: nat)
    requires 0 < rest < 4
    ensures 4.0 * Mix(x, y, rest as real / 4.0) == (4 - rest) as real * x + rest as real * y
  {
  }

  lemma NoParams()
    ensures Params([]) == NormParam(0.0, 0.0)
  {
  }

  /** The parameters of a column: its median, and the distance between its first and third quartiles. */
  lemma ParamsAreQuartiles(values: seq<real>)
    requires values != []
    ensures exists q1, q3 ::
      && IsQuarter(Sort(values), 1, q1) && IsQuarter(Sort(values), 2, Params(values).median)
      && IsQuarter(Sort(values), 3, q3) && Params(values).iqr == q3 - q1
  {
    hide Percentile, IsQuarter;
    PercentileIsQuarter(Sort(values), 1);
    PercentileIsQuarter(Sort(values), 2);
    PercentileIsQuarter(Sort(values), 3);
  }

  function Score(x: real, median: real, iqr: real): real
    requires iqr != 0.0
  {
    (x - median) / iqr
  }

  function Clamped(z: real): real {
    Min(3.0, Max(-3.0, z))
  }

  function NormalizeOne(x: real, p: NormParam): real {
    if p.iqr == 0.0 then CENTER else (Clamped(Score(x, p.median, p.iqr)) + 3.0) / 6.0
  }

  /**
   In units of the input: 0 up to three ranges below the median, 1 from three above it, and on
   the straight line between; without a range everything is in the middle.
   */
  lemma NormalizedScale(x: real, p: NormParam)
    requires p.iqr >= 0.0
    ensures var y := NormalizeOne(x, p);
      && (p.iqr == 0.0 ==> y == 0.5)
      && (p.iqr > 0.0 && x <= p.median - 3.0 * p.iqr ==> y == 0.0)
      && (p.iqr > 0.0 && x >= p.median + 3.0 * p.iqr ==> y == 1.0)
      && (p.iqr > 0.0 && p.median - 3.0 * p.iqr <= x <= p.median + 3.0 * p.iqr ==>
            6.0 * p.iqr * y == x - p.median + 3.0 * p.iqr)
  {
    if p.iqr > 0.0 {
      var z := Score(x, p.median, p.iqr);
      ScoreScale(x, p.median, p.iqr);
      hide Score;
      ClampedScale(z, p.iqr, x - p.median);
    }
  }

  lemma ClampedScale(z: real, iqr: real, distance: real)
    requires iqr > 0.0 && z * iqr == distance
    ensures distance <= -3.0 * iqr ==> (Clamped(z) + 3.0) / 6.0 == 0.0
    ensures distance >= 3.0 * iqr ==> (Clamped(z) + 3.0) / 6.0 == 1.0
    ensures -3.0 * iqr <= distance <= 3.0 * iqr ==> 6.0 * iqr * ((Clamped(z) + 3.0) / 6.0) == distance + 3.0 * iqr
  {
    ThreeRanges(z, iqr, distance);
    ClampedBetween(z);
    var y := (Clamped(z) + 3.0) / 6.0;
    hide Clamped;
    if z <= -3.0 {
      assert y == 0.0;
    } else if z >= 3.0 {
      assert y == 1.0;
    }
    if -3.0 <= z <= 3.0 {
      SixRanges(z, y, iqr);
    }
  }

  lemma ThreeRanges(z: real, iqr: real, distance: real)
    requires iqr > 0.0 && z * iqr == distance
    ensures z <= -3.0 <==> distance <= -3.0 * iqr
    ensures z >= 3.0 <==> distance >= 3.0 * iqr
  {
    ScaledOrder(z + 3.0, iqr, distance + 3.0 * iqr);
    ScaledOrder(z - 3.0, iqr, distance - 3.0 * iqr);
  }

  lemma ClampedBetween(z: real)
    ensures z <= -3.0 ==> Clamped(z) == -3.0
    ensures z >= 3.0 ==> Clamped(z) == 3.0
    ensures -3.0 <= z <= 3.0 ==> Clamped(z) == z
  {
  }

  lemma ScoreScale(x: real, median: real, iqr: real)
    requires iqr != 0.0
    ensures Score(x, median, iqr) * iqr == x - median
  {
  }

  lemma SixRanges(z: real, y: real, iqr: real)
    requires 6.0 * y == z + 3.0
    ensures 6.0 * iqr * y == z * iqr + 3.0 * iqr
  {
    assert 6.0 * iqr * y == iqr * (6.0 * y);
    assert iqr * (z + 3.0) == z * iqr + 3.0 * iqr;
  }

  /** A positive factor keeps the sign. */
  lemma ScaledOrder(z: real, iqr: real, product: real)
    requires iqr > 0.0 && product == z * iqr
    ensures z <= 0.0 <==> product <= 0.0
    ensures z >= 0.0 <==> product >= 0.0
  {
  }

  predicate IsVector(v: seq<real>) {
    |v| == VECTOR_DIM
  }

  /** The vectors the parameters are computed from: the last `lookback` ones. */
  function Window(vectors: seq<seq<real>>, lookback: int): seq<seq<real>> {
    if |vectors| > lookback then (if lookback <= 0 then [] else vectors[|vectors| - lookback..]) else vectors
  }

  /** The window ends with the corpus; it holds the last `lookback` vectors, or all when there are not as many. */
  lemma WindowLaw(vectors: seq<seq<real>>, lookback: int)
    ensures var w := Window(vectors, lookback);
      && |w| == (if lookback < 0 then 0 else if lookback < |vectors| then lookback else |vectors|)
      && forall j :: 0 <= j < |w| ==> w[j] == vectors[|vectors| - |w| + j]
  {
  }

  function Column(window: seq<seq<real>>, dim: nat): seq<real>
    requires dim < VECTOR_DIM && forall j :: 0 <= j < |window| ==> IsVector(window[j])
  {
    seq(|window|, j requires 0 <= j < |window| => assert IsVector(window[j]); window[j][dim])
  }

  /** None when the corpus is empty, which throws. */
  method ComputeNormParams(vectors: seq<seq<real>>, lookback: Option<int>) returns (params: Option<seq<NormParam>>)
    requires forall j :: 0 <= j < |vectors| ==> IsVector(vectors[j])
    ensures params.None? <==> vectors == []
    ensures params.Some? ==>
      var window := Window(vectors, if lookback.Some? then lookback.value else 60);
      |params.value| == 202
      && forall dim :: 0 <= dim < VECTOR_DIM ==> params.value[dim] == Params(Column(window, dim))
  {
    hide Sort, Percentile;
    if |vectors| == 0 {
      return None;
    }
    var window := Window(vectors, if lookback.Some? then lookback.value else DEFAULT_LOOKBACK);
    var all := [];
    for dim := 0 to VECTOR_DIM
      invariant |all| == dim
      invariant forall k :: 0 <= k < dim ==> all[k] == Params(Column(window, k))
    {
      var values := [];
      for j := 0 to |window|
        invariant values == Column(window, dim)[..j]
      {
        values := values + [window[j][dim]];
      }
      assert values == Column(window, dim);
      var sorted := Sort(values);
      var median := Percentile(sorted, 50.0);
      var q1 := Percentile(sorted, 25.0);
      var q3 := Percentile(sorted, 75.0);
      all := all + [NormParam(median, q3 - q1)];
    }
    params := Some(all);
  }

  method Normalize(raw: seq<real>, params: seq<NormParam>) returns (out: seq<real>)
    requires IsVector(raw) && |params| == VECTOR_DIM
    ensures |out| == 202
    ensures forall i :: 0 <= i < 202 ==> out[i] == NormalizeOne(raw[i], params[i])
  {
    hide Score;
    out := [];
    for i := 0 to VECTOR_DIM
      invariant |out| == i
      invariant forall k :: 0 <= k < i ==> out[k] == NormalizeOne(raw[k], params[k])
    {
      var p := params[i];
      if p.iqr == 0.0 {
        out := out + [CENTER];
        continue;
      }
      var z := Score(raw[i], p.median, p.iqr);
      var zClamped := Min(3.0, Max(-3.0, z));
      out := out + [(zClamped - -3.0) / (3.0 - -3.0)];
    }
  }

  // ---- Laws of one dimension ----

  lemma MixBetween(x: real, y: real, frac: real)
    requires x <= y && 0.0 <= frac <= 1.0
    ensures x <= Mix(x, y, frac) <= y
  {
    assert Mix(x, y, frac) == x + (y - x) * frac;
    Share(frac, y - x);
  }

  lemma PercentileBetween(s: seq<real>, p: real)
    requires 0.0 <= p <= 100.0 && |s| > 1 && Ascending(s)
    ensures var lo := Position(|s|, p).Floor;
      0 <= lo < |s| && s[lo] <= Percentile(s, p) && (lo + 1 < |s| ==> Percentile(s, p) <= s[lo + 1])
  {
    hide Mix, Position;
    PositionInRange(|s|, p);
    var idx := Position(|s|, p);
    var lo := idx.Floor;
    if lo as real != idx {
      MixBetween(s[lo], s[lo + 1], idx - lo as real);
    }
  }

  /** The interquartile range is never negative. */
  lemma IqrNonNegative(values: seq<real>)
    ensures Params(values).iqr >= 0.0
  {
    var s := Sort(values);
    SortLaw(values);
    if |s| > 1 {
      hide Percentile, Sort, Mix;
      PercentileBetween(s, 25.0);
      PercentileBetween(s, 75.0);
      var i, j := Position(|s|, 25.0), Position(|s|, 75.0);
      assert i <= j;
      if i.Floor == j.Floor {
        SamePlace(s);
      } else {
        assert i.Floor + 1 <= j.Floor;
        assert s[i.Floor + 1] <= s[j.Floor];
      }
    }
  }

  lemma SamePlace(s: seq<real>)
    requires |s| > 1 && Ascending(s) && Position(|s|, 25.0).Floor == Position(|s|, 75.0).Floor
    ensures Percentile(s, 25.0) <= Percentile(s, 75.0)
  {
    hide Position;
    PositionInRange(|s|, 25.0);
    PositionInRange(|s|, 75.0);
    PositionsInOrder(|s|);
    var i, j := Position(|s|, 25.0), Position(|s|, 75.0);
    var lo := i.Floor;
    if lo as real == j {
      assert i == j;
    } else {
      MixGrows(s[lo], s[lo + 1], i - lo as real, j - lo as real);
    }
  }

  lemma PositionsInOrder(n: nat)
    requires n > 0
    ensures Position(n, 25.0) <= Position(n, 75.0)
  {
  }

  lemma MixGrows(x: real, y: real, f: real, g: real)
    requires x <= y && f <= g
    ensures Mix(x, y, f) <= Mix(x, y, g)
    ensures Mix(x, y, 0.0) == x
  {
    assert Mix(x, y, g) - Mix(x, y, f) == (y - x) * (g - f);
  }

  /** Always within [0, 1], with the median in the middle. */
  lemma NormalizedInUnit(x: real, p: NormParam)
    ensures 0.0 <= NormalizeOne(x, p) <= 1.0
    ensures NormalizeOne(p.median, p) == CENTER
  {
  }

  lemma ScoreMonotone(x: real, y: real, median: real, iqr: real)
    requires iqr > 0.0
    ensures Score(x, median, iqr) <= Score(y, median, iqr) <==> x <= y
  {
    var u, v := Score(x, median, iqr), Score(y, median, iqr);
    assert u * iqr == x - median && v * iqr == y - median;
    assert (v - u) * iqr == y - x;
  }

  /** Monotone in the input for any corpus. */
  lemma NormalizedMonotone(values: seq<real>, x: real, y: real)
    requires x <= y
    ensures NormalizeOne(x, Params(values)) <= NormalizeOne(y, Params(values))
  {
    hide Params, Score;
    IqrNonNegative(values);
    var p := Params(values);
    if p.iqr > 0.0 {
      ScoreMonotone(x, y, p.median, p.iqr);
    }
  }

  /** Independent of the order of the corpus. */
  lemma OrderIndependent(values: seq<real>, shuffled: seq<real>)
    requires multiset(values) == multiset(shuffled)
    ensures Params(values) == Params(shuffled)
  {
    hide Percentile;
    SortLaw(values);
    SortLaw(shuffled);
    AscendingUnique(Sort(values), Sort(shuffled));
  }

  // ---- Affine equivariance ----

  function Affine(a: real, b: real, x: real): real {
    a * x + b
  }

  /** A spread under the affine map. */
  function Widened(a: real, spread: real): real {
    (if a > 0.0 then a else -a) * spread
  }

  function Mapped(a: real, b: real, s: seq<real>): (r: seq<real>)
    ensures |r| == |s| && forall i :: 0 <= i < |s| ==> r[i] == Affine(a, b, s[i])
  {
    hide Affine;
    if s == [] then [] else [Affine(a, b, s[0])] + Mapped(a, b, s[1..])
  }

  function Reversed(s: seq<real>): (r: seq<real>)
    ensures |r| == |s| && multiset(r) == multiset(s)
    ensures forall i :: 0 <= i < |s| ==> r[i] == s[|s| - 1 - i]
  {
    if s == [] then [] else
      assert s == [s[0]] + s[1..];
      Reversed(s[1..]) + [s[0]]
  }

  lemma AffineOrder(a: real, b: real, x: real, y: real)
    requires a != 0.0 && x <= y
    ensures if a > 0.0 then Affine(a, b, x) <= Affine(a, b, y) else Affine(a, b, y) <= Affine(a, b, x)
  {
    assert Affine(a, b, y) - Affine(a, b, x) == a * (y - x);
  }

  lemma AffineMix(a: real, b: real, x: real, y: real, f: real)
    ensures Mix(Affine(a, b, x), Affine(a, b, y), f) == Affine(a, b, Mix(x, y, f))
    ensures Mix(x, y, f) == Mix(y, x, 1.0 - f)
  {
    assert a * (x * (1.0 - f)) == (a * x) * (1.0 - f);
    assert a * (y * f) == (a * y) * f;
    assert Mix(Affine(a, b, x), Affine(a, b, y), f) == (a * x) * (1.0 - f) + (a * y) * f + b * (1.0 - f) + b * f;
  }

  lemma {:induction false} MappedInsert(a: real, b: real, x: real, s: seq<real>)
    ensures multiset(Mapped(a, b, Insert(x, s))) == multiset{Affine(a, b, x)} + multiset(Mapped(a, b, s))
  {
    hide Affine;
    if s != [] {
      if x <= s[0] {
        assert ([x] + s)[1..] == s;
      } else {
        MappedInsert(a, b, x, s[1..]);
        assert ([s[0]] + Insert(x, s[1..]))[1..] == Insert(x, s[1..]);
      }
    } else {
      assert [x][1..] == [];
    }
  }

  lemma {:induction false} MappedSort(a: real, b: real, s: seq<real>)
    ensures multiset(Mapped(a, b, Sort(s))) == multiset(Mapped(a, b, s))
  {
    hide Affine, Insert;
    if s != [] {
      MappedSort(a, b, s[1..]);
      MappedInsert(a, b, s[0], Sort(s[1..]));
    }
  }

  /** Sorting commutes with an affine map, up to reversal when the map is decreasing. */
  lemma SortMapped(a: real, b: real, s: seq<real>)
    requires a != 0.0
    ensures Sort(Mapped(a, b, s)) ==
            if a > 0.0 then Mapped(a, b, Sort(s)) else Reversed(Mapped(a, b, Sort(s)))
  {
    hide Affine, Insert, Sort, Mapped, Reversed;
    var m := Mapped(a, b, Sort(s));
    var expected := if a > 0.0 then m else Reversed(m);
    SortLaw(s);
    SortLaw(Mapped(a, b, s));
    MappedSort(a, b, s);
    forall i, j | 0 <= i < j < |expected|
      ensures expected[i] <= expected[j]
    {
      var i', j' := if a > 0.0 then i else |m| - 1 - j, if a > 0.0 then j else |m| - 1 - i;
      AffineOrder(a, b, Sort(s)[i'], Sort(s)[j']);
    }
    AscendingUnique(Sort(Mapped(a, b, s)), expected);
  }

  lemma PercentileMapped(a: real, b: real, s: seq<real>, p: real)
    requires 0.0 <= p <= 100.0 && s != []
    ensures Percentile(Mapped(a, b, s), p) == Affine(a, b, Percentile(s, p))
  {
    hide Affine, Mapped, Mix, Position;
    if |s| > 1 {
      PositionInRange(|s|, p);
      var idx := Position(|s|, p);
      var lo := idx.Floor;
      if lo as real != idx {
        AffineMix(a, b, s[lo], s[lo + 1], idx - lo as real);
      }
    }
  }

  /** Reading a sequence backwards turns a percentile into its complement. */
  lemma PercentileReversed(s: seq<real>, p: real)
    requires 0.0 <= p <= 100.0
    ensures Percentile(Reversed(s), p) == Percentile(s, 100.0 - p)
  {
    hide Reversed, Mix, Position;
    if |s| > 1 {
      PositionInRange(|s|, p);
      PositionInRange(|s|, 100.0 - p);
      var i, j := Position(|s|, p), Position(|s|, 100.0 - p);
      var top := |s| - 1;
      if i.Floor as real == i {
        assert j == (top - i.Floor) as real;
      } else {
        var lo := top - 1 - i.Floor;
        assert lo as real < j < (lo + 1) as real;
        assert j.Floor == lo && j - lo as real == 1.0 - (i - i.Floor as real);
        AffineMix(1.0, 0.0, s[lo + 1], s[lo], i - i.Floor as real);
      }
    }
  }

  lemma ParamsMapped(a: real, b: real, values: seq<real>)
    requires a != 0.0 && values != []
    ensures var (p, q) := (Params(values), Params(Mapped(a, b, values)));
      q.median == Affine(a, b, p.median) && q.iqr == Widened(a, p.iqr)
  {
    hide Affine, Sort, Mapped, Percentile, Reversed;
    var s := Sort(values);
    SortMapped(a, b, values);
    PercentileMapped(a, b, s, 25.0);
    PercentileMapped(a, b, s, 50.0);
    PercentileMapped(a, b, s, 75.0);
    if a < 0.0 {
      PercentileReversed(Mapped(a, b, s), 25.0);
      PercentileReversed(Mapped(a, b, s), 50.0);
      PercentileReversed(Mapped(a, b, s), 75.0);
    }
    AffineDifference(a, b, Percentile(s, 75.0), Percentile(s, 25.0));
  }

  lemma AffineDifference(a: real, b: real, x: real, y: real)
    ensures Affine(a, b, x) - Affine(a, b, y) == a * (x - y)
  {
  }

  lemma ScoreMapped(a: real, b: real, x: real, median: real, iqr: real)
    requires a != 0.0 && iqr != 0.0
    ensures Widened(a, iqr) != 0.0
    ensures Score(Affine(a, b, x), Affine(a, b, median), Widened(a, iqr)) ==
            if a > 0.0 then Score(x, median, iqr) else -Score(x, median, iqr)
  {
    var z := Score(x, median, iqr);
    assert z * iqr == x - median;
    var scale := if a > 0.0 then a else -a;
    assert scale * iqr != 0.0;
    AffineDifference(a, b, x, median);
    assert a * (z * iqr) == (a * iqr) * z;
    Divided(Affine(a, b, x) - Affine(a, b, median), scale * iqr, if a > 0.0 then z else -z);
  }

  lemma Divided(x: real, y: real, z: real)
    requires y != 0.0 && x == y * z
    ensures x / y == z
  {
    assert (x / y) * y == x;
    assert (x / y - z) * y == 0.0;
  }

  /** Rescaling corpus and input together changes nothing, and a flipped scale reflects the output. */
  lemma AffineEquivariance(a: real, b: real, values: seq<real>, x: real)
    requires a != 0.0
    ensures NormalizeOne(Affine(a, b, x), Params(Mapped(a, b, values))) ==
      if a > 0.0 then NormalizeOne(x, Params(values)) else 1.0 - NormalizeOne(x, Params(values))
  {
    hide Affine, Params, Mapped, NormalizeOne, Widened;
    if values == [] {
      EmptyCorpus();
    } else {
      ParamsMapped(a, b, values);
      var p := Params(values);
      var q := Params(Mapped(a, b, values));
      assert q == NormParam(q.median, q.iqr);
      NormalizeMapped(a, b, x, p);
    }
  }

  lemma EmptyCorpus()
    ensures Params([]).iqr == 0.0
    ensures forall a, b :: Mapped(a, b, []) == []
    ensures forall x: real :: NormalizeOne(x, Params([])) == 0.5
  {
  }

  lemma NormalizeMapped(a: real, b: real, x: real, p: NormParam)
    requires a != 0.0
    ensures NormalizeOne(Affine(a, b, x), NormParam(Affine(a, b, p.median), Widened(a, p.iqr))) ==
      if a > 0.0 then NormalizeOne(x, p) else 1.0 - NormalizeOne(x, p)
  {
    hide Affine, Score, Clamped;
    assert p.iqr == 0.0 ==> Widened(a, p.iqr) == 0.0;
    hide Widened;
    if p.iqr != 0.0 {
      ScoreMapped(a, b, x, p.median, p.iqr);
      ClampedOdd(Score(x, p.median, p.iqr));
    }
  }

  lemma ClampedOdd(z: real)
    ensures Clamped(-z) == -Clamped(z)
  {
  }

  // ---- Laws of whole vectors ----

  ghost predicate Rescaled(v: seq<real>, w: seq<real>, a: seq<real>, b: seq<real>)
    requires |a| == |b| == VECTOR_DIM
  {
    IsVector(v) && IsVector(w) && forall i :: 0 <= i < VECTOR_DIM ==> w[i] == Affine(a[i], b[i], v[i])
  }

  /** Equivariance of the whole pipeline: each dimension may be rescaled in its own way. */
  lemma VectorEquivariance(a: seq<real>, b: seq<real>, lookback: int, vectors: seq<seq<real>>, vectors': seq<seq<real>>,
                           raw: seq<real>, raw': seq<real>, i: nat)
    requires |a| == |b| == VECTOR_DIM && i < VECTOR_DIM && a[i] != 0.0
    requires |vectors| == |vectors'| && forall k :: 0 <= k < |vectors| ==> Rescaled(vectors[k], vectors'[k], a, b)
    requires Rescaled(raw, raw', a, b)
    ensures var (w, w') := (Window(vectors, lookback), Window(vectors', lookback));
      (forall j :: 0 <= j < |w| ==> IsVector(w[j])) && (forall j :: 0 <= j < |w'| ==> IsVector(w'[j]))
    ensures var (out, out') := (NormalizeOne(raw[i], Params(Column(Window(vectors, lookback), i))),
                                NormalizeOne(raw'[i], Params(Column(Window(vectors', lookback), i))));
      out' == if a[i] > 0.0 then out else 1.0 - out
  {
    hide Affine, Params, NormalizeOne, Column, Mapped, Window;
    RescaledColumn(a, b, lookback, vectors, vectors', i);
    AffineEquivariance(a[i], b[i], Column(Window(vectors, lookback), i), raw[i]);
  }

  lemma RescaledColumn(a: seq<real>, b: seq<real>, lookback: int, vectors: seq<seq<real>>, vectors': seq<seq<real>>,
                       i: nat)
    requires |a| == |b| == VECTOR_DIM && i < VECTOR_DIM
    requires |vectors| == |vectors'| && forall k :: 0 <= k < |vectors| ==> Rescaled(vectors[k], vectors'[k], a, b)
    ensures var (w, w') := (Window(vectors, lookback), Window(vectors', lookback));
      && (forall j :: 0 <= j < |w| ==> IsVector(w[j])) && (forall j :: 0 <= j < |w'| ==> IsVector(w'[j]))
      && Column(w', i) == Mapped(a[i], b[i], Column(w, i))
  {
    hide Affine;
    var w, w' := Window(vectors, lookback), Window(vectors', lookback);
    var first := |vectors| - |w|;
    assert |w| == |w'| && forall k :: 0 <= k < |w| ==> w[k] == vectors[first + k] && w'[k] == vectors'[first + k];
    assert forall k :: 0 <= k < |w| ==> Rescaled(w[k], w'[k], a, b);
    assert Column(w', i) == Mapped(a[i], b[i], Column(w, i));
  }

  ghost predicate AllVectors(window: seq<seq<real>>) {
    forall j :: 0 <= j < |window| ==> IsVector(window[j])
  }

  lemma ColumnAppend(a: seq<seq<real>>, b: seq<seq<real>>, dim: nat)
    requires AllVectors(a) && AllVectors(b) && dim < VECTOR_DIM
    ensures AllVectors(a + b) && Column(a + b, dim) == Column(a, dim) + Column(b, dim)
  {
  }

  /** Taking one vector out of a window takes its value out of each column. */
  lemma ColumnWithout(window: seq<seq<real>>, j: nat, dim: nat)
    requires AllVectors(window) && dim < VECTOR_DIM && j < |window|
    ensures var rest := window[..j] + window[j + 1..];
      && AllVectors(rest) && multiset(rest) == multiset(window) - multiset{window[j]}
      && multiset(Column(window, dim)) == multiset{window[j][dim]} + multiset(Column(rest, dim))
  {
    var a, v, b := window[..j], window[j], window[j + 1..];
    assert window == a + ([v] + b);
    assert IsVector(v) && AllVectors([v]);
    ColumnAppend(a, b, dim);
    ColumnAppend([v], b, dim);
    ColumnAppend(a, [v] + b, dim);
    assert Column([v], dim) == [v[dim]];
  }

  lemma FindVector(w: seq<seq<real>>, w': seq<seq<real>>) returns (j: nat)
    requires w != [] && multiset(w) == multiset(w')
    ensures j < |w'| && w'[j] == w[0]
  {
    assert w[0] in multiset(w');
    j :| 0 <= j < |w'| && w'[j] == w[0];
  }

  lemma NoVectors(w: seq<seq<real>>)
    ensures w == [] <==> multiset(w) == multiset{}
  {
    if w != [] {
      assert w[0] in multiset(w);
    }
  }

  lemma {:induction false} ColumnsAgree(w: seq<seq<real>>, w': seq<seq<real>>, dim: nat)
    requires AllVectors(w) && AllVectors(w') && dim < VECTOR_DIM && multiset(w) == multiset(w')
    ensures multiset(Column(w, dim)) == multiset(Column(w', dim))
    decreases |w|
  {
    hide Column, AllVectors;
    if w == [] {
      NoVectors(w');
    } else {
      var j := FindVector(w, w');
      ColumnWithout(w, 0, dim);
      ColumnWithout(w', j, dim);
      ColumnsAgree(w[..0] + w[0 + 1..], w'[..j] + w'[j + 1..], dim);
    }
  }

  /** Reordering the vectors of a window changes no dimension's parameters. */
  lemma WindowOrderIndependent(w: seq<seq<real>>, w': seq<seq<real>>, dim: nat)
    requires AllVectors(w) && AllVectors(w') && dim < VECTOR_DIM && multiset(w) == multiset(w')
    ensures Params(Column(w, dim)) == Params(Column(w', dim))
  {
    hide Column, Params;
    ColumnsAgree(w, w', dim);
    OrderIndependent(Column(w, dim), Column(w', dim));
  }
}
