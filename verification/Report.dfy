/** The statistics of a benchmark report: mean, minimum, maximum and percentiles of int64 timings. */
module BenchStatistics {
  import opened Arithmetic

  // ---------- sorting ----------

  ghost predicate Sorted(s: seq<int>) {
    forall i :: 0 <= i < |s| - 1 ==> s[i] <= s[i + 1]
  }

  function Insert(s: seq<int>, v: int): seq<int> {
    if s == [] || v <= s[0] then [v] + s else [s[0]] + Insert(s[1..], v)
  }

  /** The library's sort of a copy. */
  function Sort(s: seq<int>): seq<int> {
    if s == [] then [] else Insert(Sort(s[1..]), s[0])
  }

  lemma {:induction false} InsertSorts(s: seq<int>, v: int)
    requires Sorted(s)
    ensures Sorted(Insert(s, v))
    ensures Insert(s, v) != [] && (Insert(s, v)[0] == v || (s != [] && Insert(s, v)[0] == s[0]))
    decreases |s|
  {
    if s != [] && v > s[0] {
      InsertSorts(s[1..], v);
    }
  }

  lemma {:induction false} InsertAdds(s: seq<int>, v: int)
    ensures multiset(Insert(s, v)) == multiset(s) + multiset{v}
    decreases |s|
  {
    if s != [] && v > s[0] {
      InsertAdds(s[1..], v);
      assert s == [s[0]] + s[1..];
    }
  }

  lemma {:induction false} SortSorts(s: seq<int>)
    ensures Sorted(Sort(s)) && multiset(Sort(s)) == multiset(s) && |Sort(s)| == |s|
    decreases |s|
  {
    if s != [] {
      SortSorts(s[1..]);
      InsertSorts(Sort(s[1..]), s[0]);
      InsertAdds(Sort(s[1..]), s[0]);
      assert s == [s[0]] + s[1..];
    }
    SameSize(Sort(s), s);
  }

  lemma SameSize(s: seq<int>, t: seq<int>)
    requires multiset(s) == multiset(t)
    ensures |s| == |t|
  {
    assert |multiset(s)| == |s| && |multiset(t)| == |t|;
  }

  lemma {:induction false} SortedOrder(s: seq<int>, i: nat, j: nat)
    requires Sorted(s) && i <= j < |s|
    ensures s[i] <= s[j]
    decreases j
  {
    if i < j {
      SortedOrder(s, i, j - 1);
    }
  }

  lemma HeadLeast(s: seq<int>, v: int)
    requires Sorted(s) && v in s
    ensures s[0] <= v <= s[|s| - 1]
  {
    var j :| 0 <= j < |s| && s[j] == v;
    SortedOrder(s, 0, j);
    SortedOrder(s, j, |s| - 1);
  }

  lemma HeadsAgree(s: seq<int>, t: seq<int>)
    requires Sorted(s) && Sorted(t) && multiset(s) == multiset(t) && s != []
    ensures t != [] && s[0] == t[0]
  {
    SameSize(s, t);
    assert s[0] in multiset(t) && t[0] in multiset(s);
    HeadLeast(s, t[0]);
    HeadLeast(t, s[0]);
  }

  /** A sorted sequence is determined by its multiset. */
  lemma {:induction false} SortedUnique(s: seq<int>, t: seq<int>)
    requires Sorted(s) && Sorted(t) && multiset(s) == multiset(t)
    ensures s == t
    decreases |s|
  {
    SameSize(s, t);
    if s != [] {
      HeadsAgree(s, t);
      DropHead(s);
      DropHead(t);
      SortedTail(s);
      SortedTail(t);
      SortedUnique(s[1..], t[1..]);
      SameHeadAndTail(s, t);
    }
  }

  lemma SameHeadAndTail(s: seq<int>, t: seq<int>)
    requires s != [] && t != [] && s[0] == t[0] && s[1..] == t[1..]
    ensures s == t
  {
    assert s == [s[0]] + s[1..] && t == [t[0]] + t[1..];
  }

  lemma SortedTail(s: seq<int>)
    requires Sorted(s) && s != []
    ensures Sorted(s[1..])
  {}

  lemma DropHead(s: seq<int>)
    requires s != []
    ensures multiset(s[1..]) == multiset(s) - multiset{s[0]}
  {
    assert s == [s[0]] + s[1..];
  }

  // ---------- percentiles ----------

  /** The value `x` hundredths of the way along a sorted sequence. */
  function ValueAt(sorted: seq<int>, x: nat): int
    requires sorted != []
  {
    var lower := x / 100;
    if lower + 1 >= |sorted| then sorted[|sorted| - 1]
    else Between(sorted[lower], sorted[lower + 1], x % 100, 100)
  }

  function Percentile(vals: seq<int>, p: nat): int {
    if vals == [] then 0
    else
      SortSorts(vals);
      ProductNonNegative(p, |vals| - 1);
      ValueAt(Sort(vals), p * (|vals| - 1))
  }

  /** Percentile `p` interpolates linearly at position p/100 * (n-1) of the values in ascending order, and truncates. */
  lemma PercentileExactly(vals: seq<int>, p: nat, ascending: seq<int>, x: nat)
    requires Sorted(ascending) && multiset(ascending) == multiset(vals)
    requires x == p * (|vals| - 1) && vals != []
    ensures |ascending| == |vals|
    ensures var lower := x / 100;
            if lower + 1 >= |vals| then Percentile(vals, p) == ascending[|vals| - 1]
            else LiesAt(Percentile(vals, p), ascending[lower], ascending[lower + 1], x % 100, 100)
  {
    SameSize(ascending, vals);
    SortSorts(vals);
    SortedUnique(Sort(vals), ascending);
    var lower := x / 100;
    if lower + 1 < |vals| {
      BetweenExactly(ascending[lower], ascending[lower + 1], x % 100, 100);
    }
  }

  lemma PercentileOfMultiset(v: seq<int>, w: seq<int>, p: nat)
    requires multiset(v) == multiset(w)
    ensures Percentile(v, p) == Percentile(w, p)
  {
    SameSize(v, w);
    SortSorts(v);
    SortSorts(w);
    SortedUnique(Sort(v), Sort(w));
  }

  lemma ValueAtMonotone(sorted: seq<int>, x: nat, y: nat)
    requires sorted != [] && Sorted(sorted) && x <= y
    ensures ValueAt(sorted, x) <= ValueAt(sorted, y)
  {
    var i, j := x / 100, y / 100;
    if i + 1 < |sorted| {
      if i == j {
        var a, b := sorted[i], sorted[i + 1];
        ProductNonNegative(y % 100 - x % 100, b - a);
        Distribute(x % 100, y % 100 - x % 100, b - a);
        TruncDivMonotone(a * 100 + x % 100 * (b - a), a * 100 + y % 100 * (b - a), 100);
      } else {
        assert ValueAt(sorted, x) <= sorted[i + 1];
        SortedOrder(sorted, i + 1, if j + 1 < |sorted| then j else |sorted| - 1);
      }
    }
  }

  lemma PercentileMonotone(vals: seq<int>, p: nat, q: nat)
    requires p <= q
    ensures Percentile(vals, p) <= Percentile(vals, q)
  {
    if vals != [] {
      Distribute(p, q - p, |vals| - 1);
      ProductNonNegative(q - p, |vals| - 1);
      ProductNonNegative(p, |vals| - 1);
      SortSorts(vals);
      ValueAtMonotone(Sort(vals), p * (|vals| - 1), q * (|vals| - 1));
    }
  }

  ghost predicate IsMin(m: int, vals: seq<int>) {
    m in vals && forall v :: v in vals ==> m <= v
  }

  ghost predicate IsMax(m: int, vals: seq<int>) {
    m in vals && forall v :: v in vals ==> v <= m
  }

  lemma SortedEnds(vals: seq<int>)
    requires vals != []
    ensures |Sort(vals)| == |vals|
    ensures IsMin(Sort(vals)[0], vals) && IsMax(Sort(vals)[|vals| - 1], vals)
  {
    SortSorts(vals);
    var s := Sort(vals);
    assert s[0] in multiset(s) && s[|s| - 1] in multiset(s);
    forall v | v in vals ensures s[0] <= v <= s[|s| - 1] {
      assert v in multiset(s);
      HeadLeast(s, v);
    }
  }

  lemma PercentileEndValues(vals: seq<int>, p: nat)
    requires vals != [] && |Sort(vals)| == |vals|
    ensures p == 0 ==> Percentile(vals, p) == Sort(vals)[0]
    ensures p >= 100 ==> Percentile(vals, p) == Sort(vals)[|vals| - 1]
  {
    if p >= 100 {
      Distribute(100, p - 100, |vals| - 1);
      ProductNonNegative(p - 100, |vals| - 1);
      QuotientAtLeast(p * (|vals| - 1), 100, |vals| - 1);
    }
  }

  /** From the 0th percentile, the minimum, to the 100th and beyond, the maximum. */
  lemma PercentileEnds(vals: seq<int>, p: nat)
    requires vals != []
    ensures p == 0 ==> IsMin(Percentile(vals, p), vals)
    ensures p >= 100 ==> IsMax(Percentile(vals, p), vals)
  {
    SortedEnds(vals);
    PercentileEndValues(vals, p);
  }

  /** Every percentile lies between minimum and maximum. */
  lemma PercentileInRange(vals: seq<int>, p: nat)
    requires vals != []
    ensures forall v :: IsMin(v, vals) ==> v <= Percentile(vals, p)
    ensures forall v :: IsMax(v, vals) ==> Percentile(vals, p) <= v
  {
    PercentileMonotone(vals, 0, p);
    PercentileMonotone(vals, p, 100 + p);
    SortedEnds(vals);
    PercentileEndValues(vals, 0);
    PercentileEndValues(vals, 100 + p);
  }

  // ---------- the mean and its int64 accumulator ----------

  const TWO_63 := 0x8000_0000_0000_0000
  const TWO_64 := 0x1_0000_0000_0000_0000

  predicate Fits64(x: int) {
    -TWO_63 <= x < TWO_63
  }

  /** Reduction to a signed 64-bit value. */
  function Wrap64(x: int): (w: int)
    ensures Fits64(w)
    ensures Fits64(x) ==> w == x
  {
    (x + TWO_63) % TWO_64 - TWO_63
  }

  function Total(vals: seq<int>): int {
    if vals == [] then 0 else Total(vals[..|vals| - 1]) + vals[|vals| - 1]
  }

  lemma WrapAdd(x: int, v: int)
    ensures Wrap64(Wrap64(x) + v) == Wrap64(x + v)
  {
    var q := (x + TWO_63) / TWO_64;
    var y := x + v + TWO_63;
    assert Wrap64(x) + v + TWO_63 == y - q * TWO_64;
    DivModUnique(y - q * TWO_64, TWO_64, y / TWO_64 - q, y % TWO_64);
  }

  lemma {:induction false} TotalBounds(vals: seq<int>, lo: int, hi: int)
    requires forall i :: 0 <= i < |vals| ==> lo <= vals[i] <= hi
    ensures lo * |vals| <= Total(vals) <= hi * |vals|
    decreases |vals|
  {
    if vals != [] {
      TotalBounds(vals[..|vals| - 1], lo, hi);
      Distribute(|vals| - 1, 1, lo);
      Distribute(|vals| - 1, 1, hi);
    }
  }

  lemma TrueMeanInRange(vals: seq<int>, lo: int, hi: int)
    requires IsMin(lo, vals) && IsMax(hi, vals)
    ensures lo <= TruncDiv(Total(vals), |vals|) <= hi
  {
    assert forall i :: 0 <= i < |vals| ==> vals[i] in vals;
    TotalBounds(vals, lo, hi);
    TruncDivMonotone(lo * |vals|, Total(vals), |vals|);
    TruncDivMonotone(Total(vals), hi * |vals|, |vals|);
    TruncDivExact(lo, |vals|);
    TruncDivExact(hi, |vals|);
  }

  lemma FarApart(x: int, y: int, n: int)
    requires n > 0 && x + 2 * n <= y
    ensures TruncDiv(x, n) < TruncDiv(y, n)
  {
    TruncDivTruncates(x, n);
    TruncDivTruncates(y, n);
    if TruncDiv(y, n) <= TruncDiv(x, n) {
      ProductNonNegative(TruncDiv(x, n) - TruncDiv(y, n), n);
      Distribute(TruncDiv(x, n) - TruncDiv(y, n), TruncDiv(y, n), n);
    }
  }

  /** The computed mean is the mean exactly when the total fits the accumulator; and then it lies in range. */
  lemma MeanExactIff(vals: seq<int>)
    requires 0 < |vals| < TWO_63
    ensures TruncDiv(Wrap64(Total(vals)), |vals|) == TruncDiv(Total(vals), |vals|) <==> Fits64(Total(vals))
  {
    var t := Total(vals);
    if !Fits64(t) {
      var q := (t + TWO_63) / TWO_64;
      assert Wrap64(t) == t - q * TWO_64;
      if q >= 1 {
        FarApart(Wrap64(t), t, |vals|);
      } else {
        assert q <= -1;
        FarApart(t, Wrap64(t), |vals|);
      }
    }
  }

  /** Twice the greatest int64 value: the mean is computed as -1. */
  lemma MeanWrapsAround()
    ensures var vals := [TWO_63 - 1, TWO_63 - 1];
            TruncDiv(Wrap64(Total(vals)), 2) == -1 && TruncDiv(Total(vals), 2) == TWO_63 - 1
  {
    var vals := [TWO_63 - 1, TWO_63 - 1];
    assert vals[..1] == [TWO_63 - 1] && vals[..1][..0] == [];
    assert Total(vals[..1]) == TWO_63 - 1;
    assert Total(vals) == TWO_64 - 2;
  }

  // ---------- implementation ----------

  method Mean(vals: seq<int>) returns (m: int)
    requires |vals| < TWO_63 && forall v :: v in vals ==> Fits64(v)
    ensures vals == [] ==> m == 0
    ensures vals != [] ==> (m == TruncDiv(Total(vals), |vals|) <==> Fits64(Total(vals)))
    ensures forall lo, hi :: IsMin(lo, vals) && IsMax(hi, vals) && Fits64(Total(vals)) ==> lo <= m <= hi
  {
    if |vals| == 0 {
      return 0;
    }
    var sum := 0;
    for i := 0 to |vals|
      invariant sum == Wrap64(Total(vals[..i]))
    {
      assert vals[..i + 1][..i] == vals[..i];
      WrapAdd(Total(vals[..i]), vals[i]);
      sum := Wrap64(sum + vals[i]);
    }
    assert vals[..|vals|] == vals;
    MeanExactIff(vals);
    forall lo, hi | IsMin(lo, vals) && IsMax(hi, vals) && Fits64(Total(vals))
      ensures lo <= TruncDiv(Total(vals), |vals|) <= hi
    {
      TrueMeanInRange(vals, lo, hi);
    }
    m := TruncDiv(sum, |vals|);
  }

  method Min(vals: seq<int>) returns (m: int)
    ensures if vals == [] then m == 0 else IsMin(m, vals)
  {
    if |vals| == 0 {
      return 0;
    }
    m := vals[0];
    for i := 1 to |vals|
      invariant IsMin(m, vals[..i])
    {
      assert vals[..i + 1] == vals[..i] + [vals[i]];
      if vals[i] < m {
        m := vals[i];
      }
    }
    assert vals[..|vals|] == vals;
  }

  method Max(vals: seq<int>) returns (m: int)
    ensures if vals == [] then m == 0 else IsMax(m, vals)
  {
    if |vals| == 0 {
      return 0;
    }
    m := vals[0];
    for i := 1 to |vals|
      invariant IsMax(m, vals[..i])
    {
      assert vals[..i + 1] == vals[..i] + [vals[i]];
      if vals[i] > m {
        m := vals[i];
      }
    }
    assert vals[..|vals|] == vals;
  }
}
