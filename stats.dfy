/** The five statistics of the reducer as pure functions of the value list, over exact
    reals, with the properties each one promises. */
module Stats {

  /** A Python number as the reducer prints it: the int `0` it writes in its degenerate
      cases, or a float. */
  datatype Num = Int(i: int) | Float(r: real)
  {
    function Value(): real
    {
      match this
      case Int(i) => i as real
      case Float(r) => r
    }
  }

  // ---------------------------------------------------------------------------
  // Sums and counts, and their invariance under reordering
  // ---------------------------------------------------------------------------

  /** `sum(f(x) for x in s)`. */
  function SumOf(s: seq<real>, f: real -> real): real
  {
    if s == [] then 0.0 else f(s[0]) + SumOf(s[1..], f)
  }

  function Identity(x: real): real
  {
    x
  }

  /** `sum(s)`. */
  function Sum(s: seq<real>): real
  {
    SumOf(s, Identity)
  }

  /** How many elements of `s` satisfy `p`. */
  function Count(s: seq<real>, p: real -> bool): (r: nat)
    ensures r <= |s|
  {
    if s == [] then 0 else (if p(s[0]) then 1 else 0) + Count(s[1..], p)
  }

  function AtMost(t: real): real -> bool
  {
    x => x <= t
  }

  function Below(t: real): real -> bool
  {
    x => x < t
  }

  lemma {:induction false} SumOfAppend(a: seq<real>, b: seq<real>, f: real -> real)
    ensures SumOf(a + b, f) == SumOf(a, f) + SumOf(b, f)
  {
    if a == [] {
      assert a + b == b;
    } else {
      assert (a + b)[1..] == a[1..] + b;
      SumOfAppend(a[1..], b, f);
    }
  }

  lemma {:induction false} CountAppend(a: seq<real>, b: seq<real>, p: real -> bool)
    ensures Count(a + b, p) == Count(a, p) + Count(b, p)
  {
    if a == [] {
      assert a + b == b;
    } else {
      assert (a + b)[1..] == a[1..] + b;
      CountAppend(a[1..], b, p);
    }
  }

  /** Taking one element out of a sequence leaves the others, in their order. */
  lemma RemoveAt(b: seq<real>, j: nat)
    requires j < |b|
    ensures b == b[..j] + [b[j]] + b[j + 1..]
    ensures multiset(b[..j] + b[j + 1..]) == multiset(b) - multiset{b[j]}
  {
    assert b == b[..j] + [b[j]] + b[j + 1..];
  }

  /** Taking the term at `j` out of a sum. */
  lemma SumOfRemoveAt(b: seq<real>, j: nat, f: real -> real)
    requires j < |b|
    ensures SumOf(b, f) == f(b[j]) + SumOf(b[..j] + b[j + 1..], f)
  {
    RemoveAt(b, j);
    SumOfAppend(b[..j] + [b[j]], b[j + 1..], f);
    SumOfAppend(b[..j], [b[j]], f);
    SumOfAppend(b[..j], b[j + 1..], f);
  }

  /** Taking the element at `j` out of a count. */
  lemma CountRemoveAt(b: seq<real>, j: nat, p: real -> bool)
    requires j < |b|
    ensures Count(b, p) == (if p(b[j]) then 1 else 0) + Count(b[..j] + b[j + 1..], p)
  {
    RemoveAt(b, j);
    CountAppend(b[..j] + [b[j]], b[j + 1..], p);
    CountAppend(b[..j], [b[j]], p);
    CountAppend(b[..j], b[j + 1..], p);
  }

  /** Two arrangements of the same values: the head of the first occurs in the second,
      and what remains of each is again an arrangement of the same values. */
  lemma MatchHead(a: seq<real>, b: seq<real>) returns (j: nat)
    requires |a| > 0 && multiset(a) == multiset(b)
    ensures j < |b| && b[j] == a[0]
    ensures multiset(a[1..]) == multiset(b[..j] + b[j + 1..])
  {
    assert a[0] in multiset(b);
    j :| 0 <= j < |b| && b[j] == a[0];
    RemoveAt(b, j);
    assert a == [a[0]] + a[1..];
    calc {
      multiset(a[1..]);
      multiset(a) - multiset{a[0]};
      multiset(b) - multiset{b[j]};
    }
  }

  /** A sum does not depend on the order of its terms. */
  lemma {:induction false} SumOfPermutation(a: seq<real>, b: seq<real>, f: real -> real)
    requires multiset(a) == multiset(b)
    ensures SumOf(a, f) == SumOf(b, f)
    decreases |a|
  {
    if a == [] {
      assert |b| == |multiset(b)| == 0;
    } else {
      var j := MatchHead(a, b);
      SumOfRemoveAt(b, j, f);
      SumOfPermutation(a[1..], b[..j] + b[j + 1..], f);
    }
  }

  /** A count does not depend on the order of the elements. */
  lemma {:induction false} CountPermutation(a: seq<real>, b: seq<real>, p: real -> bool)
    requires multiset(a) == multiset(b)
    ensures Count(a, p) == Count(b, p)
    decreases |a|
  {
    if a == [] {
      assert |b| == |multiset(b)| == 0;
    } else {
      var j := MatchHead(a, b);
      CountRemoveAt(b, j, p);
      CountPermutation(a[1..], b[..j] + b[j + 1..], p);
    }
  }

  lemma {:induction false} CountAll(s: seq<real>, p: real -> bool)
    requires forall i :: 0 <= i < |s| ==> p(s[i])
    ensures Count(s, p) == |s|
  {
    if s != [] {
      CountAll(s[1..], p);
    }
  }

  lemma {:induction false} CountNone(s: seq<real>, p: real -> bool)
    requires forall i :: 0 <= i < |s| ==> !p(s[i])
    ensures Count(s, p) == 0
  {
    if s != [] {
      CountNone(s[1..], p);
    }
  }

  // ---------------------------------------------------------------------------
  // min(), max(), mean
  // ---------------------------------------------------------------------------

  /** `min(s)`: an element of `s` no larger than any other. */
  function Min(s: seq<real>): (r: real)
    requires |s| > 0
    ensures r in s
    ensures forall i :: 0 <= i < |s| ==> r <= s[i]
  {
    if |s| == 1 then s[0]
    else
      var m := Min(s[1..]);
      if s[0] <= m then s[0] else m
  }

  /** `max(s)`: an element of `s` no smaller than any other. */
  function Max(s: seq<real>): (r: real)
    requires |s| > 0
    ensures r in s
    ensures forall i :: 0 <= i < |s| ==> s[i] <= r
  {
    if |s| == 1 then s[0]
    else
      var m := Max(s[1..]);
      if s[0] >= m then s[0] else m
  }

  /** `sum(s) / len(s)`. */
  function Mean(s: seq<real>): real
    requires |s| > 0
  {
    Sum(s) / |s| as real
  }

  lemma {:induction false} SumBounds(s: seq<real>, lo: real, hi: real)
    requires forall i :: 0 <= i < |s| ==> lo <= s[i] <= hi
    ensures |s| as real * lo <= Sum(s) <= |s| as real * hi
  {
    if s != [] {
      SumBounds(s[1..], lo, hi);
    }
  }

  lemma QuotientBounds(a: real, n: real, lo: real, hi: real)
    requires n > 0.0 && n * lo <= a <= n * hi
    ensures lo <= a / n <= hi
  {
    var q := a / n;
    assert q * n == a;
    assert (q - hi) * n <= 0.0;
    assert (lo - q) * n <= 0.0;
  }

  /** Bounds that hold of every value hold of the mean. */
  lemma MeanWithin(s: seq<real>, lo: real, hi: real)
    requires |s| > 0
    requires forall i :: 0 <= i < |s| ==> lo <= s[i] <= hi
    ensures lo <= Mean(s) <= hi
  {
    SumBounds(s, lo, hi);
    QuotientBounds(Sum(s), |s| as real, lo, hi);
  }

  /** The mean lies between the smallest and the largest element. */
  lemma MeanBounds(s: seq<real>)
    requires |s| > 0
    ensures Min(s) <= Mean(s) <= Max(s)
  {
    MeanWithin(s, Min(s), Max(s));
  }

  // ---------------------------------------------------------------------------
  // Population variance, standard deviation and skewness
  // ---------------------------------------------------------------------------

  /** `x -> (x - m) ** 2`. */
  function SquaredDeviation(m: real): real -> real
  {
    x => (x - m) * (x - m)
  }

  /** `x -> ((x - m) / sd) ** 3`. */
  function CubedScore(m: real, sd: real): real -> real
    requires sd != 0.0
  {
    x => ((x - m) / sd) * ((x - m) / sd) * ((x - m) / sd)
  }

  /** The population variance: the mean squared deviation from the mean, dividing by n. */
  function Variance(s: seq<real>): real
    requires |s| > 0
  {
    SumOf(s, SquaredDeviation(Mean(s))) / |s| as real
  }

  /** `math.sqrt(variance)`, with the square root supplied by the caller. */
  function StdDev(s: seq<real>, sqrt: real -> real): real
    requires |s| > 0
  {
    sqrt(Variance(s))
  }

  /** The population skewness: the int 0 when the standard deviation is 0, otherwise the
      mean cubed standardised deviation as a float. */
  function Skewness(s: seq<real>, sqrt: real -> real): Num
    requires |s| > 0
  {
    var m := Mean(s);
    var sd := sqrt(Variance(s));
    if sd == 0.0 then Int(0) else Float(SumOf(s, CubedScore(m, sd)) / |s| as real)
  }

  /** `r` is the non-negative square root of `v`, as `math.sqrt` promises. */
  predicate IsRoot(r: real, v: real)
  {
    r >= 0.0 && r * r == v
  }

  /** Every element is the same. */
  predicate Constant(s: seq<real>)
  {
    forall i, j :: 0 <= i < |s| && 0 <= j < |s| ==> s[i] == s[j]
  }

  lemma {:induction false} SumOfNonNegative(s: seq<real>, f: real -> real)
    requires forall i :: 0 <= i < |s| ==> f(s[i]) >= 0.0
    ensures SumOf(s, f) >= 0.0
  {
    if s != [] {
      SumOfNonNegative(s[1..], f);
    }
  }

  /** A sum of non-negative terms is zero only when every term is. */
  lemma {:induction false} SumOfZero(s: seq<real>, f: real -> real)
    requires forall i :: 0 <= i < |s| ==> f(s[i]) >= 0.0
    requires SumOf(s, f) == 0.0
    ensures forall i :: 0 <= i < |s| ==> f(s[i]) == 0.0
  {
    if s != [] {
      SumOfNonNegative(s[1..], f);
      SumOfZero(s[1..], f);
      assert forall i :: 1 <= i < |s| ==> f(s[i]) == f(s[1..][i - 1]);
    }
  }

  lemma {:induction false} SumOfZeros(s: seq<real>, f: real -> real)
    requires forall i :: 0 <= i < |s| ==> f(s[i]) == 0.0
    ensures SumOf(s, f) == 0.0
  {
    if s != [] {
      SumOfZeros(s[1..], f);
    }
  }

  lemma {:induction false} SumOfConstant(s: seq<real>, c: real)
    requires forall i :: 0 <= i < |s| ==> s[i] == c
    ensures Sum(s) == |s| as real * c
  {
    if s != [] {
      SumOfConstant(s[1..], c);
    }
  }

  /** The variance is never negative. */
  lemma VarianceNonNegative(s: seq<real>)
    requires |s| > 0
    ensures Variance(s) >= 0.0
  {
    var f := SquaredDeviation(Mean(s));
    forall i | 0 <= i < |s| ensures f(s[i]) >= 0.0 {
      SquareNonNegative(s[i] - Mean(s));
    }
    SumOfNonNegative(s, f);
  }

  /** A square is never negative. */
  lemma SquareNonNegative(d: real)
    ensures d * d >= 0.0
  {
  }

  lemma ProductPositive(a: real, b: real)
    requires a > 0.0 && b > 0.0
    ensures a * b > 0.0
  {
  }

  /** A non-positive real is not positive (kept apart so that the step stays linear). */
  lemma NotAbove(p: real)
    requires p <= 0.0
    ensures !(p > 0.0)
  {
  }

  /** Equal factors whose product is not positive are not positive themselves. */
  lemma EqualFactorsNotPositive(d: real, e: real)
    requires d == e && !(d * e > 0.0)
    ensures !(d > 0.0)
  {
    if d > 0.0 {
      ProductPositive(d, e);
    }
  }

  /** Only zero squares to zero or less (stated for a product of equal factors). */
  lemma ZeroSquare(d: real, e: real)
    requires d == e && d * e <= 0.0
    ensures d == 0.0
  {
    NotAbove(d * e);
    EqualFactorsNotPositive(d, e);
    EqualFactorsNotPositive(-d, -e);
  }

  lemma CancelFactor(c: real, n: real)
    requires n > 0.0
    ensures (n * c) / n == c
  {
  }

  lemma QuotientZero(a: real, n: real)
    requires n > 0.0
    ensures a / n == 0.0 <==> a == 0.0
  {
    if a / n == 0.0 {
      assert a == a / n * n;
    }
  }

  /** All values equal: every deviation from the mean is zero, and so is the variance. */
  lemma {:induction false} VarianceOfConstant(s: seq<real>)
    requires |s| > 0 && Constant(s)
    ensures Variance(s) == 0.0
  {
    var f := SquaredDeviation(Mean(s));
    SumOfConstant(s, s[0]);
    CancelFactor(s[0], |s| as real);
    assert Mean(s) == s[0];
    forall i | 0 <= i < |s| ensures f(s[i]) == 0.0 {
      assert s[i] == s[0];
    }
    SumOfZeros(s, f);
  }

  /** Zero variance: every squared deviation is zero, so every value is the mean. */
  lemma {:induction false} ConstantOfZeroVariance(s: seq<real>)
    requires |s| > 0 && Variance(s) == 0.0
    ensures Constant(s)
  {
    var m := Mean(s);
    var f := SquaredDeviation(m);
    forall i | 0 <= i < |s| ensures f(s[i]) >= 0.0 {
      SquareNonNegative(s[i] - m);
    }
    QuotientZero(SumOf(s, f), |s| as real);
    SumOfZero(s, f);
    forall i | 0 <= i < |s| ensures s[i] == m {
      var d := s[i] - m;
      var e := s[i] - m;
      ZeroSquare(d, e);
    }
  }

  /** The variance is zero exactly when all values are equal. */
  lemma VarianceZeroIff(s: seq<real>)
    requires |s| > 0
    ensures Variance(s) == 0.0 <==> Constant(s)
  {
    if Constant(s) {
      VarianceOfConstant(s);
    }
    if Variance(s) == 0.0 {
      ConstantOfZeroVariance(s);
    }
  }

  /** A non-negative root is zero exactly when its square is. */
  lemma RootZero(r: real, v: real)
    requires IsRoot(r, v)
    ensures r == 0.0 <==> v == 0.0
  {
    if v == 0.0 {
      var e := r;
      ZeroSquare(r, e);
    }
  }

  /** With a correct square root, the standard deviation is non-negative, squares to the
      variance, and is zero exactly when all values are equal. */
  lemma StdDevSpec(s: seq<real>, sqrt: real -> real)
    requires |s| > 0
    requires IsRoot(sqrt(Variance(s)), Variance(s))
    ensures StdDev(s, sqrt) >= 0.0
    ensures StdDev(s, sqrt) * StdDev(s, sqrt) == Variance(s)
    ensures StdDev(s, sqrt) == 0.0 <==> Constant(s)
  {
    VarianceZeroIff(s);
    RootZero(sqrt(Variance(s)), Variance(s));
  }

  /** With a correct square root, the skewness is the int 0 exactly when all values are
      equal; otherwise it is a float. */
  lemma SkewnessZeroIff(s: seq<real>, sqrt: real -> real)
    requires |s| > 0
    requires IsRoot(sqrt(Variance(s)), Variance(s))
    ensures Skewness(s, sqrt) == Int(0) <==> Constant(s)
    ensures !Constant(s) ==> Skewness(s, sqrt).Float?
  {
    StdDevSpec(s, sqrt);
  }

  // ---------------------------------------------------------------------------
  // Reflection: skewness of a symmetric sample
  // ---------------------------------------------------------------------------

  /** Every value mirrored about `c`. */
  function Reflect(s: seq<real>, c: real): (r: seq<real>)
    ensures |r| == |s|
  {
    seq(|s|, i requires 0 <= i < |s| => 2.0 * c - s[i])
  }

  lemma {:induction false} SumReflect(s: seq<real>, c: real)
    ensures Sum(Reflect(s, c)) == 2.0 * c * |s| as real - Sum(s)
  {
    if s != [] {
      assert Reflect(s, c)[1..] == Reflect(s[1..], c);
      SumReflect(s[1..], c);
    }
  }

  /** Mirroring a value about the centre negates its cubed standard score. */
  lemma MirroredCube(x: real, c: real, sd: real)
    requires sd != 0.0
    ensures CubedScore(c, sd)(2.0 * c - x) == -CubedScore(c, sd)(x)
  {
    var d := (x - c) / sd;
    assert (2.0 * c - x - c) / sd == -d;
    assert (-d) * (-d) * (-d) == -(d * d * d);
  }

  lemma {:induction false} CubesReflect(s: seq<real>, c: real, sd: real)
    requires sd != 0.0
    ensures SumOf(Reflect(s, c), CubedScore(c, sd)) == -SumOf(s, CubedScore(c, sd))
  {
    if s != [] {
      var f := CubedScore(c, sd);
      assert Reflect(s, c)[1..] == Reflect(s[1..], c);
      CubesReflect(s[1..], c, sd);
      MirroredCube(s[0], c, sd);
    }
  }

  /** Reordering the values does not change the mean, the variance or the skewness. */
  lemma MomentsPermutation(a: seq<real>, b: seq<real>, sqrt: real -> real)
    requires |a| > 0 && multiset(a) == multiset(b)
    ensures |b| == |a|
    ensures Mean(a) == Mean(b)
    ensures Variance(a) == Variance(b)
    ensures StdDev(a, sqrt) == StdDev(b, sqrt)
    ensures Skewness(a, sqrt) == Skewness(b, sqrt)
  {
    assert |a| == |multiset(a)| == |multiset(b)| == |b|;
    SumOfPermutation(a, b, Identity);
    SumOfPermutation(a, b, SquaredDeviation(Mean(a)));
    var sd := sqrt(Variance(a));
    if sd != 0.0 {
      SumOfPermutation(a, b, CubedScore(Mean(a), sd));
    }
  }

  /** A sample that is symmetric about some centre (mirroring it gives the same values,
      reordered) has skewness exactly 0, whatever the square root returns. */
  lemma SkewnessOfSymmetric(s: seq<real>, c: real, sqrt: real -> real)
    requires |s| > 0
    requires multiset(Reflect(s, c)) == multiset(s)
    ensures Skewness(s, sqrt).Value() == 0.0
  {
    var r := Reflect(s, c);
    var n := |s| as real;
    MomentsPermutation(s, r, sqrt);
    SumReflect(s, c);
    SumOfPermutation(s, r, Identity);
    assert Sum(s) == n * c;
    CancelFactor(c, n);
    assert Mean(s) == c;
    var sd := sqrt(Variance(s));
    if sd != 0.0 {
      CubesReflect(s, c, sd);
      assert Mean(r) == c;
      SumOfPermutation(s, r, CubedScore(c, sd));
    }
  }

  // ---------------------------------------------------------------------------
  // Sorting, median and the 90th percentile
  // ---------------------------------------------------------------------------

  predicate Sorted(s: seq<real>)
  {
    forall i, j :: 0 <= i < j < |s| ==> s[i] <= s[j]
  }

  /** `x` put into its place in the sorted `s`. */
  function Insert(x: real, s: seq<real>): (r: seq<real>)
    requires Sorted(s)
    ensures |r| == |s| + 1
    ensures Sorted(r)
    ensures multiset(r) == multiset(s) + multiset{x}
  {
    if s == [] || x <= s[0] then [x] + s
    else
      SortedTail(s);
      var t := Insert(x, s[1..]);
      assert s == [s[0]] + s[1..];
      HeadBelowRest(s, x, t);
      SortedCons(s[0], t);
      [s[0]] + t
  }

  /** The tail of a sorted sequence is sorted. */
  lemma SortedTail(s: seq<real>)
    requires Sorted(s) && s != []
    ensures Sorted(s[1..])
  {
    forall i, j | 0 <= i < j < |s| - 1
      ensures s[1..][i] <= s[1..][j]
    {
      assert s[1..][i] == s[i + 1] && s[1..][j] == s[j + 1];
    }
  }

  /** A head no larger than anything after it keeps a sorted sequence sorted. */
  lemma SortedCons(h: real, t: seq<real>)
    requires Sorted(t)
    requires forall k :: 0 <= k < |t| ==> h <= t[k]
    ensures Sorted([h] + t)
  {
    var r := [h] + t;
    forall i, j | 0 <= i < j < |r|
      ensures r[i] <= r[j]
    {
      assert r[j] == t[j - 1];
      if i > 0 {
        assert r[i] == t[i - 1];
      }
    }
  }

  /** Inserting a value above the head of a sorted sequence into its tail leaves
      nothing below the head. */
  lemma HeadBelowRest(s: seq<real>, x: real, t: seq<real>)
    requires Sorted(s) && |s| > 0 && s[0] < x
    requires multiset(t) == multiset(s[1..]) + multiset{x}
    ensures forall k :: 0 <= k < |t| ==> s[0] <= t[k]
  {
    forall k | 0 <= k < |t|
      ensures s[0] <= t[k]
    {
      assert t[k] in multiset(t);
      if t[k] != x {
        assert t[k] in multiset(s[1..]);
        var j :| 0 <= j < |s[1..]| && s[1..][j] == t[k];
        assert s[j + 1] == t[k];
      }
    }
  }

  /** `sorted(s)`: the values of `s` in ascending order. */
  function SortSeq(s: seq<real>): (r: seq<real>)
    ensures |r| == |s|
    ensures Sorted(r)
    ensures multiset(r) == multiset(s)
  {
    if s == [] then []
    else
      assert s == [s[0]] + s[1..];
      Insert(s[0], SortSeq(s[1..]))
  }

  /** The first element of a sorted sequence is its least. */
  lemma SortedHeadLeast(a: seq<real>, x: real)
    requires Sorted(a) && x in multiset(a)
    ensures a[0] <= x
  {
    var i :| 0 <= i < |a| && a[i] == x;
  }

  /** There is only one ascending arrangement of a collection of values, so whatever
      sorting algorithm produced it, a sorted permutation of `s` is `SortSeq(s)`. */
  lemma {:induction false} SortedUnique(a: seq<real>, b: seq<real>)
    requires Sorted(a) && Sorted(b)
    requires multiset(a) == multiset(b)
    ensures a == b
    decreases |a|
  {
    assert |a| == |multiset(a)| == |multiset(b)| == |b|;
    if a != [] {
      SortedHeadLeast(a, b[0]);
      SortedHeadLeast(b, a[0]);
      assert a == [a[0]] + a[1..];
      assert b == [b[0]] + b[1..];
      assert a[0] == b[0];
      assert multiset(a[1..]) == multiset(b[1..]) by {
        calc {
          multiset(a[1..]);
          multiset(a) - multiset{a[0]};
          multiset(b) - multiset{b[0]};
          multiset(b[1..]);
        }
      }
      SortedUnique(a[1..], b[1..]);
    }
  }

  /** The median of the sorted values: the middle one for an odd count, otherwise the
      mean of the two central ones. */
  function Median(s: seq<real>): real
    requires |s| > 0
  {
    Middle(SortSeq(s))
  }

  /** The middle element of `t` for an odd length, otherwise the mean of the two central
      ones. */
  function Middle(t: seq<real>): real
    requires |t| > 0
  {
    var n := |t|;
    if n % 2 == 1 then t[n / 2] else (t[n / 2 - 1] + t[n / 2]) / 2.0
  }

  /** The middle of values that all lie in `[lo, hi]` lies there too. */
  lemma MiddleWithin(t: seq<real>, lo: real, hi: real)
    requires |t| > 0
    requires forall k :: 0 <= k < |t| ==> lo <= t[k] <= hi
    ensures lo <= Middle(t) <= hi
  {
    var n := |t|;
    assert lo <= t[n / 2] <= hi;
    if n % 2 == 0 {
      assert lo <= t[n / 2 - 1] <= hi;
    }
  }

  /** Every element of the sorted values is one of the input values. */
  lemma SortedElementIn(s: seq<real>, k: nat)
    requires k < |s|
    ensures SortSeq(s)[k] in s
  {
    assert SortSeq(s)[k] in multiset(SortSeq(s));
  }

  /** The sorted values lie between the smallest and the largest input value. */
  lemma SortedWithin(s: seq<real>)
    requires |s| > 0
    ensures forall k :: 0 <= k < |s| ==> Min(s) <= SortSeq(s)[k] <= Max(s)
  {
    forall k | 0 <= k < |s|
      ensures Min(s) <= SortSeq(s)[k] <= Max(s)
    {
      SortedElementIn(s, k);
    }
  }

  /** The median lies between the smallest and the largest value. */
  lemma MedianBounds(s: seq<real>)
    requires |s| > 0
    ensures Min(s) <= Median(s) <= Max(s)
  {
    SortedWithin(s);
    MiddleWithin(SortSeq(s), Min(s), Max(s));
  }

  /** `ceil(0.9 * n) - 1`, the 0-based nearest-rank index of the 90th percentile. */
  function PercentileIndex(n: nat): (k: int)
    ensures n >= 1 ==> 0 <= k < n
    ensures 10 * (k + 1) >= 9 * n && 10 * k < 9 * n
  {
    (9 * n + 9) / 10 - 1
  }

  /** The 90th percentile: the sorted value at `PercentileIndex(n)`. */
  function Percentile90(s: seq<real>): real
    requires |s| > 0
  {
    var t := SortSeq(s);
    t[PercentileIndex(|s|)]
  }

  /** In a sorted sequence, the first `k + 1` elements are all at most the one at `k`. */
  lemma SortedPrefixAtMost(t: seq<real>, k: nat)
    requires Sorted(t) && k < |t|
    ensures Count(t[..k + 1], AtMost(t[k])) == k + 1
  {
    var left := t[..k + 1];
    forall i | 0 <= i < |left| ensures AtMost(t[k])(left[i]) {
      assert left[i] == t[i];
      assert i == k || t[i] <= t[k];
    }
    CountAll(left, AtMost(t[k]));
  }

  /** In a sorted sequence, the element at `k` has at least `k + 1` elements at or below it. */
  lemma SortedCountAtMost(t: seq<real>, k: nat)
    requires Sorted(t) && k < |t|
    ensures Count(t, AtMost(t[k])) >= k + 1
  {
    SortedPrefixAtMost(t, k);
    CountOfPrefix(t, k + 1, AtMost(t[k]));
  }

  /** A sequence has at least as many elements satisfying `p` as any prefix of it. */
  lemma CountOfPrefix(t: seq<real>, j: nat, p: real -> bool)
    requires j <= |t|
    ensures Count(t[..j], p) <= Count(t, p)
  {
    assert t == t[..j] + t[j..];
    CountAppend(t[..j], t[j..], p);
  }

  /** In a sorted sequence, the element at `k` has at most `k` elements strictly below it. */
  lemma SortedCountBelow(t: seq<real>, k: nat)
    requires Sorted(t) && k < |t|
    ensures Count(t, Below(t[k])) <= k
  {
    var r := t[k];
    var p := Below(r);
    var right := t[k..];
    forall i | 0 <= i < |right| ensures !p(right[i]) {
      assert right[i] == t[k + i];
    }
    CountNone(right, p);
    assert t == t[..k] + right;
    CountAppend(t[..k], right, p);
  }

  /** The 90th percentile is an input value with at least `ceil(0.9 * n)` values at or
      below it and fewer than that strictly below it (the nearest-rank definition). */
  lemma PercentileSpec(s: seq<real>)
    requires |s| > 0
    ensures Percentile90(s) in s
    ensures Count(s, AtMost(Percentile90(s))) >= PercentileIndex(|s|) + 1
    ensures Count(s, Below(Percentile90(s))) <= PercentileIndex(|s|)
  {
    var t := SortSeq(s);
    var k := PercentileIndex(|s|);
    SortedElementIn(s, k);
    var r := t[k];
    SortedCountAtMost(t, k);
    SortedCountBelow(t, k);
    CountPermutation(s, t, AtMost(r));
    CountPermutation(s, t, Below(r));
  }

  /** Reordering the values does not change the median or the 90th percentile. */
  lemma OrderStatisticsPermutation(a: seq<real>, b: seq<real>)
    requires |a| > 0 && multiset(a) == multiset(b)
    ensures |b| > 0
    ensures Median(a) == Median(b)
    ensures Percentile90(a) == Percentile90(b)
  {
    assert |a| == |multiset(a)| == |multiset(b)| == |b|;
    SortedUnique(SortSeq(a), SortSeq(b));
  }

  // ---------------------------------------------------------------------------
  // Min-max normalisation
  // ---------------------------------------------------------------------------

  /** `(x - lo) / (hi - lo)`: the position of `x` within `[lo, hi]`. */
  function Scaled(x: real, lo: real, hi: real): real
    requires lo < hi
  {
    (x - lo) / (hi - lo)
  }

  /** The inverse of `Scaled`: the value at position `v` of `[lo, hi]`. */
  function Unscaled(v: real, lo: real, hi: real): real
  {
    lo + v * (hi - lo)
  }

  /** `[(x - min) / (max - min) if max > min else 0 for x in s]`. */
  function Normalize(s: seq<real>): seq<Num>
    requires |s| > 0
  {
    var lo := Min(s);
    var hi := Max(s);
    seq(|s|, i requires 0 <= i < |s| => if hi > lo then Float(Scaled(s[i], lo, hi)) else Int(0))
  }

  /** A value of `[lo, hi]` scales into `[0, 1]`, `lo` to 0 and `hi` to 1, and can be
      recovered from its scaled position. */
  lemma ScaledInto(x: real, lo: real, hi: real)
    requires lo <= x <= hi && lo < hi
    ensures 0.0 <= Scaled(x, lo, hi) <= 1.0
    ensures Unscaled(Scaled(x, lo, hi), lo, hi) == x
    ensures x == lo ==> Scaled(x, lo, hi) == 0.0
    ensures x == hi ==> Scaled(x, lo, hi) == 1.0
  {
    var w := hi - lo;
    var v := (x - lo) / w;
    assert v * w == x - lo;
    assert (v - 1.0) * w <= 0.0;
  }

  /** Scaling keeps the order of the values. */
  lemma ScaledMonotone(x: real, y: real, lo: real, hi: real)
    requires x <= y && lo < hi
    ensures Scaled(x, lo, hi) <= Scaled(y, lo, hi)
  {
    var w := hi - lo;
    assert ((y - lo) / w - (x - lo) / w) * w == y - x;
  }

  /** One normalised value: in [0, 1]; when the values differ it is a float from which the
      value can be recovered, 0 at the minimum and 1 at the maximum; otherwise the int 0. */
  lemma NormalizeAt(s: seq<real>, i: int)
    requires 0 <= i < |s|
    ensures 0.0 <= Normalize(s)[i].Value() <= 1.0
    ensures Max(s) == Min(s) ==> Normalize(s)[i] == Int(0)
    ensures Max(s) > Min(s) ==>
      && Normalize(s)[i].Float?
      && Unscaled(Normalize(s)[i].Value(), Min(s), Max(s)) == s[i]
      && (s[i] == Min(s) ==> Normalize(s)[i].Value() == 0.0)
      && (s[i] == Max(s) ==> Normalize(s)[i].Value() == 1.0)
  {
    var lo := Min(s);
    var hi := Max(s);
    assert lo <= s[i] <= hi;
    if hi > lo {
      assert Normalize(s)[i] == Float(Scaled(s[i], lo, hi));
      ScaledInto(s[i], lo, hi);
    } else {
      assert Normalize(s)[i] == Int(0);
    }
  }

  /** Normalisation keeps the order of the values. */
  lemma NormalizeOrder(s: seq<real>, i: int, j: int)
    requires 0 <= i < |s| && 0 <= j < |s| && s[i] <= s[j]
    ensures Normalize(s)[i].Value() <= Normalize(s)[j].Value()
  {
    if Max(s) > Min(s) {
      ScaledMonotone(s[i], s[j], Min(s), Max(s));
    }
  }

  /** One result per value, in order: each in [0, 1]; when the values differ the minimum
      maps to 0, the maximum to 1 and every value can be recovered from its result;
      when they are all equal every result is the int 0; and order is kept. */
  lemma NormalizeSpec(s: seq<real>)
    requires |s| > 0
    ensures |Normalize(s)| == |s|
    ensures forall i :: 0 <= i < |s| ==> 0.0 <= Normalize(s)[i].Value() <= 1.0
    ensures Max(s) == Min(s) ==> forall i :: 0 <= i < |s| ==> Normalize(s)[i] == Int(0)
    ensures Max(s) > Min(s) ==> forall i :: 0 <= i < |s| ==>
      && Normalize(s)[i].Float?
      && Unscaled(Normalize(s)[i].Value(), Min(s), Max(s)) == s[i]
      && (s[i] == Min(s) ==> Normalize(s)[i].Value() == 0.0)
      && (s[i] == Max(s) ==> Normalize(s)[i].Value() == 1.0)
    ensures forall i, j :: 0 <= i < |s| && 0 <= j < |s| && s[i] <= s[j] ==>
      Normalize(s)[i].Value() <= Normalize(s)[j].Value()
  {
    forall i | 0 <= i < |s|
      ensures 0.0 <= Normalize(s)[i].Value() <= 1.0
      ensures Max(s) == Min(s) ==> Normalize(s)[i] == Int(0)
      ensures Max(s) > Min(s) ==>
        && Normalize(s)[i].Float?
        && Unscaled(Normalize(s)[i].Value(), Min(s), Max(s)) == s[i]
        && (s[i] == Min(s) ==> Normalize(s)[i].Value() == 0.0)
        && (s[i] == Max(s) ==> Normalize(s)[i].Value() == 1.0)
    {
      NormalizeAt(s, i);
    }
    forall i, j | 0 <= i < |s| && 0 <= j < |s| && s[i] <= s[j]
      ensures Normalize(s)[i].Value() <= Normalize(s)[j].Value()
    {
      NormalizeOrder(s, i, j);
    }
  }
}
