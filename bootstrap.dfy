/**
 * The bootstrap estimator of P(female) and its grouped forms (src/bootstrap.py).
 *
 * Probabilities are mathematical reals.  The random generator is injected: a `Draw`
 * gives, for resample `k` and draw `j`, a natural number whose remainder modulo the
 * number of retained values is the index drawn, so every sequence of indices in
 * `[0, n)` is some `Draw`.  Percentiles follow numpy's default linear rule.
 */
module Bootstrap {
  import opened Wrappers

  /** One entry of a probability column: Python `None`, a float NaN, or a number. */
  datatype Prob = Null | NaN | Val(v: real)

  /** The outcome of one estimate: the mean of the resampled means and the 2.5 and 97.5 percentiles. */
  datatype Estimate = Estimate(mean: real, ciLower: real, ciUpper: real)

  /** `draw(k, j)`: the raw random number behind draw `j` of resample `k`. */
  type Draw = (nat, nat) -> nat

  // ---- The missing-value filter (line 31) and the sample count (lines 82, 122) ----

  /** The values that survive the filter `p is not None and not isnan(p)`, in order. */
  function Retained(probs: seq<Prob>): (vs: seq<real>)
    ensures |vs| <= |probs|
  {
    if probs == [] then []
    else (if probs[0].Val? then [probs[0].v] else []) + Retained(probs[1..])
  }

  /** The filter keeps exactly the numeric entries: `x` is retained iff `Val(x)` occurs. */
  lemma {:induction false} RetainedMembers(probs: seq<Prob>)
    ensures forall x :: x in Retained(probs) <==> Val(x) in probs
  {
    if probs != [] {
      RetainedMembers(probs[1..]);
      assert probs == [probs[0]] + probs[1..];
    }
  }

  /** `len([p for p in probs if p is not None])`: NaN entries count, `None` entries do not. */
  function NotNullCount(probs: seq<Prob>): (n: nat)
    ensures n <= |probs|
  {
    if probs == [] then 0 else (if probs[0].Null? then 0 else 1) + NotNullCount(probs[1..])
  }

  function NaNCount(probs: seq<Prob>): nat {
    if probs == [] then 0 else (if probs[0].NaN? then 1 else 0) + NaNCount(probs[1..])
  }

  /** The reported sample count is the number of retained values plus the number of NaN entries. */
  lemma {:induction false} NotNullCountSplits(probs: seq<Prob>)
    ensures NotNullCount(probs) == |Retained(probs)| + NaNCount(probs)
  {
    if probs != [] {
      NotNullCountSplits(probs[1..]);
    }
  }

  lemma {:induction false} RetainedAppend(a: seq<Prob>, b: seq<Prob>)
    ensures Retained(a + b) == Retained(a) + Retained(b)
  {
    if a == [] {
      assert a + b == b;
    } else {
      var head := if a[0].Val? then [a[0].v] else [];
      assert Retained(a + b) == head + Retained(a[1..] + b) by {
        assert (a + b)[0] == a[0];
        assert (a + b)[1..] == a[1..] + b;
      }
      RetainedAppend(a[1..], b);
    }
  }

  /** A `None` or NaN entry makes the retained values strictly fewer than the entries. */
  lemma {:induction false} RetainedShorter(probs: seq<Prob>, k: nat)
    requires k < |probs| && !probs[k].Val?
    ensures |Retained(probs)| < |probs|
  {
    if k > 0 {
      RetainedShorter(probs[1..], k - 1);
    }
  }

  /** Inserting a `None` or a NaN anywhere does not change what the filter keeps. */
  lemma {:induction false} RetainedIgnoresMissing(a: seq<Prob>, m: Prob, b: seq<Prob>)
    requires !m.Val?
    ensures Retained(a + [m] + b) == Retained(a + b)
  {
    RetainedAppend(a + [m], b);
    RetainedAppend(a, [m]);
    RetainedAppend(a, b);
    assert Retained([m]) == [];
  }

  // ---- Sums, means, extremes ----

  function Sum(s: seq<real>): real {
    if s == [] then 0.0 else s[0] + Sum(s[1..])
  }

  /** `np.mean`. */
  function Mean(s: seq<real>): real
    requires |s| > 0
  {
    Sum(s) / (|s| as real)
  }

  function Min(s: seq<real>): (m: real)
    requires |s| > 0
    ensures m in s && forall i :: 0 <= i < |s| ==> m <= s[i]
  {
    if |s| == 1 then s[0] else var m := Min(s[1..]); if s[0] <= m then s[0] else m
  }

  function Max(s: seq<real>): (m: real)
    requires |s| > 0
    ensures m in s && forall i :: 0 <= i < |s| ==> s[i] <= m
  {
    if |s| == 1 then s[0] else var m := Max(s[1..]); if s[0] >= m then s[0] else m
  }

  predicate Within(s: seq<real>, lo: real, hi: real) {
    forall i :: 0 <= i < |s| ==> lo <= s[i] <= hi
  }

  lemma {:induction false} SumWithin(s: seq<real>, lo: real, hi: real)
    requires Within(s, lo, hi)
    ensures (|s| as real) * lo <= Sum(s) <= (|s| as real) * hi
  {
    if s != [] {
      SumWithin(s[1..], lo, hi);
      assert (|s| as real) * lo == lo + ((|s| - 1) as real) * lo;
      assert (|s| as real) * hi == hi + ((|s| - 1) as real) * hi;
    }
  }

  /** A mean of values in `[lo, hi]` lies in `[lo, hi]`. */
  lemma {:induction false} MeanWithin(s: seq<real>, lo: real, hi: real)
    requires |s| > 0 && Within(s, lo, hi)
    ensures lo <= Mean(s) <= hi
  {
    SumWithin(s, lo, hi);
    var n := |s| as real;
    var m := Mean(s);
    assert m * n == Sum(s);
    assert (m - lo) * n >= 0.0;
    assert (hi - m) * n >= 0.0;
  }

  // ---- Resampling (lines 39-42) ----

  /** `np.random.choice(values, size=len(values), replace=True)` for resample `k`. */
  function Resample(values: seq<real>, draw: Draw, k: nat): (sample: seq<real>)
    requires |values| > 0
    ensures |sample| == |values|
    ensures forall j :: 0 <= j < |sample| ==> sample[j] in values
  {
    seq(|values|, j requires 0 <= j < |values| => values[draw(k, j) % |values|])
  }

  /** The first `count` resampled means, in iteration order. */
  function ResampledMeans(values: seq<real>, draw: Draw, count: nat): (ms: seq<real>)
    requires |values| > 0
    ensures |ms| == count
  {
    seq(count, k requires 0 <= k < count => Mean(Resample(values, draw, k)))
  }

  /** Every resampled mean lies between the smallest and the largest retained value. */
  lemma {:induction false} ResampledMeansWithin(values: seq<real>, draw: Draw, count: nat)
    requires |values| > 0
    ensures Within(ResampledMeans(values, draw, count), Min(values), Max(values))
  {
    var ms := ResampledMeans(values, draw, count);
    forall k | 0 <= k < count
      ensures Min(values) <= ms[k] <= Max(values)
    {
      var sample := Resample(values, draw, k);
      forall j | 0 <= j < |sample|
        ensures Min(values) <= sample[j] <= Max(values)
      {
        var i :| 0 <= i < |values| && values[i] == sample[j];
      }
      MeanWithin(sample, Min(values), Max(values));
    }
  }

  // ---- Sorting and numpy's linear percentile (lines 48-49) ----

  predicate Sorted(s: seq<real>) {
    forall i, j :: 0 <= i <= j < |s| ==> s[i] <= s[j]
  }

  /** `x` placed before the first element of sorted `s` that is not smaller. */
  function Insert(x: real, s: seq<real>): (r: seq<real>)
    ensures |r| == |s| + 1
    ensures multiset(r) == multiset(s) + multiset{x}
  {
    if s == [] then [x]
    else if x <= s[0] then [x] + s
    else
      assert s == [s[0]] + s[1..];
      [s[0]] + Insert(x, s[1..])
  }

  lemma {:induction false} InsertSorted(x: real, s: seq<real>)
    requires Sorted(s)
    ensures Sorted(Insert(x, s))
  {
    if s == [] {
    } else if x <= s[0] {
      ConsSorted(x, s);
    } else {
      var t := Insert(x, s[1..]);
      InsertSorted(x, s[1..]);
      forall i | 0 <= i < |t| ensures s[0] <= t[i] {
        InsertMember(x, s[1..], t[i]);
      }
      ConsSorted(s[0], t);
    }
  }

  /** A head no larger than any element of a sorted tail keeps it sorted. */
  lemma {:induction false} ConsSorted(h: real, t: seq<real>)
    requires Sorted(t) && forall i :: 0 <= i < |t| ==> h <= t[i]
    ensures Sorted([h] + t)
  {
    var r := [h] + t;
    forall i, j | 0 <= i <= j < |r| ensures r[i] <= r[j] {
      if i > 0 {
        assert r[i] == t[i - 1] && r[j] == t[j - 1];
      } else if j > 0 {
        assert r[j] == t[j - 1];
      }
    }
  }

  lemma {:induction false} InsertMember(x: real, s: seq<real>, y: real)
    requires y in Insert(x, s)
    ensures y == x || y in s
  {
    assert y in multiset(Insert(x, s));
  }

  /** The sorted rearrangement of `s` that `np.percentile` reads. */
  function SortReals(s: seq<real>): (r: seq<real>)
    ensures |r| == |s| && Sorted(r)
    ensures multiset(r) == multiset(s)
  {
    if s == [] then []
    else
      assert s == [s[0]] + s[1..];
      InsertSorted(s[0], SortReals(s[1..]));
      Insert(s[0], SortReals(s[1..]))
  }

  /** Linear interpolation between the order statistics at `floor(rank)` and `ceil(rank)`. */
  function Interpolate(t: seq<real>, rank: real): real
    requires 0.0 <= rank <= (|t| - 1) as real
  {
    var lo := rank.Floor;
    var hi := if lo as real == rank then lo else lo + 1;
    t[lo] + (rank - lo as real) * (t[hi] - t[lo])
  }

  /** numpy's default (linear) `percentile(s, q)`: rank `q / 100 * (len - 1)` in the sorted values. */
  function Percentile(s: seq<real>, q: real): (r: real)
    requires |s| > 0 && 0.0 <= q <= 100.0
    ensures Min(s) <= r <= Max(s)
  {
    SortedWithin(s, Min(s), Max(s));
    InterpolateWithin(SortReals(s), Rank(q, |s|), Min(s), Max(s));
    Interpolate(SortReals(s), Rank(q, |s|))
  }

  function Rank(q: real, m: nat): (r: real)
    requires m > 0 && 0.0 <= q <= 100.0
    ensures 0.0 <= r <= (m - 1) as real
  {
    var a, b := q / 100.0, (m - 1) as real;
    RankBound(a, b);
    a * b
  }

  lemma {:induction false} MulNonneg(x: real, y: real)
    requires 0.0 <= x && 0.0 <= y
    ensures 0.0 <= x * y
  {
  }

  lemma {:induction false} RankBound(a: real, b: real)
    requires 0.0 <= a <= 1.0 && 0.0 <= b
    ensures 0.0 <= a * b <= b
  {
    MulNonneg(a, b);
    MulNonneg(1.0 - a, b);
    assert (1.0 - a) * b == b - a * b;
  }

  lemma {:induction false} RankMonotone(q1: real, q2: real, m: nat)
    requires m > 0 && 0.0 <= q1 <= q2 <= 100.0
    ensures Rank(q1, m) <= Rank(q2, m)
  {
    var d := (m - 1) as real;
    MulNonneg(q2 / 100.0 - q1 / 100.0, d);
    assert (q2 / 100.0 - q1 / 100.0) * d == q2 / 100.0 * d - q1 / 100.0 * d;
  }

  lemma {:induction false} LerpWithin(a: real, b: real, f: real)
    requires a <= b && 0.0 <= f <= 1.0
    ensures a <= a + f * (b - a) <= b
  {
    var d := b - a;
    MulNonneg(f, d);
    MulNonneg(1.0 - f, d);
    assert (1.0 - f) * d == d - f * d;
  }

  lemma {:induction false} LerpMonotone(a: real, b: real, f1: real, f2: real)
    requires a <= b && 0.0 <= f1 <= f2
    ensures a + f1 * (b - a) <= a + f2 * (b - a)
  {
    MulNonneg(f2 - f1, b - a);
    assert (f2 - f1) * (b - a) == f2 * (b - a) - f1 * (b - a);
  }

  /** Facts about the two order statistics that `Interpolate` reads. */
  lemma {:induction false} InterpolateParts(t: seq<real>, rank: real)
    requires 0.0 <= rank <= (|t| - 1) as real
    ensures var lo := rank.Floor;
      var hi := if lo as real == rank then lo else lo + 1;
      0 <= lo <= hi < |t| && hi <= lo + 1 && 0.0 <= rank - lo as real <= 1.0 &&
      (hi == lo ==> rank - lo as real == 0.0) &&
      Interpolate(t, rank) == t[lo] + (rank - lo as real) * (t[hi] - t[lo])
  {
  }

  /** An interpolated percentile of sorted values in `[lo, hi]` lies in `[lo, hi]`. */
  lemma {:induction false} InterpolateWithin(t: seq<real>, rank: real, lo: real, hi: real)
    requires 0.0 <= rank <= (|t| - 1) as real && Sorted(t) && Within(t, lo, hi)
    ensures lo <= Interpolate(t, rank) <= hi
  {
    InterpolateParts(t, rank);
    var l := rank.Floor;
    var h := if l as real == rank then l else l + 1;
    LerpWithin(t[l], t[h], rank - l as real);
  }

  /** Over sorted values, the interpolated value lies between the two order statistics it reads. */
  lemma {:induction false} InterpolateBetween(t: seq<real>, rank: real)
    requires 0.0 <= rank <= (|t| - 1) as real && Sorted(t)
    ensures var lo := rank.Floor;
      var hi := if lo as real == rank then lo else lo + 1;
      0 <= lo <= hi < |t| && hi <= lo + 1 && (hi == lo ==> rank == lo as real) &&
      t[lo] <= Interpolate(t, rank) <= t[hi]
  {
    InterpolateParts(t, rank);
    var lo := rank.Floor;
    var hi := if lo as real == rank then lo else lo + 1;
    LerpWithin(t[lo], t[hi], rank - lo as real);
  }

  /** Linear interpolation over sorted values is monotone in the rank. */
  lemma {:induction false} InterpolateMonotone(t: seq<real>, r1: real, r2: real)
    requires 0.0 <= r1 <= r2 <= (|t| - 1) as real && Sorted(t)
    ensures Interpolate(t, r1) <= Interpolate(t, r2)
  {
    InterpolateBetween(t, r1);
    InterpolateBetween(t, r2);
    var l1, l2 := r1.Floor, r2.Floor;
    var h1 := if l1 as real == r1 then l1 else l1 + 1;
    var h2 := if l2 as real == r2 then l2 else l2 + 1;
    if l1 == l2 && h1 == h2 {
      InterpolateParts(t, r1);
      InterpolateParts(t, r2);
      LerpMonotone(t[l1], t[h1], r1 - l1 as real, r2 - l2 as real);
    } else if l1 == l2 {
      assert h1 == l1;
      assert t[h1] <= t[l2];
    } else {
      assert h1 <= l2;
      assert t[h1] <= t[l2];
    }
  }

  lemma {:induction false} SortedWithin(s: seq<real>, lo: real, hi: real)
    requires Within(s, lo, hi)
    ensures Within(SortReals(s), lo, hi)
  {
    var t := SortReals(s);
    forall i | 0 <= i < |t|
      ensures lo <= t[i] <= hi
    {
      assert t[i] in multiset(t);
      assert t[i] in multiset(s);
      var j :| 0 <= j < |s| && s[j] == t[i];
    }
  }

  /** A percentile of values in `[lo, hi]` lies in `[lo, hi]`. */
  lemma {:induction false} PercentileWithin(s: seq<real>, q: real, lo: real, hi: real)
    requires |s| > 0 && 0.0 <= q <= 100.0 && Within(s, lo, hi)
    ensures lo <= Percentile(s, q) <= hi
  {
    SortedWithin(s, lo, hi);
    InterpolateWithin(SortReals(s), Rank(q, |s|), lo, hi);
  }

  /** `np.percentile` with the linear rule is monotone in `q`. */
  lemma {:induction false} PercentileMonotone(s: seq<real>, q1: real, q2: real)
    requires |s| > 0 && 0.0 <= q1 <= q2 <= 100.0
    ensures Percentile(s, q1) <= Percentile(s, q2)
  {
    RankMonotone(q1, q2, |s|);
    InterpolateMonotone(SortReals(s), Rank(q1, |s|), Rank(q2, |s|));
  }

  // ---- The estimator (lines 12-50) ----

  /** What `bootstrap_pfemale(probs, iterations)` returns with the random draws fixed by `draw`. */
  function BootstrapSpec(probs: seq<Prob>, iterations: nat, draw: Draw): (r: Option<Estimate>)
    requires Retained(probs) != [] ==> iterations >= 1
    ensures r.None? <==> Retained(probs) == []
  {
    var vs := Retained(probs);
    if vs == [] then None
    else
      var ms := ResampledMeans(vs, draw, iterations);
      Some(Estimate(Mean(ms), Percentile(ms, 2.5), Percentile(ms, 97.5)))
  }

  /** The estimate lies within the retained values' range, and its interval is ordered. */
  lemma {:induction false} EstimateWithin(probs: seq<Prob>, iterations: nat, draw: Draw)
    requires Retained(probs) != [] && iterations >= 1
    ensures var vs := Retained(probs);
      var e := BootstrapSpec(probs, iterations, draw).value;
      && Min(vs) <= e.mean <= Max(vs)
      && Min(vs) <= e.ciLower <= e.ciUpper <= Max(vs)
  {
    var vs := Retained(probs);
    var ms := ResampledMeans(vs, draw, iterations);
    ResampledMeansWithin(vs, draw, iterations);
    MeanWithin(ms, Min(vs), Max(vs));
    PercentileWithin(ms, 2.5, Min(vs), Max(vs));
    PercentileWithin(ms, 97.5, Min(vs), Max(vs));
    PercentileMonotone(ms, 2.5, 97.5);
  }

  /** Probabilities in `[0, 1]` give an estimate in `[0, 1]`. */
  lemma {:induction false} EstimateIsProbability(probs: seq<Prob>, iterations: nat, draw: Draw)
    requires Retained(probs) != [] && iterations >= 1
    requires forall x :: Val(x) in probs ==> 0.0 <= x <= 1.0
    ensures var e := BootstrapSpec(probs, iterations, draw).value;
      0.0 <= e.mean <= 1.0 && 0.0 <= e.ciLower <= e.ciUpper <= 1.0
  {
    var vs := Retained(probs);
    RetainedMembers(probs);
    EstimateWithin(probs, iterations, draw);
    assert Min(vs) in vs && Max(vs) in vs;
  }

  /** If every retained value is `v`, the mean and both bounds are exactly `v`. */
  lemma {:induction false} ConstantEstimate(probs: seq<Prob>, v: real, iterations: nat, draw: Draw)
    requires Retained(probs) != [] && iterations >= 1
    requires forall x :: Val(x) in probs ==> x == v
    ensures BootstrapSpec(probs, iterations, draw) == Some(Estimate(v, v, v))
  {
    var vs := Retained(probs);
    RetainedMembers(probs);
    assert Min(vs) in vs && Max(vs) in vs;
    EstimateWithin(probs, iterations, draw);
    var e := BootstrapSpec(probs, iterations, draw).value;
    PinnedEstimate(e, Min(vs), Max(vs), v);
  }

  /** An estimate between two bounds that both equal `v` is `(v, v, v)`. */
  lemma {:induction false} PinnedEstimate(e: Estimate, lo: real, hi: real, v: real)
    requires lo == v && hi == v
    requires lo <= e.mean <= hi && lo <= e.ciLower <= e.ciUpper <= hi
    ensures e == Estimate(v, v, v)
  {
  }

  /** A single value `v` gives mean, lower and upper bound all equal to `v`. */
  lemma {:induction false} SingleValue(v: real, iterations: nat, draw: Draw)
    requires iterations >= 1
    ensures BootstrapSpec([Val(v)], iterations, draw) == Some(Estimate(v, v, v))
  {
    assert Retained([Val(v)]) == [v];
    ConstantEstimate([Val(v)], v, iterations, draw);
  }

  /** Inserting a `None` or NaN leaves the estimate unchanged for the same random draws. */
  lemma {:induction false} MissingIgnored(a: seq<Prob>, m: Prob, b: seq<Prob>, iterations: nat, draw: Draw)
    requires !m.Val? && (Retained(a + b) != [] ==> iterations >= 1)
    ensures Retained(a + [m] + b) != [] ==> iterations >= 1
    ensures BootstrapSpec(a + [m] + b, iterations, draw) == BootstrapSpec(a + b, iterations, draw)
  {
    RetainedIgnoresMissing(a, m, b);
  }

  /**
   * `bootstrap_pfemale`: filter, then `iterations` resamples of `len(probs)` draws each,
   * collecting their means, then the mean and 2.5/97.5 percentiles of those means.
   */
  method BootstrapPFemale(probabilities: seq<Prob>, iterations: nat, draw: Draw) returns (r: Option<Estimate>)
    requires Retained(probabilities) != [] ==> iterations >= 1
    ensures r == BootstrapSpec(probabilities, iterations, draw)
    ensures r.None? <==> Retained(probabilities) == []
    ensures r.Some? ==> var vs := Retained(probabilities);
      Min(vs) <= r.value.mean <= Max(vs) && Min(vs) <= r.value.ciLower <= r.value.ciUpper <= Max(vs)
  {
    var probs := Retained(probabilities);
    if probs == [] {
      return None;
    }
    var means: seq<real> := [];
    var k := 0;
    while k < iterations
      invariant k <= iterations
      invariant means == ResampledMeans(probs, draw, k)
    {
      var sample := Resample(probs, draw, k);
      means := means + [Mean(sample)];
      k := k + 1;
    }
    r := Some(Estimate(Mean(means), Percentile(means, 2.5), Percentile(means, 97.5)));
    EstimateWithin(probabilities, iterations, draw);
  }

  // ---- Grouping (lines 53-127) ----

  /** One row of the input table: its categorical columns and its `p_female` cell. */
  datatype Record<K> = Record(columns: map<string, K>, pFemale: Prob)

  /** A result row of `bootstrap_by_group`: the key under `"group"`, the estimate and `n_samples`. */
  datatype GroupRow<K> = GroupRow(group: K, estimate: Option<Estimate>, nSamples: nat)

  /** A result row of `bootstrap_by_multiple_groups`: the keys under their column names. */
  datatype KeyedRow<K> = KeyedRow(keys: map<string, K>, estimate: Option<Estimate>, nSamples: nat)

  predicate HasColumns<K>(rows: seq<Record<K>>, cols: seq<string>) {
    forall i, c :: 0 <= i < |rows| && c in cols ==> c in rows[i].columns
  }

  /** The tuple of a row's values in the grouping columns. */
  function GroupKey<K>(r: Record<K>, cols: seq<string>): (key: seq<K>)
    requires forall c :: c in cols ==> c in r.columns
    ensures |key| == |cols|
  {
    seq(|cols|, i requires 0 <= i < |cols| => r.columns[cols[i]])
  }

  /** The key combinations that occur in the table (`groupby` creates no empty groups). */
  function KeysPresent<K(==)>(rows: seq<Record<K>>, cols: seq<string>): (keys: set<seq<K>>)
    requires HasColumns(rows, cols)
    ensures forall k :: k in keys ==> |k| == |cols|
  {
    set i | 0 <= i < |rows| :: GroupKey(rows[i], cols)
  }

  /** The `p_female` column of one group, in row order. */
  function GroupProbs<K(==)>(rows: seq<Record<K>>, cols: seq<string>, key: seq<K>): seq<Prob>
    requires HasColumns(rows, cols)
  {
    if rows == [] then []
    else (if GroupKey(rows[0], cols) == key then [rows[0].pFemale] else []) + GroupProbs(rows[1..], cols, key)
  }

  function AllProbs<K>(rows: seq<Record<K>>): seq<Prob> {
    if rows == [] then [] else [rows[0].pFemale] + AllProbs(rows[1..])
  }

  /** The dict `{col: val for col, val in zip(cols, vals)}` (a later duplicate column wins). */
  function ZipKeys<K>(cols: seq<string>, vals: seq<K>): map<string, K>
    requires |cols| == |vals|
  {
    if cols == [] then map[]
    else ZipKeys(cols[..|cols| - 1], vals[..|vals| - 1])[cols[|cols| - 1] := vals[|vals| - 1]]
  }

  /** The echoed key columns of lines 113-116. */
  function EchoKeys<K>(cols: seq<string>, key: seq<K>): map<string, K>
    requires |cols| == |key|
  {
    if |cols| == 1 then map[cols[0] := key[0]] else ZipKeys(cols, key)
  }

  /** With distinct column names, each column is echoed with its own key value, and nothing else. */
  lemma {:induction false} ZipKeysEcho<K>(cols: seq<string>, vals: seq<K>)
    requires |cols| == |vals|
    requires forall i, j :: 0 <= i < j < |cols| ==> cols[i] != cols[j]
    ensures ZipKeys(cols, vals).Keys == set c | c in cols
    ensures forall i :: 0 <= i < |cols| ==> ZipKeys(cols, vals)[cols[i]] == vals[i]
  {
    ZipKeysDomain(cols, vals);
    if cols != [] {
      var n := |cols| - 1;
      ZipKeysEcho(cols[..n], vals[..n]);
      forall i | 0 <= i < n
        ensures ZipKeys(cols, vals)[cols[i]] == vals[i]
      {
        assert cols[..n][i] == cols[i];
        assert vals[..n][i] == vals[i];
      }
    }
  }

  lemma {:induction false} ZipKeysDomain<K>(cols: seq<string>, vals: seq<K>)
    requires |cols| == |vals|
    ensures ZipKeys(cols, vals).Keys == set c | c in cols
  {
    if cols != [] {
      var n := |cols| - 1;
      ZipKeysDomain(cols[..n], vals[..n]);
      assert cols == cols[..n] + [cols[n]];
    }
  }

  /** Both branches of lines 113-116 echo every grouping column under its own name. */
  lemma {:induction false} EchoKeysEcho<K>(cols: seq<string>, key: seq<K>)
    requires |cols| == |key|
    requires forall i, j :: 0 <= i < j < |cols| ==> cols[i] != cols[j]
    ensures EchoKeys(cols, key).Keys == set c | c in cols
    ensures forall i :: 0 <= i < |cols| ==> EchoKeys(cols, key)[cols[i]] == key[i]
  {
    ZipKeysEcho(cols, key);
  }

  /** With distinct grouping columns, each is echoed with its own key value. */
  lemma {:induction false} EchoedColumns<K>(cols: seq<string>, key: seq<K>)
    requires |cols| == |key|
    ensures (forall i, j :: 0 <= i < j < |cols| ==> cols[i] != cols[j]) ==>
      forall i :: 0 <= i < |cols| ==> cols[i] in EchoKeys(cols, key) && EchoKeys(cols, key)[cols[i]] == key[i]
  {
    if forall i, j :: 0 <= i < j < |cols| ==> cols[i] != cols[j] {
      EchoKeysEcho(cols, key);
    }
  }

  /**
   * The result row that `bootstrap_by_multiple_groups` emits for one key combination: the
   * grouping columns echoed with their key values, no estimate exactly when no value of the
   * group survives the filter, and `n_samples` counting the retained and the NaN cells.
   */
  function KeyedResult<K(==)>(rows: seq<Record<K>>, cols: seq<string>, key: seq<K>, iterations: nat, draw: Draw): (r: KeyedRow<K>)
    requires HasColumns(rows, cols) && |key| == |cols| && iterations >= 1
    ensures (forall i, j :: 0 <= i < j < |cols| ==> cols[i] != cols[j]) ==>
      forall i :: 0 <= i < |cols| ==> cols[i] in r.keys && r.keys[cols[i]] == key[i]
    ensures r.estimate.None? <==> Retained(GroupProbs(rows, cols, key)) == []
    ensures r.nSamples == |Retained(GroupProbs(rows, cols, key))| + NaNCount(GroupProbs(rows, cols, key))
  {
    var probs := GroupProbs(rows, cols, key);
    EchoedColumns(cols, key);
    NotNullCountSplits(probs);
    KeyedRow(EchoKeys(cols, key), BootstrapSpec(probs, iterations, draw), NotNullCount(probs))
  }

  /**
   * The result row that `bootstrap_by_group` emits for the group whose `col` value is `v`:
   * no estimate exactly when no value of the group survives the filter, and `n_samples`
   * counting the retained and the NaN cells.
   */
  function GroupResult<K(==)>(rows: seq<Record<K>>, col: string, v: K, iterations: nat, draw: Draw): (r: GroupRow<K>)
    requires HasColumns(rows, [col]) && iterations >= 1
    ensures r.group == v
    ensures r.estimate.None? <==> Retained(GroupProbs(rows, [col], [v])) == []
    ensures r.nSamples == |Retained(GroupProbs(rows, [col], [v]))| + NaNCount(GroupProbs(rows, [col], [v]))
  {
    var probs := GroupProbs(rows, [col], [v]);
    NotNullCountSplits(probs);
    GroupRow(v, BootstrapSpec(probs, iterations, draw), NotNullCount(probs))
  }

  /** The body of the `bootstrap_by_group` loop for one group. */
  method EstimateGroup<K(==)>(rows: seq<Record<K>>, col: string, v: K, iterations: nat, draw: Draw)
    returns (row: GroupRow<K>)
    requires HasColumns(rows, [col]) && iterations >= 1
    ensures row.group == v && row == GroupResult(rows, col, v, iterations, draw)
  {
    var probs := GroupProbs(rows, [col], [v]);
    var estimate := BootstrapPFemale(probs, iterations, draw);
    row := GroupRow(v, estimate, NotNullCount(probs));
  }

  /** The body of the `bootstrap_by_multiple_groups` loop for one key combination. */
  method EstimateKeyedGroup<K(==)>(rows: seq<Record<K>>, cols: seq<string>, key: seq<K>, iterations: nat, draw: Draw)
    returns (row: KeyedRow<K>)
    requires HasColumns(rows, cols) && |key| == |cols| && iterations >= 1
    ensures row == KeyedResult(rows, cols, key, iterations, draw)
  {
    var probs := GroupProbs(rows, cols, key);
    var estimate := BootstrapPFemale(probs, iterations, draw);
    var echoed: map<string, K>;
    if |cols| == 1 {
      echoed := map[cols[0] := key[0]];
    } else {
      echoed := ZipKeys(cols, key);
    }
    row := KeyedRow(echoed, estimate, NotNullCount(probs));
  }

  /** The values of `col` that occur in the table: the groups of `df.groupby(col)`. */
  function GroupValues<K(==)>(rows: seq<Record<K>>, col: string): set<K>
    requires HasColumns(rows, [col])
  {
    assert col in [col];
    set i | 0 <= i < |rows| :: rows[i].columns[col]
  }

  /** The groups of one column are the one-column key combinations. */
  lemma {:induction false} GroupValuesKeys<K>(rows: seq<Record<K>>, col: string)
    requires HasColumns(rows, [col])
    ensures forall v :: v in GroupValues(rows, col) ==> [v] in KeysPresent(rows, [col])
    ensures forall k :: k in KeysPresent(rows, [col]) ==> k == [k[0]] && k[0] in GroupValues(rows, col)
  {
    forall i | 0 <= i < |rows|
      ensures GroupKey(rows[i], [col]) == [rows[i].columns[col]]
    {
      assert col in [col];
    }
  }

  /** The group values of the result rows. */
  function Groups<K(==)>(results: seq<GroupRow<K>>): (vs: set<K>)
    ensures forall g :: g in results ==> g.group in vs
    ensures forall v :: v in vs ==> exists g :: g in results && v == g.group
  {
    set g | g in results :: g.group
  }

  predicate DistinctGroups<K(==)>(results: seq<GroupRow<K>>) {
    forall i, j :: 0 <= i < j < |results| ==> results[i].group != results[j].group
  }

  /** Moving a group from the remaining values to the end of the results keeps their union and distinctness. */
  lemma {:induction false} AddGroup<K>(results: seq<GroupRow<K>>, row: GroupRow<K>, remaining: set<K>, present: set<K>)
    requires Groups(results) + remaining == present && row.group in remaining
    requires DistinctGroups(results) && forall g :: g in results ==> g.group !in remaining
    ensures Groups(results + [row]) + (remaining - {row.group}) == present
    ensures DistinctGroups(results + [row])
    ensures forall g :: g in results + [row] ==> g.group !in remaining - {row.group}
  {
    assert Groups(results + [row]) == Groups(results) + {row.group};
    assert forall j :: 0 <= j < |results| ==> results[j] in results;
  }

  /**
   * `bootstrap_by_group`: one result row per value of `col` present in the table, each
   * holding the estimate over that group's `p_female` cells, with random draws `draws(v)`
   * for group `v`, and its `n_samples`.
   */
  method BootstrapByGroup<K(==)>(rows: seq<Record<K>>, col: string, iterations: nat, draws: K -> Draw)
    returns (results: seq<GroupRow<K>>)
    requires HasColumns(rows, [col]) && iterations >= 1
    ensures DistinctGroups(results)
    ensures Groups(results) == GroupValues(rows, col)
    ensures forall g :: g in results ==> g == GroupResult(rows, col, g.group, iterations, draws(g.group))
  {
    var present := GroupValues(rows, col);
    var remaining := present;
    results := [];
    while remaining != {}
      invariant remaining <= present
      invariant DistinctGroups(results)
      invariant forall g :: g in results ==> g.group !in remaining
      invariant Groups(results) + remaining == present
      invariant forall g :: g in results ==> g == GroupResult(rows, col, g.group, iterations, draws(g.group))
      decreases |remaining|
    {
      var v :| v in remaining;
      var row := EstimateGroup(rows, col, v, iterations, draws(v));
      AddGroup(results, row, remaining, present);
      AddGroupResult(rows, col, iterations, draws, results, row);
      results := results + [row];
      remaining := remaining - {v};
    }
  }

  /** Appending the row of a group keeps every result the row of its group. */
  lemma {:induction false} AddGroupResult<K>(rows: seq<Record<K>>, col: string, iterations: nat, draws: K -> Draw,
                              results: seq<GroupRow<K>>, row: GroupRow<K>)
    requires HasColumns(rows, [col]) && iterations >= 1
    requires forall g :: g in results ==> g == GroupResult(rows, col, g.group, iterations, draws(g.group))
    requires row == GroupResult(rows, col, row.group, iterations, draws(row.group))
    ensures forall g :: g in results + [row] ==> g == GroupResult(rows, col, g.group, iterations, draws(g.group))
  {
  }

  /** Moving `key` from the remaining set to the end of the visited keys keeps their union and distinctness. */
  lemma {:induction false} AddKey<K>(keys: seq<seq<K>>, key: seq<K>, remaining: set<seq<K>>, present: set<seq<K>>)
    requires KeySet(keys) + remaining == present && key in remaining
    requires DistinctKeys(keys) && KeySet(keys) !! remaining
    ensures KeySet(keys + [key]) + (remaining - {key}) == present
    ensures DistinctKeys(keys + [key])
    ensures KeySet(keys + [key]) !! remaining - {key}
  {
    assert KeySet(keys + [key]) == KeySet(keys) + {key};
    assert forall j :: 0 <= j < |keys| ==> keys[j] in KeySet(keys);
  }

  /** The key combinations visited so far, as a set. */
  function KeySet<K(==)>(keys: seq<seq<K>>): (ks: set<seq<K>>)
    ensures forall k :: k in keys ==> k in ks
    ensures forall k :: k in ks ==> k in keys
  {
    set k | k in keys
  }

  predicate DistinctKeys<K(==)>(keys: seq<seq<K>>) {
    forall i, j :: 0 <= i < j < |keys| ==> keys[i] != keys[j]
  }

  /**
   * `bootstrap_by_multiple_groups`: one result row per key combination of `cols` present in
   * the table.  `keys[i]` is the combination behind `results[i]`.  `groupby` with no
   * columns raises ValueError on a non-empty table (`raised`), and yields no group on an
   * empty one.
   */
  method BootstrapByMultipleGroups<K(==)>(rows: seq<Record<K>>, cols: seq<string>, iterations: nat, draws: seq<K> -> Draw)
    returns (raised: bool, keys: seq<seq<K>>, results: seq<KeyedRow<K>>)
    requires HasColumns(rows, cols) && iterations >= 1
    ensures raised <==> cols == [] && rows != []
    ensures raised ==> keys == [] && results == []
    ensures |keys| == |results| && DistinctKeys(keys)
    ensures !raised ==> KeySet(keys) == KeysPresent(rows, cols)
    ensures forall i :: 0 <= i < |keys| ==>
      |keys[i]| == |cols| && results[i] == KeyedResult(rows, cols, keys[i], iterations, draws(keys[i]))
  {
    keys, results := [], [];
    if cols == [] && rows != [] {
      return true, keys, results;
    }
    raised := false;
    var present := KeysPresent(rows, cols);
    var remaining := present;
    while remaining != {}
      invariant remaining <= present
      invariant |keys| == |results| && DistinctKeys(keys)
      invariant KeySet(keys) !! remaining
      invariant KeySet(keys) + remaining == present
      invariant forall i :: 0 <= i < |keys| ==>
        |keys[i]| == |cols| && results[i] == KeyedResult(rows, cols, keys[i], iterations, draws(keys[i]))
      decreases |remaining|
    {
      var key :| key in remaining;
      var row := EstimateKeyedGroup(rows, cols, key, iterations, draws(key));
      GroupsStep(rows, cols, iterations, draws, present, keys, results, remaining, key, row);
      keys := keys + [key];
      results := results + [row];
      remaining := remaining - {key};
    }
  }

  /** One round of the group loop keeps its invariants and shrinks the keys left to visit. */
  lemma {:induction false} GroupsStep<K>(rows: seq<Record<K>>, cols: seq<string>, iterations: nat, draws: seq<K> -> Draw,
                                         present: set<seq<K>>, keys: seq<seq<K>>, results: seq<KeyedRow<K>>,
                                         remaining: set<seq<K>>, key: seq<K>, row: KeyedRow<K>)
    requires HasColumns(rows, cols) && iterations >= 1 && present == KeysPresent(rows, cols)
    requires remaining <= present && |keys| == |results| && DistinctKeys(keys)
    requires KeySet(keys) !! remaining && KeySet(keys) + remaining == present
    requires forall i :: 0 <= i < |keys| ==>
      |keys[i]| == |cols| && results[i] == KeyedResult(rows, cols, keys[i], iterations, draws(keys[i]))
    requires key in remaining && row == KeyedResult(rows, cols, key, iterations, draws(key))
    ensures remaining - {key} <= present && |keys + [key]| == |results + [row]| && DistinctKeys(keys + [key])
    ensures KeySet(keys + [key]) !! remaining - {key} && KeySet(keys + [key]) + (remaining - {key}) == present
    ensures forall i :: 0 <= i < |keys + [key]| ==>
      |(keys + [key])[i]| == |cols| &&
      (results + [row])[i] == KeyedResult(rows, cols, (keys + [key])[i], iterations, draws((keys + [key])[i]))
    ensures |remaining - {key}| < |remaining|
  {
    AddKey(keys, key, remaining, present);
    AddKeyedResult(rows, cols, iterations, draws, keys, results, key, row);
  }

  /** Appending the row of `key` keeps every result the row of its key. */
  lemma {:induction false} AddKeyedResult<K>(rows: seq<Record<K>>, cols: seq<string>, iterations: nat, draws: seq<K> -> Draw,
                              keys: seq<seq<K>>, results: seq<KeyedRow<K>>, key: seq<K>, row: KeyedRow<K>)
    requires HasColumns(rows, cols) && iterations >= 1 && |keys| == |results| && |key| == |cols|
    requires forall i :: 0 <= i < |keys| ==>
      |keys[i]| == |cols| && results[i] == KeyedResult(rows, cols, keys[i], iterations, draws(keys[i]))
    requires row == KeyedResult(rows, cols, key, iterations, draws(key))
    ensures forall i :: 0 <= i < |keys + [key]| ==>
      |(keys + [key])[i]| == |cols| &&
      (results + [row])[i] == KeyedResult(rows, cols, (keys + [key])[i], iterations, draws((keys + [key])[i]))
  {
    forall i | 0 <= i < |keys + [key]|
      ensures |(keys + [key])[i]| == |cols| &&
        (results + [row])[i] == KeyedResult(rows, cols, (keys + [key])[i], iterations, draws((keys + [key])[i]))
    {
      if i < |keys| {
        assert (keys + [key])[i] == keys[i] && (results + [row])[i] == results[i];
      }
    }
  }

  // ---- The groups partition the table ----

  /** The `n_samples` of the groups `keys`, added up. */
  function SampleTotal<K(==)>(rows: seq<Record<K>>, cols: seq<string>, keys: seq<seq<K>>): nat
    requires HasColumns(rows, cols)
  {
    if keys == [] then 0 else NotNullCount(GroupProbs(rows, cols, keys[0])) + SampleTotal(rows, cols, keys[1..])
  }

  /** Over distinct keys, a row `r` in front adds its count once if its key is among them. */
  lemma {:induction false} IndicatorSum<K>(rest: seq<Record<K>>, cols: seq<string>, r: Record<K>, keys: seq<seq<K>>)
    requires HasColumns(rest, cols) && (forall c :: c in cols ==> c in r.columns) && DistinctKeys(keys)
    ensures HasColumns([r] + rest, cols)
    ensures SampleTotal([r] + rest, cols, keys) ==
      SampleTotal(rest, cols, keys) + (if GroupKey(r, cols) in keys && !r.pFemale.Null? then 1 else 0)
    decreases |keys|
  {
    HasColumnsCons(r, rest, cols);
    if keys != [] {
      DistinctKeysTail(keys, GroupKey(r, cols));
      IndicatorSum(rest, cols, r, keys[1..]);
      GroupProbsCons(r, rest, cols, keys[0]);
      var front := if GroupKey(r, cols) == keys[0] then [r.pFemale] else [];
      NotNullCountAppend(front, GroupProbs(rest, cols, keys[0]));
    }
  }

  lemma {:induction false} HasColumnsCons<K>(r: Record<K>, rest: seq<Record<K>>, cols: seq<string>)
    requires HasColumns(rest, cols) && forall c :: c in cols ==> c in r.columns
    ensures HasColumns([r] + rest, cols)
  {
    var rows := [r] + rest;
    assert forall i :: 0 < i < |rows| ==> rows[i] == rest[i - 1];
  }

  /** The tail of distinct keys is distinct, and misses the head. */
  lemma {:induction false} DistinctKeysTail<K>(keys: seq<seq<K>>, x: seq<K>)
    requires DistinctKeys(keys) && keys != []
    ensures DistinctKeys(keys[1..])
    ensures x in keys <==> x == keys[0] || x in keys[1..]
    ensures x == keys[0] ==> x !in keys[1..]
  {
    var tail := keys[1..];
    assert forall i :: 0 <= i < |tail| ==> tail[i] == keys[i + 1];
    assert keys == [keys[0]] + tail;
  }

  /** The group values of a table with `r` in front: `r`'s value first when its key matches. */
  lemma {:induction false} GroupProbsCons<K>(r: Record<K>, rest: seq<Record<K>>, cols: seq<string>, key: seq<K>)
    requires HasColumns(rest, cols) && forall c :: c in cols ==> c in r.columns
    ensures HasColumns([r] + rest, cols)
    ensures GroupProbs([r] + rest, cols, key) ==
      (if GroupKey(r, cols) == key then [r.pFemale] else []) + GroupProbs(rest, cols, key)
  {
    HasColumnsCons(r, rest, cols);
    assert ([r] + rest)[1..] == rest;
  }

  lemma {:induction false} NotNullCountAppend(a: seq<Prob>, b: seq<Prob>)
    ensures NotNullCount(a + b) == NotNullCount(a) + NotNullCount(b)
  {
    if a == [] {
      assert a + b == b;
    } else {
      NotNullCountAppend(a[1..], b);
      assert (a + b)[1..] == a[1..] + b;
    }
  }

  /**
   * Every row lies in exactly one group: over distinct keys that cover every row's key, the
   * `n_samples` add up to the non-`None` count of the whole `p_female` column.
   */
  lemma {:induction false} GroupsPartition<K>(rows: seq<Record<K>>, cols: seq<string>, keys: seq<seq<K>>)
    requires HasColumns(rows, cols) && DistinctKeys(keys)
    requires forall i :: 0 <= i < |rows| ==> GroupKey(rows[i], cols) in keys
    ensures SampleTotal(rows, cols, keys) == NotNullCount(AllProbs(rows))
    decreases |rows|
  {
    if rows == [] {
      SampleTotalEmpty(cols, keys);
    } else {
      var rest := rows[1..];
      assert rows == [rows[0]] + rest;
      assert forall i :: 0 <= i < |rest| ==> rest[i] == rows[i + 1];
      IndicatorSum(rest, cols, rows[0], keys);
      GroupsPartition(rest, cols, keys);
      assert AllProbs(rows) == [rows[0].pFemale] + AllProbs(rest);
      assert GroupKey(rows[0], cols) in keys;
    }
  }

  lemma {:induction false} SampleTotalEmpty<K>(cols: seq<string>, keys: seq<seq<K>>)
    ensures SampleTotal([], cols, keys) == 0
    decreases |keys|
  {
    if keys != [] {
      SampleTotalEmpty(cols, keys[1..]);
    }
  }

  /** The rows that `bootstrap_by_multiple_groups` returns account for every non-`None` cell once. */
  lemma {:induction false} MultipleGroupsTotal<K>(rows: seq<Record<K>>, cols: seq<string>, keys: seq<seq<K>>)
    requires HasColumns(rows, cols) && DistinctKeys(keys)
    requires KeySet(keys) == KeysPresent(rows, cols)
    ensures SampleTotal(rows, cols, keys) == NotNullCount(AllProbs(rows))
  {
    forall i | 0 <= i < |rows| ensures GroupKey(rows[i], cols) in keys {
      assert GroupKey(rows[i], cols) in KeysPresent(rows, cols);
    }
    GroupsPartition(rows, cols, keys);
  }

  // ---- The trend guard (lines 130-154) ----

  /** One row of the `[year, p_female]` frame; either cell may be missing. */
  datatype TrendRow = TrendRow(year: Option<real>, pFemale: Prob)

  /** `df[[year_col, prob_col]].dropna()`: the rows with both cells present, as points. */
  function TrendPoints(rows: seq<TrendRow>): (pts: seq<(real, real)>)
    ensures |pts| <= |rows|
  {
    if rows == [] then []
    else
      (if rows[0].year.Some? && rows[0].pFemale.Val? then [(rows[0].year.value, rows[0].pFemale.v)] else [])
      + TrendPoints(rows[1..])
  }

  /** `dropna` keeps exactly the complete rows. */
  lemma {:induction false} TrendPointsMembers(rows: seq<TrendRow>)
    ensures forall x, y :: (x, y) in TrendPoints(rows) <==> TrendRow(Some(x), Val(y)) in rows
  {
    if rows != [] {
      TrendPointsMembers(rows[1..]);
      assert rows == [rows[0]] + rows[1..];
    }
  }

  /**
   * `calculate_trend`: `(None, None)` with fewer than two complete rows, otherwise the
   * degree-1 fit `fit(years, p_female)` as `(slope, intercept)`.
   */
  function CalculateTrend(rows: seq<TrendRow>, fit: (seq<real>, seq<real>) -> (real, real)): (r: Option<(real, real)>)
    ensures r.None? <==> |TrendPoints(rows)| < 2
    ensures r.Some? ==> var pts := TrendPoints(rows);
      r.value == fit(seq(|pts|, i requires 0 <= i < |pts| => pts[i].0), seq(|pts|, i requires 0 <= i < |pts| => pts[i].1))
  {
    var pts := TrendPoints(rows);
    if |pts| < 2 then None
    else Some(fit(seq(|pts|, i requires 0 <= i < |pts| => pts[i].0), seq(|pts|, i requires 0 <= i < |pts| => pts[i].1)))
  }
}
