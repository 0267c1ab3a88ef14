/**
 * Sequence helpers shared by several modules: the slices `xs[i:i + size]` for
 * `i in range(0, len(xs), size)`, and Python's `dict(pairs)`.
 */
module Seqs {

  /** The consecutive slices of at most `size` elements that a `range(0, len(xs), size)` loop visits. */
  function Batches<T>(xs: seq<T>, size: nat): (bs: seq<seq<T>>)
    requires size > 0
    ensures forall k :: 0 <= k < |bs| ==> 0 < |bs[k]| <= size
    ensures forall k :: 0 <= k < |bs| - 1 ==> |bs[k]| == size
    decreases |xs|
  {
    if xs == [] then []
    else
      var k := if |xs| < size then |xs| else size;
      [xs[..k]] + Batches(xs[k..], size)
  }

  /** The concatenation of a sequence of sequences. */
  function Flatten<T>(bs: seq<seq<T>>): seq<T> {
    if bs == [] then [] else bs[0] + Flatten(bs[1..])
  }

  /** The batches together are the whole input, once each, in order. */
  lemma {:induction false} FlattenBatches<T>(xs: seq<T>, size: nat)
    requires size > 0
    ensures Flatten(Batches(xs, size)) == xs
    decreases |xs|
  {
    if xs != [] {
      var k := if |xs| < size then |xs| else size;
      FlattenBatches(xs[k..], size);
      assert Batches(xs, size)[1..] == Batches(xs[k..], size);
      assert xs == xs[..k] + xs[k..];
    }
  }

  /** There are `ceil(len(xs) / size)` batches, the count `(len + size - 1) // size`. */
  lemma {:induction false} BatchCount<T>(xs: seq<T>, size: nat)
    requires size > 0
    ensures |Batches(xs, size)| == (|xs| + size - 1) / size
    decreases |xs|
  {
    if xs != [] {
      var k := if |xs| < size then |xs| else size;
      BatchCount(xs[k..], size);
      if |xs| < size {
        assert (|xs| + size - 1) / size == 1;
      } else {
        assert |xs| + size - 1 == (|xs| - size + size - 1) + size;
        DivStep(|xs| - size + size - 1, size);
      }
    }
  }

  lemma {:induction false} DivStep(a: nat, size: nat)
    requires size > 0
    ensures (a + size) / size == a / size + 1
  {
    var q, r := a / size, a % size;
    var q', r' := (a + size) / size, (a + size) % size;
    assert size * q' + r' == size * q + r + size;
    var x := q' - q - 1;
    assert size * x == r - r';
    MulBound(size, x);
  }

  /** A non-zero multiple of `d` is at least `d` in size. */
  lemma {:induction false} MulBound(d: nat, x: int)
    requires d > 0
    ensures x >= 1 ==> d * x >= d
    ensures x <= -1 ==> d * x <= -(d as int)
    decreases if x < 0 then -x else x
  {
    if x > 1 {
      MulBound(d, x - 1);
      assert d * x == d * (x - 1) + d;
    } else if x < -1 {
      MulBound(d, x + 1);
      assert d * x == d * (x + 1) - d;
    }
  }

  /** Unfolding one batch from the front of the remaining input at offset `i`. */
  lemma {:induction false} BatchesFrom<T>(xs: seq<T>, i: nat, size: nat)
    requires size > 0 && i < |xs|
    ensures var k := if |xs| - i < size then |xs| - i else size;
      Batches(xs[i..], size) == [xs[i..i + k]] + Batches(xs[i + k..], size)
  {
    var k := if |xs| - i < size then |xs| - i else size;
    assert xs[i..][..k] == xs[i..i + k];
    assert xs[i..][k..] == xs[i + k..];
  }

  // ---- dict(pairs) ----

  lemma {:induction false} AppendAssoc<T>(a: seq<T>, b: seq<T>, c: seq<T>)
    ensures (a + b) + c == a + (b + c)
  {
  }

  /** `dict(pairs)`: inserting left to right, so a later duplicate key overrides an earlier one. */
  function DictOf<V>(pairs: seq<(string, V)>): (d: map<string, V>)
    ensures forall k :: k in d <==> exists p :: p in pairs && p.0 == k
  {
    if pairs == [] then map[]
    else
      var init := pairs[..|pairs| - 1];
      var last := pairs[|pairs| - 1];
      assert pairs == init + [last];
      DictOf(init)[last.0 := last.1]
  }

  /** Each key maps to the value of its last pair. */
  lemma {:induction false} DictOfLastWins<V>(pairs: seq<(string, V)>, i: nat)
    requires i < |pairs|
    requires forall j :: i < j < |pairs| ==> pairs[j].0 != pairs[i].0
    ensures pairs[i].0 in DictOf(pairs) && DictOf(pairs)[pairs[i].0] == pairs[i].1
  {
    var init := pairs[..|pairs| - 1];
    if i < |pairs| - 1 {
      assert pairs[|pairs| - 1].0 != pairs[i].0;
      assert init[i] == pairs[i];
      DictOfLastWins(init, i);
    }
  }

  /** Every value of `dict(pairs)` comes from a pair with its key. */
  lemma {:induction false} DictOfValues<V>(pairs: seq<(string, V)>)
    ensures forall k :: k in DictOf(pairs) ==> (k, DictOf(pairs)[k]) in pairs
  {
    if pairs != [] {
      var init := pairs[..|pairs| - 1];
      DictOfValues(init);
      assert pairs == init + [pairs[|pairs| - 1]];
    }
  }
}
