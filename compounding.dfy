/**
 * Compounding and summing of return sequences, over exact real arithmetic:
 * the shared vocabulary of the return engine.
 */
module Compounding {

  /** Every return leaves something: 1 + r > 0 (no single-period wipe-out). */
  predicate AboveWipeout(rs: seq<real>) {
    forall i :: 0 <= i < |rs| ==> 1.0 + rs[i] > 0.0
  }

  predicate NonNegative(rs: seq<real>) {
    forall i :: 0 <= i < |rs| ==> rs[i] >= 0.0
  }

  /** The growth factor of a run of returns, Π(1 + r); the compounded return is Growth - 1. */
  function Growth(rs: seq<real>): real
    decreases |rs|
  {
    if rs == [] then 1.0 else Growth(rs[..|rs| - 1]) * (1.0 + rs[|rs| - 1])
  }

  /** Without a wipe-out the growth factor stays positive. */
  lemma {:induction false} GrowthPositive(rs: seq<real>)
    requires AboveWipeout(rs)
    ensures Growth(rs) > 0.0
    decreases |rs|
  {
    if rs != [] {
      var prior := rs[..|rs| - 1];
      GrowthPositive(prior);
      PositiveProduct(Growth(prior), 1.0 + rs[|rs| - 1]);
    }
  }

  /** Without a loss the growth factor is at least 1. */
  lemma {:induction false} GrowthAtLeastOne(rs: seq<real>)
    requires NonNegative(rs)
    ensures Growth(rs) >= 1.0
    decreases |rs|
  {
    if rs != [] {
      var prior := rs[..|rs| - 1];
      GrowthAtLeastOne(prior);
      AtLeastOneProduct(Growth(prior), 1.0 + rs[|rs| - 1]);
    }
  }

  lemma PositiveProduct(x: real, y: real)
    requires x > 0.0 && y > 0.0
    ensures x * y > 0.0
  {
  }

  lemma AtLeastOneProduct(x: real, y: real)
    requires x >= 1.0 && y >= 1.0
    ensures x * y >= 1.0
  {
    assert x * y >= x * 1.0;
  }

  function Sum(xs: seq<real>): real
    decreases |xs|
  {
    if xs == [] then 0.0 else Sum(xs[..|xs| - 1]) + xs[|xs| - 1]
  }

  /** The compounded return of a run of returns, `(1 + r).prod() - 1`. */
  function Compounded(rs: seq<real>): real {
    Growth(rs) - 1.0
  }

  /**
   * A product as a function: facts stated with it are matched by their
   * factors, so that a product of equal growth factors is seen to be equal
   * without arithmetic.
   */
  function Times(a: real, b: real): real {
    a * b
  }

  /** One more return multiplies the growth factor by its own factor. */
  lemma GrowthSnoc(rs: seq<real>, x: real)
    ensures Growth(rs + [x]) == Times(Growth(rs), 1.0 + x)
  {
    assert (rs + [x])[..|rs|] == rs;
  }

  /** Compounding two consecutive runs multiplies their growth factors. */
  lemma {:induction false} GrowthAppend(a: seq<real>, b: seq<real>)
    ensures Growth(a + b) == Growth(a) * Growth(b)
    decreases |b|
  {
    if b == [] {
      assert a + b == a;
    } else {
      var b' := b[..|b| - 1];
      var f := 1.0 + b[|b| - 1];
      assert (a + b)[..|a + b| - 1] == a + b';
      assert Growth(a + b) == Growth(a + b') * f;
      GrowthAppend(a, b');
      Regroup(Growth(a), Growth(b'), f);
    }
  }

  lemma Regroup(x: real, y: real, z: real)
    ensures (x * y) * z == x * (y * z)
  {
  }

  lemma {:induction false} SumAppend(a: seq<real>, b: seq<real>)
    ensures Sum(a + b) == Sum(a) + Sum(b)
    decreases |b|
  {
    if b == [] {
      assert a + b == a;
    } else {
      var b' := b[..|b| - 1];
      assert (a + b)[..|a + b| - 1] == a + b';
      SumAppend(a, b');
    }
  }

  /** A run of equal values sums to count times value. */
  lemma {:induction false} SumOfConstant(xs: seq<real>, c: real)
    requires forall i :: 0 <= i < |xs| ==> xs[i] == c
    ensures Sum(xs) == |xs| as real * c
    decreases |xs|
  {
    if xs != [] {
      SumOfConstant(xs[..|xs| - 1], c);
    }
  }
}
