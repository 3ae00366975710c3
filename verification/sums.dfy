/** Left-to-right sums of real sequences, the accumulations `sum += x`
    performed by the loops of the geometry core, and the algebra the
    area and mean proofs need about them. */
module Sums {

  /** The value of an accumulator started at zero after adding the
      elements of `s` in order. */
  function Sum(s: seq<real>): real {
    if |s| == 0 then 0.0 else Sum(s[..|s| - 1]) + s[|s| - 1]
  }

  /** The pointwise negation of `s`. */
  function Negate(s: seq<real>): (r: seq<real>)
    ensures |r| == |s|
    ensures forall i :: 0 <= i < |s| ==> r[i] == -s[i]
  {
    seq(|s|, i requires 0 <= i < |s| => -s[i])
  }

  lemma {:induction false} SumAppend(a: seq<real>, b: seq<real>)
    ensures Sum(a + b) == Sum(a) + Sum(b)
    decreases |b|
  {
    if |b| == 0 {
      assert a + b == a;
    } else {
      assert (a + b)[..|a + b| - 1] == a + b[..|b| - 1];
      SumAppend(a, b[..|b| - 1]);
    }
  }

  lemma {:induction false} SumRotate(s: seq<real>, k: nat)
    requires k <= |s|
    ensures Sum(s[k..] + s[..k]) == Sum(s)
  {
    SumAppend(s[k..], s[..k]);
    SumAppend(s[..k], s[k..]);
    assert s[..k] + s[k..] == s;
  }

  lemma {:induction false} SumNegate(s: seq<real>)
    ensures Sum(Negate(s)) == -Sum(s)
    decreases |s|
  {
    if |s| > 0 {
      assert Negate(s)[..|s| - 1] == Negate(s[..|s| - 1]);
      SumNegate(s[..|s| - 1]);
    }
  }

  /** Reading the elements back to front does not change the sum. */
  lemma {:induction false} SumReversed(s: seq<real>, r: seq<real>)
    requires |r| == |s|
    requires forall i :: 0 <= i < |s| ==> r[i] == s[|s| - 1 - i]
    ensures Sum(r) == Sum(s)
    decreases |s|
  {
    if |s| > 0 {
      var n := |s|;
      // r == [s[n-1]] + (the reversal of s[..n-1])
      SumReversed(s[..n - 1], r[1..]);
      SumAppend([r[0]], r[1..]);
      assert [r[0]] + r[1..] == r;
      assert Sum([r[0]]) == r[0] by {
        assert [r[0]][..0] == [];
      }
    }
  }

  /** Every element below `bound` keeps the sum below `|s| * bound`. */
  lemma {:induction false} SumBelow(s: seq<real>, bound: real)
    requires |s| > 0
    requires forall i :: 0 <= i < |s| ==> s[i] < bound
    ensures Sum(s) < |s| as real * bound
    decreases |s|
  {
    if |s| > 1 {
      SumBelow(s[..|s| - 1], bound);
    } else {
      assert s[..0] == [];
    }
  }

  /** Every element above `bound` keeps the sum above `|s| * bound`. */
  lemma {:induction false} SumAbove(s: seq<real>, bound: real)
    requires |s| > 0
    requires forall i :: 0 <= i < |s| ==> bound < s[i]
    ensures |s| as real * bound < Sum(s)
    decreases |s|
  {
    if |s| > 1 {
      SumAbove(s[..|s| - 1], bound);
    } else {
      assert s[..0] == [];
    }
  }

  /** A sum of zeros is zero. */
  lemma {:induction false} SumZeros(s: seq<real>)
    requires forall i :: 0 <= i < |s| ==> s[i] == 0.0
    ensures Sum(s) == 0.0
    decreases |s|
  {
    if |s| > 0 {
      SumZeros(s[..|s| - 1]);
    }
  }
}
