/** Dimension lists: the per-level sizes of a uniform nesting, outermost level first. */
module Dimensions {

  /** Number of leaves of a uniform nesting whose levels have these sizes. */
  function Product(dims: seq<nat>): nat
    decreases |dims|
  {
    if dims == [] then 1 else dims[0] * Product(dims[1..])
  }

  /** Every level has at least one element. */
  predicate Positive(dims: seq<nat>) {
    forall i :: 0 <= i < |dims| ==> dims[i] > 0
  }

  /** Nesting `outer` around `inner` multiplies the leaf counts. */
  lemma {:induction false} ProductAppend(outer: seq<nat>, inner: seq<nat>)
    ensures Product(outer + inner) == Product(outer) * Product(inner)
    decreases |outer|
  {
    if outer == [] {
      assert outer + inner == inner;
    } else {
      assert (outer + inner)[1..] == outer[1..] + inner;
      ProductAppend(outer[1..], inner);
      calc {
        Product(outer + inner);
        outer[0] * Product(outer[1..] + inner);
        outer[0] * (Product(outer[1..]) * Product(inner));
        (outer[0] * Product(outer[1..])) * Product(inner);
      }
    }
  }

  /** Dropping the outermost level keeps every level non-empty. */
  lemma PositiveTail(dims: seq<nat>)
    requires dims != [] && Positive(dims)
    ensures Positive(dims[1..])
  {
    forall i | 0 <= i < |dims[1..]| ensures dims[1..][i] > 0 {
      assert dims[1..][i] == dims[i + 1];
    }
  }

  /** Block `i` of `d` blocks of `stride` leaves each lies inside the whole. */
  lemma BlockFits(i: nat, d: nat, stride: nat)
    requires i < d
    ensures i * stride + stride <= d * stride
  {
    assert i * stride + stride == (i + 1) * stride;
    assert (i + 1) * stride <= d * stride by {
      assert d * stride - (i + 1) * stride == (d - (i + 1)) * stride;
    }
  }
}
