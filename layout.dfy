/** Flat, dimension-0-fastest addressing of a dense tensor.

    A shape is the list of extents, dimension 0 first. The flat buffer of a
    tensor holds Product(shape) elements, and the coordinate c lives at
    offset c[0]*stride(0) + c[1]*stride(1) + ..., where stride(k) is the
    product of the extents strictly before k: dimension 0 is the contiguous,
    fastest-varying axis.
 */
module Layout {

  datatype Option<T> = None | Some(value: T)

  /** The product of all extents, as a left fold starting from 1; the empty
      product is 1. */
  function Product(shape: seq<nat>): nat
  {
    if shape == [] then 1 else Product(shape[..|shape| - 1]) * shape[|shape| - 1]
  }

  /** Product of a shape extended by one extent. */
  lemma ProductSnoc(shape: seq<nat>, n: nat)
    requires n < |shape|
    ensures Product(shape[..n + 1]) == Product(shape[..n]) * shape[n]
  {
    assert shape[..n + 1][..n] == shape[..n];
  }

  /** The buffer of a shape is empty exactly when some extent is zero. */
  lemma {:induction false} ProductZeroIff(shape: seq<nat>)
    ensures Product(shape) == 0 <==> exists k :: 0 <= k < |shape| && shape[k] == 0
  {
    if shape != [] {
      var last := |shape| - 1;
      var init := shape[..last];
      ProductZeroIff(init);
      assert Product(shape) == Product(init) * shape[last];
      if Product(shape) == 0 {
        if shape[last] != 0 {
          assert Product(init) == 0;
          var k :| 0 <= k < |init| && init[k] == 0;
          assert shape[k] == 0;
        }
      } else {
        forall k | 0 <= k < |shape| ensures shape[k] != 0 {
          if k < last {
            assert init[k] == shape[k];
          }
        }
      }
    }
  }

  /** The stride of dimension k: the product of the extents before k. */
  function Stride(shape: seq<nat>, k: nat): nat
    requires k <= |shape|
  {
    Product(shape[..k])
  }

  /** The reference definition of the offset of coordinate c:
      the sum over k of c[k] * Stride(shape, k). */
  function StridedSum(shape: seq<nat>, c: seq<nat>): nat
    requires |c| <= |shape| + 1
  {
    if c == [] then 0
    else StridedSum(shape, c[..|c| - 1]) + c[|c| - 1] * Stride(shape, |c| - 1)
  }

  /** The fold that computes the offset, one coordinate at a time: `sum` is
      the offset so far and `fac` the last stride used. At position pos > 0
      the stride grows by the extent of dimension pos - 1, so the fold reads
      shape[pos - 1] and never the last extent. */
  function OffsetFold(shape: seq<nat>, ti: seq<nat>, pos: nat, sum: nat, fac: nat): (nat, nat)
    requires pos <= |ti| <= |shape| + 1
    decreases |ti| - pos
  {
    if pos == |ti| then (sum, fac)
    else
      var nextFac := if pos > 0 then fac * shape[pos - 1] else fac;
      OffsetFold(shape, ti, pos + 1, sum + ti[pos] * nextFac, nextFac)
  }

  /** The flat offset of the coordinate ti, as the fold computes it from (0, 1). */
  function Offset(shape: seq<nat>, ti: seq<nat>): nat
    requires |ti| <= |shape| + 1
  {
    OffsetFold(shape, ti, 0, 0, 1).0
  }

  /** Each step of the fold keeps `sum` equal to the strided sum of the
      coordinates seen so far and `fac` equal to the stride last applied. */
  lemma {:induction false} OffsetFoldIsStridedSum(shape: seq<nat>, ti: seq<nat>, pos: nat, sum: nat, fac: nat)
    requires pos <= |ti| <= |shape| + 1
    requires sum == StridedSum(shape, ti[..pos])
    requires fac == Stride(shape, if pos == 0 then 0 else pos - 1)
    ensures OffsetFold(shape, ti, pos, sum, fac).0 == StridedSum(shape, ti)
    decreases |ti| - pos
  {
    if pos == |ti| {
      assert ti[..pos] == ti;
    } else {
      var nextFac := if pos > 0 then fac * shape[pos - 1] else fac;
      if pos > 0 {
        ProductSnoc(shape, pos - 1);
      }
      assert nextFac == Stride(shape, pos);
      assert ti[..pos + 1][..pos] == ti[..pos];
      assert StridedSum(shape, ti[..pos + 1]) == sum + ti[pos] * nextFac;
      OffsetFoldIsStridedSum(shape, ti, pos + 1, sum + ti[pos] * nextFac, nextFac);
    }
  }

  /** The offset the fold computes is the strided sum: dimension 0 has
      stride 1 and dimension k the product of the extents before it. */
  lemma OffsetIsStridedSum(shape: seq<nat>, ti: seq<nat>)
    requires |ti| <= |shape| + 1
    ensures Offset(shape, ti) == StridedSum(shape, ti)
  {
    assert ti[..0] == [];
    OffsetFoldIsStridedSum(shape, ti, 0, 0, 1);
  }

  /** A coordinate within every extent addresses a position inside the
      first Product(shape[..n]) elements, counted on its first n entries. */
  lemma {:induction false} StridedSumPrefixBelow(shape: seq<nat>, c: seq<nat>, n: nat)
    requires |c| == |shape|
    requires forall k :: 0 <= k < |c| ==> c[k] < shape[k]
    requires n <= |c|
    ensures StridedSum(shape, c[..n]) < Product(shape[..n])
  {
    if n == 0 {
      assert c[..0] == [];
      assert shape[..0] == [];
    } else {
      var m := n - 1;
      StridedSumPrefixBelow(shape, c, m);
      assert c[..n][..m] == c[..m];
      var s := StridedSum(shape, c[..m]);
      var p := Product(shape[..m]);
      ProductSnoc(shape, m);
      assert StridedSum(shape, c[..n]) == s + c[m] * p;
      DigitBound(s, c[m], p, shape[m]);
    }
  }

  /** One more digit of a mixed-radix number: a value below p plus a digit
      below e times p stays below e * p. */
  lemma DigitBound(s: nat, d: nat, p: nat, e: nat)
    requires s < p && d < e
    ensures s + d * p < e * p
  {
    assert (d + 1) * p == d * p + p;
    assert (d + 1) * p <= e * p by {
      var g := e - (d + 1);
      assert e * p == (d + 1) * p + g * p;
    }
  }

  /** The coordinate-to-offset mapping stays inside the buffer: for a
      coordinate of the shape's rank with every entry below its extent, the
      offset is below Product(shape). */
  lemma OffsetInBounds(shape: seq<nat>, c: seq<nat>)
    requires |c| == |shape|
    requires forall k :: 0 <= k < |c| ==> c[k] < shape[k]
    ensures Offset(shape, c) < Product(shape)
  {
    OffsetIsStridedSum(shape, c);
    StridedSumPrefixBelow(shape, c, |c|);
    assert c[..|c|] == c;
    assert shape[..|shape|] == shape;
  }

  /** n copies of v: the diagonal coordinate [v, ..., v] and the uniform shape [v, ..., v]. */
  function Repeat(v: nat, n: nat): (r: seq<nat>)
    ensures |r| == n
    ensures forall k :: 0 <= k < n ==> r[k] == v
  {
    seq(n, _ => v)
  }

  /** The largest extent of a shape, or None for the empty shape. */
  function MaxExtent(shape: seq<nat>): (r: Option<nat>)
    ensures r.None? <==> shape == []
    ensures r.Some? ==> r.value in shape
    ensures r.Some? ==> forall k :: 0 <= k < |shape| ==> shape[k] <= r.value
  {
    if shape == [] then None
    else
      match MaxExtent(shape[1..])
      case None => Some(shape[0])
      case Some(m) => Some(if shape[0] <= m then m else shape[0])
  }
}
