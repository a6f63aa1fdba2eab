/** Which shapes the identity-like tensor can be built for, and what its
    buffer holds: exactly the shapes of positive rank whose extents are all
    equal, and for such a shape [n, ..., n] of rank r the element at flat
    position j is `one` when j is a multiple of 1 + n + ... + n^(r-1) and
    `zero` otherwise. */
module EyeShapes {
  import opened Layout
  import opened Tensors

  /** Every extent equals the first one. */
  predicate Uniform(shape: seq<nat>)
  {
    forall k :: 0 <= k < |shape| ==> shape[k] == shape[0]
  }

  function Pow(n: nat, r: nat): nat
  {
    if r == 0 then 1 else Pow(n, r - 1) * n
  }

  /** 1 + n + ... + n^(r-1): the sum of the strides of the shape [n, ..., n]
      of rank r, so the distance between consecutive diagonal positions. */
  function DiagonalStep(n: nat, r: nat): nat
  {
    if r == 0 then 0 else DiagonalStep(n, r - 1) + Pow(n, r - 1)
  }

  // ---------------------------------------------------------------------
  // Arithmetic helpers

  /** The quotient and remainder of a = g * q + t with 0 <= t < g. */
  lemma DivModUnique(a: nat, g: nat, q: nat, t: nat)
    requires 0 <= t < g && a == g * q + t
    ensures a / g == q && a % g == t
  {
    var q', t' := a / g, a % g;
    var d: int := q - q';
    assert g * q == g * q' + g * d;
    assert g * d == t' - t;
    if d >= 1 {
      MulAtLeast(g, d);
    } else if d <= -1 {
      MulAtLeast(g, -d);
    }
  }

  lemma MulAtLeast(g: nat, d: int)
    requires d >= 1
    ensures g * d >= g
  {
    assert g * d == g + g * (d - 1);
  }

  /** One more step of the last diagonal coordinate [m-1, ..., m-1]
      against one more extent e <= m. */
  lemma GapStep(s: nat, p: nat, m: nat, e: nat)
    requires 1 <= m && e <= m && s + 1 >= p
    ensures s + (m - 1) * p + 1 >= p * e
    ensures s >= p || e < m ==> s + (m - 1) * p >= p * e
  {
    assert p * m == p + (m - 1) * p;
    assert p * e <= p * m by {
      assert p * m == p * e + p * (m - e);
    }
    if e < m {
      assert p * e <= (m - 1) * p by {
        assert (m - 1) * p == p * e + p * (m - 1 - e);
      }
    }
  }

  // ---------------------------------------------------------------------
  // Which shapes eye accepts

  /** The last diagonal coordinate [m-1, ..., m-1], taken over the first n
      dimensions of a shape with no extent above m, has a strided sum of at
      least Product(shape[..n]) - 1, and of at least Product(shape[..n]) once
      one of those extents is below m. */
  lemma {:induction false} LastDiagonalReach(shape: seq<nat>, m: nat, n: nat)
    requires 1 <= m
    requires forall k :: 0 <= k < |shape| ==> shape[k] <= m
    requires n <= |shape|
    ensures StridedSum(shape, Repeat(m - 1, n)) + 1 >= Product(shape[..n])
    ensures (exists k :: 0 <= k < n && shape[k] < m) ==>
              StridedSum(shape, Repeat(m - 1, n)) >= Product(shape[..n])
  {
    if n == 0 {
      assert shape[..0] == [];
    } else {
      var last := n - 1;
      LastDiagonalReach(shape, m, last);
      var c := Repeat(m - 1, n);
      assert c[..last] == Repeat(m - 1, last);
      var s := StridedSum(shape, Repeat(m - 1, last));
      var p := Product(shape[..last]);
      assert StridedSum(shape, c) == s + (m - 1) * p;
      ProductSnoc(shape, last);
      GapStep(s, p, m, shape[last]);
      if exists k :: 0 <= k < n && shape[k] < m {
        var k :| 0 <= k < n && shape[k] < m;
        if k < last {
          assert s >= p;
        }
      }
    }
  }

  /** The identity-like tensor can be built exactly for the shapes of
      positive rank whose extents are all equal (all zero included). Any
      other shape either has no maximum (rank 0) or sends the diagonal
      coordinate of its largest extent past the end of the buffer. */
  lemma EyeDefinedIffUniform(shape: seq<nat>)
    ensures EyeDefined(shape) <==> |shape| > 0 && Uniform(shape)
  {
    if |shape| > 0 {
      var m := MaxExtent(shape).value;
      var r := |shape|;
      if Uniform(shape) {
        assert m == shape[0];
        forall i | 0 <= i < m ensures DiagOffset(shape, i) < Product(shape) {
          OffsetInBounds(shape, Repeat(i, r));
        }
      } else {
        var k :| 0 <= k < r && shape[k] != shape[0];
        assert shape[k] < m || shape[0] < m;
        LastDiagonalReach(shape, m, r);
        assert shape[..r] == shape;
        OffsetIsStridedSum(shape, Repeat(m - 1, r));
        assert DiagOffset(shape, m - 1) >= Product(shape);
      }
    }
  }

  /** The concrete shapes [2, 3] and [0, 3] cannot be given an identity. */
  lemma EyeRejectsMixedExtents()
    ensures !EyeDefined([2, 3]) && !EyeDefined([0, 3])
  {
    EyeDefinedIffUniform([2, 3]);
    EyeDefinedIffUniform([0, 3]);
  }

  // ---------------------------------------------------------------------
  // The buffer of eye on a uniform shape

  lemma {:induction false} ProductRepeat(n: nat, r: nat)
    ensures Product(Repeat(n, r)) == Pow(n, r)
  {
    if r > 0 {
      ProductRepeat(n, r - 1);
      assert Repeat(n, r)[..r - 1] == Repeat(n, r - 1);
    }
  }

  /** On the shape [n, ..., n] of rank r, the first q entries of the
      diagonal coordinate [i, ..., i] contribute i * (1 + n + ... + n^(q-1)). */
  lemma {:induction false} UniformStridedSum(n: nat, r: nat, i: nat, q: nat)
    requires q <= r
    ensures StridedSum(Repeat(n, r), Repeat(i, q)) == i * DiagonalStep(n, q)
  {
    if q > 0 {
      UniformStridedSum(n, r, i, q - 1);
      assert Repeat(i, q)[..q - 1] == Repeat(i, q - 1);
      assert Repeat(n, r)[..q - 1] == Repeat(n, q - 1);
      ProductRepeat(n, q - 1);
      assert Stride(Repeat(n, r), q - 1) == Pow(n, q - 1);
      assert i * DiagonalStep(n, q) == i * DiagonalStep(n, q - 1) + i * Pow(n, q - 1);
    }
  }

  /** On the shape [n, ..., n] of rank r the i-th diagonal coordinate lies
      at offset i * (1 + n + ... + n^(r-1)). */
  lemma DiagOffsetUniform(n: nat, r: nat, i: nat)
    ensures DiagOffset(Repeat(n, r), i) == i * DiagonalStep(n, r)
  {
    OffsetIsStridedSum(Repeat(n, r), Repeat(i, r));
    UniformStridedSum(n, r, i, r);
  }

  /** For positive rank the diagonal step is at least 1 and at least the
      last stride n^(r-1). */
  lemma {:induction false} DiagonalStepBounds(n: nat, r: nat)
    requires r >= 1
    ensures DiagonalStep(n, r) >= 1
    ensures DiagonalStep(n, r) >= Pow(n, r - 1)
    ensures DiagonalStep(n, r) * n >= Pow(n, r)
  {
    if r > 1 {
      DiagonalStepBounds(n, r - 1);
    }
    var g := DiagonalStep(n, r);
    assert g * n == Pow(n, r - 1) * n + (g - Pow(n, r - 1)) * n;
  }

  /** A multiple of g below g * n is one of the first n multiples. */
  lemma MultipleBelow(j: nat, g: nat, n: nat)
    requires g >= 1 && j % g == 0 && j < g * n
    ensures j / g < n
  {
    assert j == g * (j / g);
  }

  /** After the first w diagonal writes on the zero-filled buffer of the
      shape [n, ..., n], position j holds one exactly when j is the w'-th
      multiple of the diagonal step for some w' < w. */
  lemma {:induction false} UniformWritesAt<T>(n: nat, r: nat, w: nat, num: TensorNumber<T>, j: nat)
    requires r >= 1 && w <= n
    requires forall i :: 0 <= i < n ==> DiagOffset(Repeat(n, r), i) < Product(Repeat(n, r))
    requires j < Product(Repeat(n, r))
    ensures var g := DiagonalStep(n, r);
            g >= 1 &&
            DiagonalWrites(Repeat(n, r), FillData(Repeat(n, r), num.zero), w, num.one)[j]
              == if j % g == 0 && j / g < w then num.one else num.zero
  {
    var g := DiagonalStep(n, r);
    DiagonalStepBounds(n, r);
    if w > 0 {
      var shape := Repeat(n, r);
      var zeros := FillData(shape, num.zero);
      UniformWritesAt(n, r, w - 1, num, j);
      DiagOffsetUniform(n, r, w - 1);
      var prev := DiagonalWrites(shape, zeros, w - 1, num.one);
      assert DiagonalWrites(shape, zeros, w, num.one) == prev[(w - 1) * g := num.one];
      NextMultiple(j, g, w - 1);
    }
  }

  /** Position j is among the first q + 1 multiples of g exactly when it is
      among the first q or it is the q-th one. */
  lemma NextMultiple(j: nat, g: nat, q: nat)
    requires g >= 1
    ensures (j % g == 0 && j / g < q + 1) <==> (j % g == 0 && j / g < q) || j == q * g
  {
    if j == q * g {
      DivModUnique(j, g, q, 0);
    } else if j % g == 0 {
      assert j == g * (j / g);
    }
  }

  /** The identity-like tensor of the shape [n, ..., n] of rank r >= 1
      exists, has n^r elements, and holds one at the multiples of
      1 + n + ... + n^(r-1) (the offsets of [i, ..., i] for i < n) and zero
      everywhere else. */
  lemma EyeUniform<T>(n: nat, r: nat, num: TensorNumber<T>)
    requires r >= 1
    ensures EyeDefined(Repeat(n, r))
    ensures |EyeData(Repeat(n, r), num)| == Pow(n, r)
    ensures forall j :: 0 <= j < |EyeData(Repeat(n, r), num)| ==>
              EyeData(Repeat(n, r), num)[j]
                == if j % DiagonalStep(n, r) == 0 then num.one else num.zero
  {
    var shape := Repeat(n, r);
    var g := DiagonalStep(n, r);
    EyeDefinedIffUniform(shape);
    ProductRepeat(n, r);
    assert MaxExtent(shape).value == n;
    var data := EyeData(shape, num);
    forall j | 0 <= j < |data| ensures data[j] == if j % g == 0 then num.one else num.zero {
      UniformWritesAt(n, r, n, num, j);
      if j % g == 0 {
        DiagonalStepBounds(n, r);
        MultipleBelow(j, g, n);
      }
    }
  }

  /** Rank 1: every position of eye([n]) is on the diagonal. */
  lemma EyeVector<T>(n: nat, num: TensorNumber<T>)
    ensures EyeDefined([n])
    ensures EyeData([n], num) == seq(n, _ => num.one)
  {
    assert Repeat(n, 1) == [n];
    EyeUniform(n, 1, num);
    assert DiagonalStep(n, 1) == 1;
  }

  /** On the shape [n, n] the cell (row, col) lies at offset row + col * n. */
  lemma MatrixOffset(n: nat, row: nat, col: nat)
    ensures Offset([n, n], [row, col]) == row + col * n
  {
    OffsetIsStridedSum([n, n], [row, col]);
    assert [row, col][..1] == [row];
    assert [row][..0] == [];
    assert [n, n][..1] == [n];
    assert [n, n][..0] == [];
    assert StridedSum([n, n], [row]) == row;
    assert Stride([n, n], 1) == n;
  }

  /** In an n-by-n matrix the offset row + col * n of a cell is inside the
      n * n buffer. */
  lemma MatrixCellInside(n: nat, row: nat, col: nat)
    requires row < n && col < n
    ensures row + col * n < n * n
  {
    var m := n - 1;
    var k := m - col;
    assert n * n == m * n + n;
    assert m * n == col * n + k * n;
    assert k * n >= 0;
  }

  /** In an n-by-n matrix the offset of the cell (row, col) is a multiple
      of n + 1 exactly on the diagonal. */
  lemma MatrixCellOnDiagonal(n: nat, row: nat, col: nat)
    requires row < n && col < n
    ensures (row + col * n) % (n + 1) == 0 <==> row == col
  {
    var j := row + col * n;
    var g := n + 1;
    if row == col {
      assert j == g * col;
      DivModUnique(j, g, col, 0);
    } else if row > col {
      assert j == g * col + (row - col);
      DivModUnique(j, g, col, row - col);
    } else {
      var q := col - 1;
      assert j == g * q + (g + row - col) by {
        assert g * col == g * q + g;
      }
      DivModUnique(j, g, q, g + row - col);
    }
  }

  /** Rank 2: eye([n, n]) has n * n elements, and the element of row r and
      column c, at offset r + c * n, is one exactly on the diagonal r == c. */
  lemma EyeMatrix<T>(n: nat, num: TensorNumber<T>)
    ensures EyeDefined([n, n])
    ensures |EyeData([n, n], num)| == n * n
    ensures forall row, col :: 0 <= row < n && 0 <= col < n ==>
              Offset([n, n], [row, col]) == row + col * n &&
              Offset([n, n], [row, col]) < n * n &&
              EyeData([n, n], num)[Offset([n, n], [row, col])]
                == if row == col then num.one else num.zero
  {
    assert Repeat(n, 2) == [n, n];
    EyeUniform(n, 2, num);
    assert Pow(n, 1) == n;
    assert Pow(n, 2) == n * n;
    assert DiagonalStep(n, 1) == 1;
    assert DiagonalStep(n, 2) == n + 1;
    var data := EyeData([n, n], num);
    forall row, col | 0 <= row < n && 0 <= col < n
      ensures Offset([n, n], [row, col]) == row + col * n
      ensures row + col * n < n * n
      ensures data[row + col * n] == if row == col then num.one else num.zero
    {
      MatrixOffset(n, row, col);
      MatrixCellInside(n, row, col);
      MatrixCellOnDiagonal(n, row, col);
    }
  }
}
