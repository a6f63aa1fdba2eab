/** The tensor itself: a flat buffer of elements plus its shape, built
    either by filling every position with one value or as an identity-like
    tensor with `one` along the generalised diagonal [i, ..., i]. */
module Tensors {
  import opened Layout

  /** The element capability: an additive and a multiplicative identity. */
  datatype TensorNumber<T> = TensorNumber(zero: T, one: T)

  datatype Result<T, E> = Ok(value: T) | Err(error: E)

  /** Why building an identity-like tensor fails: the shape has no extent to
      take the maximum of, or the diagonal coordinate [index, ..., index]
      addresses a position past the end of the buffer. */
  datatype EyeError = EmptyShape | OutOfBounds(index: nat)

  /** The buffer of a filled tensor: Product(shape) copies of value. */
  function FillData<T>(shape: seq<nat>, value: T): (r: seq<T>)
    ensures |r| == Product(shape)
    ensures forall j :: 0 <= j < |r| ==> r[j] == value
  {
    seq(Product(shape), _ => value)
  }

  /** The offset of the i-th diagonal coordinate [i, ..., i]. */
  function DiagOffset(shape: seq<nat>, i: nat): nat
  {
    Offset(shape, Repeat(i, |shape|))
  }

  /** The identity-like tensor can be built: the shape has a largest extent
      m, and every diagonal coordinate [i, ..., i] with i < m addresses a
      position inside the buffer. */
  predicate EyeDefined(shape: seq<nat>)
  {
    match MaxExtent(shape)
    case None => false
    case Some(m) => forall i :: 0 <= i < m ==> DiagOffset(shape, i) < Product(shape)
  }

  /** The buffer after the first n diagonal writes of `one` into data. */
  function DiagonalWrites<T>(shape: seq<nat>, data: seq<T>, n: nat, one: T): (r: seq<T>)
    requires forall i :: 0 <= i < n ==> DiagOffset(shape, i) < |data|
    ensures |r| == |data|
  {
    if n == 0 then data
    else DiagonalWrites(shape, data, n - 1, one)[DiagOffset(shape, n - 1) := one]
  }

  /** The buffer of the identity-like tensor: zero everywhere, then one
      written at each diagonal coordinate [i, ..., i] for i below the
      largest extent. */
  function EyeData<T>(shape: seq<nat>, num: TensorNumber<T>): seq<T>
    requires EyeDefined(shape)
  {
    DiagonalWrites(shape, FillData(shape, num.zero), MaxExtent(shape).value, num.one)
  }

  class Tensor<T> {
    var data: array<T>
    var shape: seq<nat>

    /** The buffer holds exactly one element per coordinate of the shape. */
    ghost predicate Valid()
      reads this
    {
      data.Length == Product(shape)
    }

    /** A tensor of the given shape with every element equal to value. */
    constructor Fill(shape: seq<nat>, value: T)
      ensures Valid() && fresh(data)
      ensures this.shape == shape
      ensures data[..] == FillData(shape, value)
    {
      this.data := new T[Product(shape)](_ => value);
      this.shape := shape;
    }

    /** Writes value at the coordinate ti. The offset is the strided fold;
        when it falls outside the buffer the write is refused (ok is false)
        and nothing changes. */
    method Set(ti: seq<nat>, value: T) returns (ok: bool)
      requires |ti| <= |shape| + 1
      modifies data
      ensures ok <==> Offset(shape, ti) < data.Length
      ensures ok ==> data[..] == old(data[..])[Offset(shape, ti) := value]
      ensures !ok ==> data[..] == old(data[..])
    {
      var idx := Offset(shape, ti);
      ok := idx < data.Length;
      if ok {
        data[idx] := value;
      }
    }

    /** The identity-like tensor of the given shape: zero-filled, then one
        written at [i, ..., i] for every i below the largest extent. It fails
        on the empty shape, and at the first diagonal coordinate whose offset
        is past the end of the buffer. */
    static method Eye(shape: seq<nat>, num: TensorNumber<T>) returns (r: Result<Tensor<T>, EyeError>)
      ensures r.Ok? <==> EyeDefined(shape)
      ensures r.Ok? ==> fresh(r.value) && fresh(r.value.data) && r.value.Valid()
      ensures r.Ok? ==> r.value.shape == shape && r.value.data[..] == EyeData(shape, num)
      ensures r == Err(EmptyShape) <==> shape == []
      ensures r.Err? && r.error.OutOfBounds? ==>
                && MaxExtent(shape).Some?
                && r.error.index < MaxExtent(shape).value
                && DiagOffset(shape, r.error.index) >= Product(shape)
                && forall i :: 0 <= i < r.error.index ==> DiagOffset(shape, i) < Product(shape)
    {
      var tensor := new Tensor.Fill(shape, num.zero);
      var max := MaxExtent(shape);
      if max.None? {
        return Err(EmptyShape);
      }
      var i := 0;
      while i < max.value
        invariant i <= max.value
        invariant fresh(tensor) && fresh(tensor.data)
        invariant tensor.Valid() && tensor.shape == shape
        invariant forall k :: 0 <= k < i ==> DiagOffset(shape, k) < Product(shape)
        invariant tensor.data[..] == DiagonalWrites(shape, FillData(shape, num.zero), i, num.one)
      {
        var ti := Repeat(i, |shape|);
        var ok := tensor.Set(ti, num.one);
        if !ok {
          assert DiagOffset(shape, i) >= Product(shape);
          assert !EyeDefined(shape);
          return Err(OutOfBounds(i));
        }
        i := i + 1;
      }
      assert EyeDefined(shape);
      return Ok(tensor);
    }
  }
}
