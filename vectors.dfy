/** src/gmath/vector.rs: a vector over exact `real` elements in place of the type
    parameter, with its element-wise operations. A length or zero check that would panic
    returns an `Err` instead. */
module Vectors {
  import opened Panics

  /** `Vector { data }`. */
  datatype Vector = Vector(data: seq<real>)

  // ---------------------------------------------------------------------------
  // Construction and access

  function New(data: seq<real>): Vector {
    Vector(data)
  }

  /** `from_slice` copies the slice into a new vector. */
  function FromSlice(slice: seq<real>): Vector {
    Vector(slice)
  }

  /** `to_vec` clones the elements; `to_slice` borrows them. */
  function ToVec(v: Vector): seq<real> {
    v.data
  }

  function ToSlice(v: Vector): seq<real> {
    v.data
  }

  function Size(v: Vector): nat {
    |v.data|
  }

  /** Converting to and from plain sequences loses nothing, and the size is the number of
      elements. */
  lemma RoundTrips(s: seq<real>, v: Vector)
    ensures ToVec(FromSlice(s)) == s && ToVec(New(s)) == s
    ensures Size(FromSlice(s)) == |s| && Size(New(s)) == |s|
    ensures FromSlice(ToSlice(v)) == v && New(ToVec(v)) == v
  {
  }

  // ---------------------------------------------------------------------------
  // Specifications of the operations

  /** Σ a[i]·b[i], accumulated from zero, first index first. */
  function DotSum(a: seq<real>, b: seq<real>): real
    requires |a| == |b|
  {
    if |a| == 0 then 0.0
    else DotSum(a[..|a| - 1], b[..|b| - 1]) + a[|a| - 1] * b[|b| - 1]
  }

  function DotSpec(u: Vector, v: Vector): Result<real> {
    if |u.data| != |v.data| then Err(LengthMismatch) else Ok(DotSum(u.data, v.data))
  }

  function Scale(s: seq<real>, c: real): seq<real> {
    seq(|s|, i requires 0 <= i < |s| => s[i] * c)
  }

  function MulSpec(v: Vector, c: real): Vector {
    Vector(Scale(v.data, c))
  }

  function Divide(s: seq<real>, c: real): seq<real>
    requires c != 0.0
  {
    seq(|s|, i requires 0 <= i < |s| => s[i] / c)
  }

  function DivSpec(v: Vector, c: real): Result<Vector> {
    if c == 0.0 then Err(DivisionByZero) else Ok(Vector(Divide(v.data, c)))
  }

  function Plus(a: seq<real>, b: seq<real>): seq<real>
    requires |a| == |b|
  {
    seq(|a|, i requires 0 <= i < |a| => a[i] + b[i])
  }

  function Minus(a: seq<real>, b: seq<real>): seq<real>
    requires |a| == |b|
  {
    seq(|a|, i requires 0 <= i < |a| => a[i] - b[i])
  }

  function AddSpec(u: Vector, v: Vector): Result<Vector> {
    if |u.data| != |v.data| then Err(LengthMismatch) else Ok(Vector(Plus(u.data, v.data)))
  }

  function SubSpec(u: Vector, v: Vector): Result<Vector> {
    if |u.data| != |v.data| then Err(LengthMismatch) else Ok(Vector(Minus(u.data, v.data)))
  }

  // ---------------------------------------------------------------------------
  // The operations, as the loops of the source

  /** `dot`: panics on a length mismatch, else accumulates the products pairwise. */
  method Dot(u: Vector, v: Vector) returns (r: Result<real>)
    ensures r.Err? <==> |u.data| != |v.data|
    ensures r.Err? ==> r.failure == LengthMismatch
    ensures r == DotSpec(u, v)
  {
    if |u.data| != |v.data| {
      return Err(LengthMismatch);
    }
    var result := 0.0;
    for i := 0 to |u.data|
      invariant result == DotSum(u.data[..i], v.data[..i])
    {
      assert u.data[..i + 1][..i] == u.data[..i];
      assert v.data[..i + 1][..i] == v.data[..i];
      result := result + u.data[i] * v.data[i];
    }
    assert u.data[..|u.data|] == u.data;
    assert v.data[..|v.data|] == v.data;
    return Ok(result);
  }

  /** `mul`: a copy of the data with every element multiplied by the scalar. */
  method Mul(v: Vector, c: real) returns (w: Vector)
    ensures |w.data| == |v.data|
    ensures forall i :: 0 <= i < |v.data| ==> w.data[i] == v.data[i] * c
    ensures w == MulSpec(v, c)
  {
    var result := new real[|v.data|](i requires 0 <= i < |v.data| => v.data[i]);
    for i := 0 to result.Length
      invariant forall k :: 0 <= k < i ==> result[k] == v.data[k] * c
      invariant forall k :: i <= k < result.Length ==> result[k] == v.data[k]
    {
      result[i] := result[i] * c;
    }
    forall k | 0 <= k < result.Length
      ensures result[k] == Scale(v.data, c)[k]
    {
    }
    assert result[..] == Scale(v.data, c);
    w := Vector(result[..]);
  }

  /** `div`: panics when the scalar is zero, else divides every element by it. */
  method Div(v: Vector, c: real) returns (r: Result<Vector>)
    ensures r.Err? <==> c == 0.0
    ensures r.Err? ==> r.failure == DivisionByZero
    ensures r.Ok? ==> |r.value.data| == |v.data| && forall i :: 0 <= i < |v.data| ==> r.value.data[i] == v.data[i] / c
    ensures r == DivSpec(v, c)
  {
    if c == 0.0 {
      return Err(DivisionByZero);
    }
    var result := new real[|v.data|](i requires 0 <= i < |v.data| => v.data[i]);
    for i := 0 to result.Length
      invariant forall k :: 0 <= k < i ==> result[k] == v.data[k] / c
      invariant forall k :: i <= k < result.Length ==> result[k] == v.data[k]
    {
      result[i] := result[i] / c;
    }
    assert result[..] == DivSpec(v, c).value.data;
    return Ok(Vector(result[..]));
  }

  /** `+`: panics on a length mismatch, else adds the other vector into a copy of this one. */
  method Add(u: Vector, v: Vector) returns (r: Result<Vector>)
    ensures r.Err? <==> |u.data| != |v.data|
    ensures r.Err? ==> r.failure == LengthMismatch
    ensures r.Ok? ==> |r.value.data| == |u.data| && forall i :: 0 <= i < |u.data| ==> r.value.data[i] == u.data[i] + v.data[i]
    ensures r == AddSpec(u, v)
  {
    if |u.data| != |v.data| {
      return Err(LengthMismatch);
    }
    var result := new real[|u.data|](i requires 0 <= i < |u.data| => u.data[i]);
    for i := 0 to |v.data|
      invariant forall k :: 0 <= k < i ==> result[k] == u.data[k] + v.data[k]
      invariant forall k :: i <= k < result.Length ==> result[k] == u.data[k]
    {
      result[i] := result[i] + v.data[i];
    }
    assert result[..] == AddSpec(u, v).value.data;
    return Ok(Vector(result[..]));
  }

  /** `-`: as `+`, subtracting. */
  method Sub(u: Vector, v: Vector) returns (r: Result<Vector>)
    ensures r.Err? <==> |u.data| != |v.data|
    ensures r.Err? ==> r.failure == LengthMismatch
    ensures r.Ok? ==> |r.value.data| == |u.data| && forall i :: 0 <= i < |u.data| ==> r.value.data[i] == u.data[i] - v.data[i]
    ensures r == SubSpec(u, v)
  {
    if |u.data| != |v.data| {
      return Err(LengthMismatch);
    }
    var result := new real[|u.data|](i requires 0 <= i < |u.data| => u.data[i]);
    for i := 0 to |v.data|
      invariant forall k :: 0 <= k < i ==> result[k] == u.data[k] - v.data[k]
      invariant forall k :: i <= k < result.Length ==> result[k] == u.data[k]
    {
      result[i] := result[i] - v.data[i];
    }
    assert result[..] == SubSpec(u, v).value.data;
    return Ok(Vector(result[..]));
  }

  // ---------------------------------------------------------------------------
  // Algebraic laws

  /** The dot product is symmetric, including its failure. */
  lemma {:induction false} DotSymmetric(u: Vector, v: Vector)
    ensures DotSpec(u, v) == DotSpec(v, u)
  {
    if |u.data| == |v.data| {
      DotSumSymmetric(u.data, v.data);
    }
  }

  lemma {:induction false} DotSumSymmetric(a: seq<real>, b: seq<real>)
    requires |a| == |b|
    ensures DotSum(a, b) == DotSum(b, a)
  {
    if |a| > 0 {
      DotSumSymmetric(a[..|a| - 1], b[..|b| - 1]);
    }
  }

  /** The dot product distributes over vector addition. */
  lemma DotAdditive(u: Vector, v: Vector, w: Vector)
    requires |u.data| == |v.data| == |w.data|
    ensures AddSpec(u, v).Ok?
    ensures DotSpec(AddSpec(u, v).value, w) == Ok(DotSum(u.data, w.data) + DotSum(v.data, w.data))
  {
    DotSumAdditive(u.data, v.data, w.data);
  }

  lemma {:induction false} DotSumAdditive(a: seq<real>, b: seq<real>, c: seq<real>)
    requires |a| == |b| == |c|
    ensures DotSum(Plus(a, b), c) == DotSum(a, c) + DotSum(b, c)
  {
    if |a| > 0 {
      var n := |a| - 1;
      DotSumAdditive(a[..n], b[..n], c[..n]);
      assert Plus(a, b)[..n] == Plus(a[..n], b[..n]);
      Distribute(a[n], b[n], c[n]);
    }
  }

  lemma Distribute(x: real, y: real, z: real)
    ensures (x + y) * z == x * z + y * z
  {
  }

  /** Scaling one side scales the dot product. */
  lemma DotHomogeneous(u: Vector, v: Vector, c: real)
    requires |u.data| == |v.data|
    ensures DotSpec(MulSpec(u, c), v) == Ok(c * DotSum(u.data, v.data))
  {
    DotSumHomogeneous(u.data, v.data, c);
  }

  lemma {:induction false} DotSumHomogeneous(a: seq<real>, b: seq<real>, c: real)
    requires |a| == |b|
    ensures DotSum(Scale(a, c), b) == c * DotSum(a, b)
  {
    if |a| > 0 {
      var n := |a| - 1;
      DotSumHomogeneous(a[..n], b[..n], c);
      forall k | 0 <= k < n
        ensures Scale(a, c)[..n][k] == Scale(a[..n], c)[k]
      {
      }
      assert Scale(a, c)[..n] == Scale(a[..n], c);
      ScaleStep(DotSum(a[..n], b[..n]), a[n], b[n], c);
    }
  }

  lemma ScaleStep(total: real, x: real, y: real, c: real)
    ensures c * total + (x * c) * y == c * (total + x * y)
  {
  }

  /** Dividing by a nonzero scalar undoes multiplying by it. */
  lemma {:induction false} DivUndoesMul(v: Vector, c: real)
    requires c != 0.0
    ensures DivSpec(MulSpec(v, c), c) == Ok(v)
  {
    var w := DivSpec(MulSpec(v, c), c).value;
    forall i | 0 <= i < |v.data|
      ensures w.data[i] == v.data[i]
    {
      Cancel(v.data[i], c);
    }
    assert w.data == v.data;
  }

  lemma Cancel(x: real, c: real)
    requires c != 0.0
    ensures (x * c) / c == x
  {
  }

  /** Subtracting what was added gives back the original vector. */
  lemma SubUndoesAdd(u: Vector, v: Vector)
    requires |u.data| == |v.data|
    ensures AddSpec(u, v).Ok? && SubSpec(AddSpec(u, v).value, v) == Ok(u)
  {
    assert Minus(Plus(u.data, v.data), v.data) == u.data;
  }

  /** Addition commutes, including its failure. */
  lemma AddCommutative(u: Vector, v: Vector)
    ensures AddSpec(u, v) == AddSpec(v, u)
  {
    if |u.data| == |v.data| {
      assert Plus(u.data, v.data) == Plus(v.data, u.data);
    }
  }
}
