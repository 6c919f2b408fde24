/** src/gmath/matrix.rs: a matrix of exact `real` entries kept as a list of rows, with the
    shape recorded at construction and the transpose cached in a field of the object. */
module Matrices {
  import opened Panics

  type Rows = seq<seq<real>>

  /** `shape` as `new` computes it: none for no rows, else (rows, length of row 0). */
  function ShapeOf(data: Rows): Option<(nat, nat)> {
    if |data| == 0 then None else Some((|data|, |data[0]|))
  }

  /** The length of row 0, or zero without rows: the second half of `size()`. */
  function Width(data: Rows): nat {
    if |data| == 0 then 0 else |data[0]|
  }

  /** rows × cols copies of x: `vec![vec![x; cols]; rows]`. */
  function Filled(rows: nat, cols: nat, x: real): (d: Rows)
    ensures |d| == rows
    ensures forall i :: 0 <= i < rows ==> |d[i]| == cols
    ensures forall i, j :: 0 <= i < rows && 0 <= j < cols ==> d[i][j] == x
  {
    seq(rows, _ => seq(cols, _ => x))
  }

  /** The n × n identity: one on the diagonal and zero elsewhere. */
  function IdentityOf(n: nat): Rows {
    seq(n, i => seq(n, j => if i == j then 1.0 else 0.0))
  }

  // ---------------------------------------------------------------------------
  // Transposition as specified by the nested push loop

  /** Entry i of every row long enough to have one, top to bottom: what the loop pushes
      onto `transposed[i]`. */
  function Column(data: Rows, i: nat): seq<real> {
    if |data| == 0 then []
    else Column(data[..|data| - 1], i) + (if i < |data[|data| - 1]| then [data[|data| - 1][i]] else [])
  }

  /** No row is longer than row 0, so every push finds its target list. */
  predicate RowsFit(data: Rows) {
    forall r :: 0 <= r < |data| ==> |data[r]| <= Width(data)
  }

  /** The result of `transpose` on an empty cache: it panics on a row longer than row 0
      (an index past the end of `transposed`); otherwise column i collects entry i of every
      row that has one. */
  function TransposeOf(data: Rows): Result<Rows> {
    if !RowsFit(data) then Err(IndexOutOfBounds)
    else Ok(seq(Width(data), i requires 0 <= i => Column(data, i)))
  }

  /** Every row of the same length. */
  predicate Rectangular(data: Rows, cols: nat) {
    forall r :: 0 <= r < |data| ==> |data[r]| == cols
  }

  class Matrix {
    var data: Rows
    var shape: Option<(nat, nat)>
    var rank: Option<nat>
    var determinant: Option<real>
    var pluDecomposition: Option<(Rows, seq<real>, Rows)>
    var inverse: Option<Rows>
    var transpose: Option<Rows>
    var trace: Option<real>

    /** The shape field still describes the data. */
    predicate Valid()
      reads this
    {
      shape == ShapeOf(data)
    }

    /** No derived value has been computed yet. */
    predicate Uncached()
      reads this
    {
      rank.None? && determinant.None? && pluDecomposition.None? && inverse.None?
      && transpose.None? && trace.None?
    }

    /** `new`: records the shape and leaves every cache empty. */
    constructor (data: Rows)
      ensures this.data == data && Valid() && Uncached()
    {
      this.data := data;
      shape := ShapeOf(data);
      rank := None;
      determinant := None;
      pluDecomposition := None;
      inverse := None;
      transpose := None;
      trace := None;
    }

    /** `from_slice`: `new` on a copy of the rows. */
    static method FromSlice(slice: Rows) returns (m: Matrix)
      ensures fresh(m) && m.data == slice && m.Valid() && m.Uncached()
    {
      m := new Matrix(slice);
    }

    function ToVec(): Rows
      reads this
    {
      data
    }

    /** `size()` reads the rows themselves, not the recorded shape. */
    function Size(): (nat, nat)
      reads this
    {
      (|data|, Width(data))
    }

    /** `is_square` reads the recorded shape: a matrix without rows is not square. */
    predicate IsSquare()
      reads this
    {
      match shape
      case Some((rows, cols)) => rows == cols
      case None => false
    }

    /** `zeros`, `ones` and `identity` build new matrices through `new`. */
    static method Zeros(rows: nat, cols: nat) returns (m: Matrix)
      ensures fresh(m) && m.data == Filled(rows, cols, 0.0) && m.Valid() && m.Uncached()
    {
      m := new Matrix(Filled(rows, cols, 0.0));
    }

    static method Ones(rows: nat, cols: nat) returns (m: Matrix)
      ensures fresh(m) && m.data == Filled(rows, cols, 1.0) && m.Valid() && m.Uncached()
    {
      m := new Matrix(Filled(rows, cols, 1.0));
    }

    static method Identity(size: nat) returns (m: Matrix)
      ensures fresh(m) && m.data == IdentityOf(size) && m.Valid() && m.Uncached()
    {
      var rows := IdentityRows(size);
      m := new Matrix(rows);
    }

    /** `transpose`: a filled cache is returned as a new matrix, whatever the rows are now;
        an empty one is filled from the rows by the push loop, unless that loop panics. */
    method Transpose() returns (r: Result<Matrix>)
      modifies this
      ensures data == old(data) && shape == old(shape) && rank == old(rank)
      ensures determinant == old(determinant) && pluDecomposition == old(pluDecomposition)
      ensures inverse == old(inverse) && trace == old(trace)
      ensures old(transpose).Some? ==>
        transpose == old(transpose) && r.Ok? && fresh(r.value) && r.value.data == old(transpose).value
        && r.value.Valid() && r.value.Uncached()
      ensures old(transpose).None? && TransposeOf(data).Err? ==>
        transpose.None? && r == Err(IndexOutOfBounds)
      ensures old(transpose).None? && TransposeOf(data).Ok? ==>
        transpose == Some(TransposeOf(data).value) && r.Ok? && fresh(r.value)
        && r.value.data == TransposeOf(data).value && r.value.Valid() && r.value.Uncached()
    {
      if transpose.Some? {
        var m := new Matrix(transpose.value);
        return Ok(m);
      }
      var cols := Size().1;
      var transposed: Rows := seq(cols, _ => []);
      for row := 0 to |data|
        invariant |transposed| == cols
        invariant forall k :: 0 <= k < cols ==> transposed[k] == Column(data[..row], k)
        invariant forall q :: 0 <= q < row ==> |data[q]| <= cols
      {
        var values := data[row];
        for i := 0 to |values|
          invariant |transposed| == cols && i <= cols
          invariant forall k :: 0 <= k < cols ==>
            transposed[k] == Column(data[..row], k) + (if k < i then [values[k]] else [])
        {
          if i >= |transposed| {
            return Err(IndexOutOfBounds);
          }
          transposed := transposed[i := transposed[i] + [values[i]]];
        }
        assert data[..row + 1][..row] == data[..row];
      }
      assert data[..|data|] == data;
      assert transposed == TransposeOf(data).value;
      transpose := Some(transposed);
      var m := new Matrix(transposed);
      return Ok(m);
    }

    /** `determinant`: panics unless the matrix is square, and the computation itself is
        `unimplemented!()`, so it never yields a value. */
    function Determinant(): (r: Result<real>)
      reads this
      ensures r.Err?
      ensures r.failure == NotSquare <==> !IsSquare()
    {
      if !IsSquare() then Err(NotSquare) else Err(NotImplemented)
    }
  }

  /** The loop of `identity`: a zero matrix with one written on each diagonal entry. */
  method IdentityRows(size: nat) returns (d: Rows)
    ensures |d| == size
    ensures forall i :: 0 <= i < size ==> |d[i]| == size
    ensures forall i, j :: 0 <= i < size && 0 <= j < size ==> d[i][j] == (if i == j then 1.0 else 0.0)
    ensures d == IdentityOf(size)
  {
    d := Filled(size, size, 0.0);
    for i := 0 to size
      invariant |d| == size
      invariant forall r :: 0 <= r < size ==> |d[r]| == size
      invariant forall r, c :: 0 <= r < size && 0 <= c < size ==> d[r][c] == (if r == c && r < i then 1.0 else 0.0)
    {
      d := d[i := d[i][i := 1.0]];
    }
    assert forall r :: 0 <= r < size ==> d[r] == IdentityOf(size)[r];
  }

  // ---------------------------------------------------------------------------
  // Laws

  /** A matrix still described by its shape is square exactly when it has rows and as many
      entries in row 0 as rows; `size()` then agrees with the shape. */
  lemma SquareIffShape(m: Matrix)
    requires m.Valid()
    ensures m.IsSquare() <==> |m.data| > 0 && |m.data| == |m.data[0]|
    ensures |m.data| > 0 ==> m.shape == Some(m.Size())
  {
  }

  /** Zeros and ones have the requested shape, except that no rows means no shape. */
  lemma FilledShape(rows: nat, cols: nat, x: real)
    ensures ShapeOf(Filled(rows, cols, x)) == if rows == 0 then None else Some((rows, cols))
  {
  }

  /** The identity has one on the diagonal and zero elsewhere; it is square except for size
      zero, which has no shape. */
  lemma IdentityFacts(n: nat)
    ensures |IdentityOf(n)| == n && Rectangular(IdentityOf(n), n)
    ensures forall i, j :: 0 <= i < n && 0 <= j < n ==> IdentityOf(n)[i][j] == (if i == j then 1.0 else 0.0)
    ensures ShapeOf(IdentityOf(n)) == if n == 0 then None else Some((n, n))
  {
  }

  /** Over rectangular rows, column i has one entry per row, entry j taken from row j. */
  lemma {:induction false} ColumnOfRectangular(data: Rows, cols: nat, i: nat)
    requires Rectangular(data, cols) && i < cols
    ensures |Column(data, i)| == |data|
    ensures forall j :: 0 <= j < |data| ==> Column(data, i)[j] == data[j][i]
  {
    if |data| > 0 {
      ColumnOfRectangular(data[..|data| - 1], cols, i);
    }
  }

  /** Over rectangular rows the transpose succeeds and swaps the indices. */
  lemma TransposeRectangular(data: Rows, cols: nat)
    requires |data| > 0 && Rectangular(data, cols)
    ensures TransposeOf(data).Ok?
    ensures |TransposeOf(data).value| == cols
    ensures Rectangular(TransposeOf(data).value, |data|)
    ensures forall i, j :: 0 <= i < cols && 0 <= j < |data| ==> TransposeOf(data).value[i][j] == data[j][i]
  {
    assert RowsFit(data);
    var t := TransposeOf(data).value;
    forall i | 0 <= i < cols
      ensures |t[i]| == |data|
      ensures forall j :: 0 <= j < |data| ==> t[i][j] == data[j][i]
    {
      assert t[i] == Column(data, i);
      ColumnOfRectangular(data, cols, i);
    }
  }

  /** Transposing a nonempty rectangular matrix twice gives it back. */
  lemma TransposeInvolution(data: Rows, cols: nat)
    requires |data| > 0 && cols > 0 && Rectangular(data, cols)
    ensures TransposeOf(data).Ok?
    ensures TransposeOf(TransposeOf(data).value) == Ok(data)
  {
    TransposeRectangular(data, cols);
    var t := TransposeOf(data).value;
    TransposeRectangular(t, |data|);
    var back := TransposeOf(t).value;
    assert |back| == |data|;
    forall j | 0 <= j < |data|
      ensures back[j] == data[j]
    {
      assert |back[j]| == cols;
      forall i | 0 <= i < cols
        ensures back[j][i] == data[j][i]
      {
        assert back[j][i] == t[i][j];
      }
    }
    assert back == data;
  }

  /** The identity is its own transpose. */
  lemma TransposeIdentity(n: nat)
    ensures TransposeOf(IdentityOf(n)) == Ok(IdentityOf(n))
  {
    if n > 0 {
      IdentityFacts(n);
      TransposeRectangular(IdentityOf(n), n);
      var t := TransposeOf(IdentityOf(n)).value;
      forall i | 0 <= i < n
        ensures t[i] == IdentityOf(n)[i]
      {
        assert |t[i]| == n;
        assert forall j :: 0 <= j < n ==> t[i][j] == IdentityOf(n)[j][i];
      }
      assert t == IdentityOf(n);
    }
  }

  /** Rows shorter than row 0 are skipped, so later entries move up in their column; a row
      longer than row 0 makes `transpose` panic. */
  lemma RaggedRows()
    ensures TransposeOf([[1.0, 2.0], [3.0]]) == Ok([[1.0, 3.0], [2.0]])
    ensures TransposeOf([[1.0], [2.0, 3.0]]) == Err(IndexOutOfBounds)
  {
    var d: Rows := [[1.0, 2.0], [3.0]];
    assert RowsFit(d);
    assert d[..1] == [[1.0, 2.0]] && d[..1][..0] == [];
    assert Column(d, 0) == [1.0, 3.0];
    assert Column(d, 1) == [2.0];
    var t := TransposeOf(d).value;
    assert |t| == 2 && t[0] == Column(d, 0) && t[1] == Column(d, 1);
    assert t == [[1.0, 3.0], [2.0]];
    var e: Rows := [[1.0], [2.0, 3.0]];
    assert |e[1]| > Width(e);
    assert !RowsFit(e);
  }
}
