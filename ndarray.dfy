/** The part of numpy the pipeline relies on: 2-D and 3-D arrays with a shape,
    C-order `ravel` and `reshape`, `transpose` and `stack`. */
module NdArray {
  import opened Results
  import opened Seqs

  /** A 2-D array of shape (rows, cols), stored row by row. */
  datatype Array2<T> = Array2(rows: nat, cols: nat, cells: seq<seq<T>>)
  {
    predicate Valid()
    {
      |cells| == rows && Uniform(cells, cols)
    }
  }

  /** A well-formed 2-D array; the shape is kept even when a dimension is 0. */
  type Matrix<T> = a: Array2<T> | a.Valid() witness Array2(0, 0, [])

  /** A 3-D array of shape (n, rows, cols): `n` planes of `rows` by `cols`. */
  datatype Array3<T> = Array3(n: nat, rows: nat, cols: nat, cells: seq<seq<seq<T>>>)
  {
    predicate Valid()
    {
      |cells| == n && forall b :: 0 <= b < n ==> |cells[b]| == rows && Uniform(cells[b], cols)
    }
  }

  type Cube<T> = a: Array3<T> | a.Valid() witness Array3(0, 0, 0, [])

  /** `m.ravel()`: the elements in row-major order. */
  function Ravel2<T>(m: Matrix<T>): (s: seq<T>)
    ensures |s| == m.rows * m.cols
  {
    ConcatLength(m.cells, m.cols);
    Concat(m.cells)
  }

  /** The ravel of each plane of `c`. */
  function PlaneRavels<T>(c: Cube<T>): (planes: seq<seq<T>>)
    ensures |planes| == c.n && Uniform(planes, c.rows * c.cols)
  {
    seq(c.n, b requires 0 <= b < c.n => Ravel2(Array2(c.rows, c.cols, c.cells[b])))
  }

  /** `c.ravel()`: plane by plane, each plane row by row. */
  function Ravel3<T>(c: Cube<T>): (s: seq<T>)
    ensures |s| == c.n * (c.rows * c.cols)
  {
    ConcatLength(PlaneRavels(c), c.rows * c.cols);
    Concat(PlaneRavels(c))
  }

  /** `data.reshape(rows, cols)` of a flat array, which numpy only allows when the sizes agree. */
  function Reshape2<T>(data: seq<T>, rows: nat, cols: nat): (m: Matrix<T>)
    requires |data| == rows * cols
    ensures m.rows == rows && m.cols == cols
  {
    Array2(rows, cols, Chunk(data, rows, cols))
  }

  /** `data.reshape(n, rows, cols)` of a flat array. */
  function Reshape3<T>(data: seq<T>, n: nat, rows: nat, cols: nat): (c: Cube<T>)
    requires |data| == n * (rows * cols)
    ensures c.n == n && c.rows == rows && c.cols == cols
  {
    var planes := Chunk(data, n, rows * cols);
    Array3(n, rows, cols, seq(n, b requires 0 <= b < n => Chunk(planes[b], rows, cols)))
  }

  /** `np.transpose(m)`: rows become columns. */
  function Transpose<T>(m: Matrix<T>): (t: Matrix<T>)
    ensures t.rows == m.cols && t.cols == m.rows
    ensures forall i, j :: 0 <= i < m.rows && 0 <= j < m.cols ==> t.cells[j][i] == m.cells[i][j]
  {
    Array2(m.cols, m.rows, seq(m.cols, j requires 0 <= j < m.cols =>
                                 seq(m.rows, i requires 0 <= i < m.rows => m.cells[i][j])))
  }

  /** Every array in `list` has the shape of the first one. */
  predicate SameShape<T>(list: seq<Matrix<T>>)
    requires |list| > 0
  {
    forall i :: 0 <= i < |list| ==> list[i].rows == list[0].rows && list[i].cols == list[0].cols
  }

  /** `np.stack(list)`: joins equally shaped 2-D arrays along a new leading axis;
      an empty list or two different shapes raise `ValueError`. */
  function Stack<T>(list: seq<Matrix<T>>): (r: Result<Cube<T>>)
    ensures r.Ok? <==> |list| > 0 && forall i, j :: 0 <= i < |list| && 0 <= j < |list| ==>
                                       list[i].rows == list[j].rows && list[i].cols == list[j].cols
    ensures r.Err? ==> r.error == ValueError
    ensures r.Ok? ==> r.value.n == |list| && r.value.rows == list[0].rows && r.value.cols == list[0].cols
    ensures r.Ok? ==> forall i :: 0 <= i < |list| ==> r.value.cells[i] == list[i].cells
  {
    if |list| == 0 || !SameShape(list) then Err(ValueError)
    else Ok(Array3(|list|, list[0].rows, list[0].cols, seq(|list|, i requires 0 <= i < |list| => list[i].cells)))
  }

  /** The planes of `c` as separate 2-D arrays (`list(c)` in numpy). */
  function Unstack<T>(c: Cube<T>): (list: seq<Matrix<T>>)
    ensures |list| == c.n
    ensures forall b :: 0 <= b < c.n ==> list[b].rows == c.rows && list[b].cols == c.cols && list[b].cells == c.cells[b]
  {
    seq(c.n, b requires 0 <= b < c.n => Array2(c.rows, c.cols, c.cells[b]))
  }

  /** Stacking the planes of a non-empty 3-D array rebuilds it. */
  lemma StackUnstack<T>(c: Cube<T>)
    requires c.n > 0
    ensures Stack(Unstack(c)) == Ok(c)
  {
    var r := Stack(Unstack(c));
    assert r.Ok?;
    assert r.value.cells == c.cells;
  }

  /** Transposing twice gives the array back. */
  lemma TransposeTwice<T>(m: Matrix<T>)
    ensures Transpose(Transpose(m)) == m
  {
    var t := Transpose(Transpose(m));
    forall i | 0 <= i < m.rows
      ensures t.cells[i] == m.cells[i]
    {
    }
  }

  /** Element (i, j) of a reshaped flat array is element `i * cols + j` of the flat array. */
  lemma Reshape2At<T>(data: seq<T>, rows: nat, cols: nat, i: nat, j: nat)
    requires |data| == rows * cols && i < rows && j < cols
    ensures i * cols + j < |data| && Reshape2(data, rows, cols).cells[i][j] == data[i * cols + j]
  {
    ChunkAt(data, rows, cols, i, j);
  }

  /** Element (i, j) of `m` is element `i * m.cols + j` of its ravel. */
  lemma Ravel2At<T>(m: Matrix<T>, i: nat, j: nat)
    requires i < m.rows && j < m.cols
    ensures i * m.cols + j < |Ravel2(m)| && Ravel2(m)[i * m.cols + j] == m.cells[i][j]
  {
    ConcatAt(m.cells, m.cols, i, j);
  }

  /** Element (b, i, j) of `c` is element `b * rows * cols + i * cols + j` of its ravel. */
  lemma Ravel3At<T>(c: Cube<T>, b: nat, i: nat, j: nat)
    requires b < c.n && i < c.rows && j < c.cols
    ensures i * c.cols + j < c.rows * c.cols
    ensures b * (c.rows * c.cols) + (i * c.cols + j) < |Ravel3(c)|
    ensures Ravel3(c)[b * (c.rows * c.cols) + (i * c.cols + j)] == c.cells[b][i][j]
  {
    RowMajorBound(i, j, c.rows, c.cols);
    ConcatAt(c.cells[b], c.cols, i, j);
    ConcatAt(PlaneRavels(c), c.rows * c.cols, b, i * c.cols + j);
  }

  /** Element (b, i, j) of a flat array reshaped to (n, rows, cols). */
  lemma Reshape3At<T>(data: seq<T>, n: nat, rows: nat, cols: nat, b: nat, i: nat, j: nat)
    requires |data| == n * (rows * cols) && b < n && i < rows && j < cols
    ensures i * cols + j < rows * cols && b * (rows * cols) + (i * cols + j) < |data|
    ensures Reshape3(data, n, rows, cols).cells[b][i][j] == data[b * (rows * cols) + (i * cols + j)]
  {
    RowMajorBound(i, j, rows, cols);
    var planes := Chunk(data, n, rows * cols);
    ChunkAt(planes[b], rows, cols, i, j);
    ChunkAt(data, n, rows * cols, b, i * cols + j);
  }

  /** A flat array reshaped to 2-D ravels back to itself. */
  lemma RavelReshape2<T>(data: seq<T>, rows: nat, cols: nat)
    requires |data| == rows * cols
    ensures Ravel2(Reshape2(data, rows, cols)) == data
  {
    ConcatChunk(data, rows, cols);
  }

  /** Reshaping the ravel of a 3-D array to its own shape rebuilds it. */
  lemma {:induction false} ReshapeRavel3<T>(c: Cube<T>)
    ensures Reshape3(Ravel3(c), c.n, c.rows, c.cols) == c
  {
    var planes := PlaneRavels(c);
    ChunkConcat(planes, c.rows * c.cols);
    var r := Reshape3(Ravel3(c), c.n, c.rows, c.cols);
    forall b | 0 <= b < c.n
      ensures r.cells[b] == c.cells[b]
    {
      ChunkConcat(c.cells[b], c.cols);
    }
  }
}
