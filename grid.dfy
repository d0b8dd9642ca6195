/** Two-dimensional grids and the failure type shared by the model.

    A cv::Mat of the program is a rows-by-cols grid of pixels; the model keeps the
    two dimensions explicitly (so that a 0x5 and a 0x3 matrix stay different shapes,
    as they are for OpenCV) and the pixels as a sequence of rows. */
module Grid {

  /** The ways an OpenCV assertion (CV_Assert or a size check inside an
      arithmetic operator) stops the program; each is fatal to the call. */
  datatype Failure =
    | UnsupportedDepth    // element type outside what the function accepts
    | WrongChannelCount   // not a 3-channel input to the embedding
    | ShapeMismatch       // operands of incompatible sizes
    | DftSizeNotOptimal   // a dimension that getOptimalDFTSize would change
    | ZeroNormPixel       // a zero pixel reaching qunitary's 1 / sqrt(d)

  datatype Result<+T> = Ok(value: T) | Err(error: Failure)

  datatype Matrix<T> = Matrix(rows: nat, cols: nat, cells: seq<seq<T>>)

  /** Every row exists and has cols entries. */
  predicate Shaped<T>(m: Matrix<T>) {
    |m.cells| == m.rows && forall i :: 0 <= i < |m.cells| ==> |m.cells[i]| == m.cols
  }

  type Mat<T> = m: Matrix<T> | Shaped(m) witness Matrix(0, 0, [])

  predicate SameShape<T, U>(a: Mat<T>, b: Mat<U>) {
    a.rows == b.rows && a.cols == b.cols
  }

  /** A 1x1 matrix: the program's way of passing one quaternion as an operand. */
  predicate IsSingle<T>(m: Mat<T>) {
    m.rows == 1 && m.cols == 1
  }

  /** A rows-by-cols matrix all of whose cells are x. */
  function Fill<T>(rows: nat, cols: nat, x: T): (r: Mat<T>)
    ensures r.rows == rows && r.cols == cols
    ensures forall i, j :: 0 <= i < rows && 0 <= j < cols ==> r.cells[i][j] == x
  {
    Matrix(rows, cols, seq(rows, _ => seq(cols, _ => x)))
  }

  /** Applies f to every cell, keeping the shape. */
  function Map<T, U>(m: Mat<T>, f: T -> U): (r: Mat<U>)
    ensures SameShape(r, m)
    ensures forall i, j :: 0 <= i < m.rows && 0 <= j < m.cols ==> r.cells[i][j] == f(m.cells[i][j])
  {
    Matrix(m.rows, m.cols,
      seq(m.rows, i requires 0 <= i < m.rows =>
        seq(m.cols, j requires 0 <= j < m.cols => f(m.cells[i][j]))))
  }

  /** Combines two matrices of one shape cell by cell. */
  function Zip<T, U, V>(a: Mat<T>, b: Mat<U>, f: (T, U) -> V): (r: Mat<V>)
    requires SameShape(a, b)
    ensures SameShape(r, a)
    ensures forall i, j :: 0 <= i < a.rows && 0 <= j < a.cols ==>
      r.cells[i][j] == f(a.cells[i][j], b.cells[i][j])
  {
    Matrix(a.rows, a.cols,
      seq(a.rows, i requires 0 <= i < a.rows =>
        seq(a.cols, j requires 0 <= j < a.cols => f(a.cells[i][j], b.cells[i][j]))))
  }

  /** The contents of a two-dimensional array as a matrix value. */
  function Snapshot<T>(a: array2<T>): (r: Mat<T>)
    reads a
    ensures r.rows == a.Length0 && r.cols == a.Length1
    ensures forall i, j :: 0 <= i < a.Length0 && 0 <= j < a.Length1 ==> r.cells[i][j] == a[i, j]
  {
    Matrix(a.Length0, a.Length1,
      seq(a.Length0, i requires 0 <= i < a.Length0 reads a =>
        seq(a.Length1, j requires 0 <= j < a.Length1 reads a => a[i, j])))
  }

  /** Two matrices of one shape that agree on every cell are equal. */
  lemma Extensionality<T>(a: Mat<T>, b: Mat<T>)
    requires SameShape(a, b)
    requires forall i, j :: 0 <= i < a.rows && 0 <= j < a.cols ==> a.cells[i][j] == b.cells[i][j]
    ensures a == b
  {
    forall i | 0 <= i < a.rows
      ensures a.cells[i] == b.cells[i]
    {
      assert forall j :: 0 <= j < a.cols ==> a.cells[i][j] == b.cells[i][j];
    }
  }
}
