/** Quaternion images: the 4-channel double matrices of main.cpp and the
    functions that build, conjugate, multiply and normalise them. */
module Images {
  import opened Grid
  import opened Quaternions
  import opened Roots

  /** The element type of a cv::Mat (CV_8U ... CV_16F). */
  datatype Depth = U8 | S8 | U16 | S16 | S32 | F32 | F64 | F16

  /** A cv::Mat of any depth with cn channels per pixel, the pixel values as reals. */
  datatype ChannelMatrix = ChannelMatrix(depth: Depth, cn: nat, px: Mat<seq<real>>)

  /** Every pixel carries exactly cn channel values, as in a cv::Mat. */
  predicate Channelled(m: ChannelMatrix) {
    forall i, j :: 0 <= i < m.px.rows && 0 <= j < m.px.cols ==> |m.px.cells[i][j]| == m.cn
  }

  type ChannelImage = m: ChannelMatrix | Channelled(m)
    witness ChannelMatrix(F64, 0, Matrix(0, 0, []))

  /** A quaternion image: a CV_64FC4 matrix, one quaternion per pixel. */
  type QImage = Mat<Quat>

  /** The depths createQuaternionImage accepts. */
  predicate EmbeddableDepth(d: Depth) {
    d == U8 || d == F32 || d == F64
  }

  /** The vector part (x, y, z) of a quaternion as three channel values. */
  function VectorPart(q: Quat): seq<real> {
    [q.x, q.y, q.z]
  }

  /** createQuaternionImage (main.cpp:7-18): a colour image becomes the pure
      quaternion image w = 0, (x, y, z) = the three channels; any other depth or
      channel count fails the assertion of main.cpp:10. */
  function Embed(img: ChannelImage): (r: Result<QImage>)
    ensures r.Ok? <==> EmbeddableDepth(img.depth) && img.cn == 3
    ensures r.Err? ==> r.error == (if EmbeddableDepth(img.depth) then WrongChannelCount else UnsupportedDepth)
    ensures r.Ok? ==> SameShape(r.value, img.px)
    ensures r.Ok? ==> forall i, j :: 0 <= i < img.px.rows && 0 <= j < img.px.cols ==>
      r.value.cells[i][j].w == 0.0 && VectorPart(r.value.cells[i][j]) == img.px.cells[i][j]
  {
    if EmbeddableDepth(img.depth) && img.cn == 3 then
      Ok(Matrix(img.px.rows, img.px.cols,
        seq(img.px.rows, i requires 0 <= i < img.px.rows =>
          seq(img.px.cols, j requires 0 <= j < img.px.cols =>
            Quat(0.0, img.px.cells[i][j][0], img.px.cells[i][j][1], img.px.cells[i][j][2])))))
    else
      Err(if EmbeddableDepth(img.depth) then WrongChannelCount else UnsupportedDepth)
  }

  /** Reading the vector part back out of an embedded image gives the colour image. */
  lemma EmbedRoundTrip(img: ChannelImage)
    requires EmbeddableDepth(img.depth) && img.cn == 3
    ensures Embed(img).Ok? && Map(Embed(img).value, VectorPart) == img.px
  {
    var q := Embed(img).value;
    Extensionality(Map(q, VectorPart), img.px);
  }

  /** qconj (main.cpp:20-31): every pixel conjugated. */
  function QConj(m: QImage): (r: QImage)
    ensures SameShape(r, m)
    ensures forall i, j :: 0 <= i < m.rows && 0 <= j < m.cols ==>
      r.cells[i][j].w == m.cells[i][j].w && r.cells[i][j].x == -m.cells[i][j].x &&
      r.cells[i][j].y == -m.cells[i][j].y && r.cells[i][j].z == -m.cells[i][j].z
  {
    Map(m, Conj)
  }

  /** Conjugating an image twice gives it back. */
  lemma QConjInvolution(m: QImage)
    ensures QConj(QConj(m)) == m
  {
    Extensionality(QConj(QConj(m)), m);
  }

  /** The operand value used at (i, j): a 1x1 operand is repeated over the other's shape. */
  function Pick<T>(m: Mat<T>, i: nat, j: nat): T
    requires IsSingle(m) || (i < m.rows && j < m.cols)
  {
    if IsSingle(m) then m.cells[0][0] else m.cells[i][j]
  }

  /** qmultiply (main.cpp:112-152): the pixelwise Hamilton product of two images of
      one shape, or of a 1x1 quaternion with an image on either side; any other pair
      of shapes fails the assertion of main.cpp:150. */
  function QMultiply(a: QImage, b: QImage): (r: Result<QImage>)
    ensures r.Ok? <==> SameShape(a, b) || IsSingle(a) || IsSingle(b)
    ensures r.Ok? && !(IsSingle(a) && !SameShape(a, b)) ==> SameShape(r.value, a)
    ensures r.Ok? && IsSingle(a) && !SameShape(a, b) ==> SameShape(r.value, b)
    ensures r.Ok? ==> forall i, j :: 0 <= i < r.value.rows && 0 <= j < r.value.cols ==>
      r.value.cells[i][j] == Mul(Pick(a, i, j), Pick(b, i, j))
  {
    if SameShape(a, b) then
      Ok(Zip(a, b, Mul))
    else if IsSingle(a) then
      var p := a.cells[0][0];
      Ok(Map(b, q => Mul(p, q)))
    else if IsSingle(b) then
      var q := b.cells[0][0];
      Ok(Map(a, p => Mul(p, q)))
    else
      Err(ShapeMismatch)
  }

  /** A 1x1 left operand acts as the image filled with that quaternion. */
  lemma BroadcastLeft(a: QImage, b: QImage)
    requires IsSingle(a)
    ensures QMultiply(a, b) == QMultiply(Fill(b.rows, b.cols, a.cells[0][0]), b)
  {
    var f := Fill(b.rows, b.cols, a.cells[0][0]);
    Extensionality(QMultiply(a, b).value, QMultiply(f, b).value);
  }

  /** A 1x1 right operand acts as the image filled with that quaternion. */
  lemma BroadcastRight(a: QImage, b: QImage)
    requires IsSingle(b) && !IsSingle(a)
    ensures QMultiply(a, b) == QMultiply(a, Fill(a.rows, a.cols, b.cells[0][0]))
  {
    var f := Fill(a.rows, a.cols, b.cells[0][0]);
    Extensionality(QMultiply(a, b).value, QMultiply(a, f).value);
  }

  /** An image times its conjugate is the real image of squared norms. */
  lemma QMultiplyConj(m: QImage)
    ensures QMultiply(m, QConj(m)) == Ok(Map(m, q => Real(Norm2(q))))
  {
    forall i, j | 0 <= i < m.rows && 0 <= j < m.cols
      ensures QMultiply(m, QConj(m)).value.cells[i][j] == Real(Norm2(m.cells[i][j]))
    {
      MulConj(m.cells[i][j]);
    }
    Extensionality(QMultiply(m, QConj(m)).value, Map(m, q => Real(Norm2(q))));
  }

  /** Matrix addition (the + of main.cpp:195); operands of different sizes fail. */
  function QAdd(a: QImage, b: QImage): (r: Result<QImage>)
    ensures r.Ok? <==> SameShape(a, b)
    ensures r.Ok? ==> SameShape(r.value, a) && forall i, j :: 0 <= i < a.rows && 0 <= j < a.cols ==>
      r.value.cells[i][j] == Add(a.cells[i][j], b.cells[i][j])
  {
    if SameShape(a, b) then Ok(Zip(a, b, Add)) else Err(ShapeMismatch)
  }

  /** cv::subtract (main.cpp:187, 189); operands of different sizes fail. */
  function QSub(a: QImage, b: QImage): (r: Result<QImage>)
    ensures r.Ok? <==> SameShape(a, b)
    ensures r.Ok? ==> SameShape(r.value, a) && forall i, j :: 0 <= i < a.rows && 0 <= j < a.cols ==>
      r.value.cells[i][j] == Sub(a.cells[i][j], b.cells[i][j])
  {
    if SameShape(a, b) then Ok(Zip(a, b, Sub)) else Err(ShapeMismatch)
  }

  /** Every pixel multiplied by the real k (the scalings by sqrtnn and the
      division by 2 of main.cpp:180-182, 188). */
  function QScale(k: real, m: QImage): (r: QImage)
    ensures SameShape(r, m)
    ensures forall i, j :: 0 <= i < m.rows && 0 <= j < m.cols ==>
      r.cells[i][j] == Scale(k, m.cells[i][j])
  {
    Map(m, q => Scale(k, q))
  }

  /** Scaling an image by k and by 1 / k undo each other, for k other than zero. */
  lemma QScaleInverse(k: real, m: QImage)
    requires k != 0.0
    ensures QScale(k, QScale(1.0 / k, m)) == m
    ensures QScale(1.0 / k, QScale(k, m)) == m
  {
    var u := 1.0 / k;
    Reciprocal(k);
    var a, b := QScale(k, QScale(u, m)), QScale(u, QScale(k, m));
    forall i, j | 0 <= i < m.rows && 0 <= j < m.cols
      ensures a.cells[i][j] == m.cells[i][j] && b.cells[i][j] == m.cells[i][j]
    {
      ScaleInverse(k, u, m.cells[i][j]);
      ScaleInverse(u, k, m.cells[i][j]);
    }
    Extensionality(a, m);
    Extensionality(b, m);
  }

  /** Subtracting b and adding it back gives a again. */
  lemma SubAdd(a: QImage, b: QImage)
    requires SameShape(a, b)
    ensures QAdd(QSub(a, b).value, b) == Ok(a)
  {
    Extensionality(QAdd(QSub(a, b).value, b).value, a);
  }

  /** The pixel qunitary computes: p scaled by 1 / sqrt(|p|^2) (main.cpp:49-54). */
  function UnitPixel(sqrt: real -> real, p: Quat): (u: Quat)
    requires IsSqrt(sqrt) && Norm2(p) != 0.0
    ensures Norm2(u) == 1.0
    ensures exists k :: 0.0 < k && u == Scale(k, p)
  {
    SqrtPositive(sqrt, Norm2(p));
    var d := 1.0 / sqrt(Norm2(p));
    assert 0.0 < d;
    Norm2Scale(d, p);
    assert d * d * Norm2(p) == 1.0 / (sqrt(Norm2(p)) * sqrt(Norm2(p))) * Norm2(p);
    Scale(d, p)
  }

  /** UnitPixel(p) is the one positive multiple of p with norm 1. */
  lemma UnitPixelUnique(sqrt: real -> real, p: Quat, k: real)
    requires IsSqrt(sqrt) && Norm2(p) != 0.0 && 0.0 < k
    ensures Norm2(Scale(k, p)) == 1.0 <==> Scale(k, p) == UnitPixel(sqrt, p)
  {
    SqrtPositive(sqrt, Norm2(p));
    var s := sqrt(Norm2(p));
    var d := 1.0 / s;
    Norm2Scale(k, p);
    if Norm2(Scale(k, p)) == 1.0 {
      assert (k * s) * (k * s) == k * k * (s * s);
      SquareInjective(k * s, 1.0);
      assert k == d;
    }
  }

  /** The normalised image, pixel by pixel: what qunitary computes. */
  function UnitaryImage(sqrt: real -> real, m: QImage): (r: QImage)
    requires IsSqrt(sqrt)
    requires forall i, j :: 0 <= i < m.rows && 0 <= j < m.cols ==> Norm2(m.cells[i][j]) != 0.0
    ensures SameShape(r, m)
    ensures forall i, j :: 0 <= i < m.rows && 0 <= j < m.cols ==> r.cells[i][j] == UnitPixel(sqrt, m.cells[i][j])
  {
    Matrix(m.rows, m.cols,
      seq(m.rows, i requires 0 <= i < m.rows =>
        seq(m.cols, j requires 0 <= j < m.cols => UnitPixel(sqrt, m.cells[i][j]))))
  }

  /** Every pixel of the normalised image has norm 1 and points the way the
      input pixel does. */
  lemma UnitaryImageUnit(sqrt: real -> real, m: QImage, i: nat, j: nat)
    requires IsSqrt(sqrt)
    requires forall i, j :: 0 <= i < m.rows && 0 <= j < m.cols ==> Norm2(m.cells[i][j]) != 0.0
    requires i < m.rows && j < m.cols
    ensures Norm2(UnitaryImage(sqrt, m).cells[i][j]) == 1.0
    ensures exists k :: 0.0 < k && UnitaryImage(sqrt, m).cells[i][j] == Scale(k, m.cells[i][j])
  {
    var u := UnitPixel(sqrt, m.cells[i][j]);
    assert UnitaryImage(sqrt, m).cells[i][j] == u;
  }

  /** qunitary (main.cpp:33-56): the four planes are cloned, every pixel is
      multiplied by 1 / sqrt of its squared norm in the order the flat pointer
      walk visits them (row by row), and the planes are merged back. A zero pixel
      would divide by zero, so every pixel must be non-zero. */
  method Unitary(sqrt: real -> real, m: QImage) returns (r: QImage)
    requires IsSqrt(sqrt)
    requires forall i, j :: 0 <= i < m.rows && 0 <= j < m.cols ==> Norm2(m.cells[i][j]) != 0.0
    ensures r == UnitaryImage(sqrt, m)
  {
    var w := new real[m.rows, m.cols]((i, j) requires 0 <= i < m.rows && 0 <= j < m.cols => m.cells[i][j].w);
    var x := new real[m.rows, m.cols]((i, j) requires 0 <= i < m.rows && 0 <= j < m.cols => m.cells[i][j].x);
    var y := new real[m.rows, m.cols]((i, j) requires 0 <= i < m.rows && 0 <= j < m.cols => m.cells[i][j].y);
    var z := new real[m.rows, m.cols]((i, j) requires 0 <= i < m.rows && 0 <= j < m.cols => m.cells[i][j].z);
    ghost var u := UnitaryImage(sqrt, m);
    var i := 0;
    while i < m.rows
      invariant 0 <= i <= m.rows
      invariant Walked(w, x, y, z, m, u, i, 0)
    {
      NormalizeRow(sqrt, m, u, w, x, y, z, i);
      i := i + 1;
    }
    r := Merge(w, x, y, z);
    Extensionality(r, u);
  }

  /** The planes w, x, y, z have the shape of m, and the walk has replaced every
      pixel before (i, j), in row-major order, by that of u and left the rest as in m. */
  ghost predicate Walked(w: array2<real>, x: array2<real>, y: array2<real>, z: array2<real>,
                         m: QImage, u: QImage, i: nat, j: nat)
    reads w, x, y, z
  {
    SameShape(u, m) &&
    w.Length0 == x.Length0 == y.Length0 == z.Length0 == m.rows &&
    w.Length1 == x.Length1 == y.Length1 == z.Length1 == m.cols &&
    forall a, b :: 0 <= a < m.rows && 0 <= b < m.cols ==>
      PlanePixel(w, x, y, z, a, b) == (if a < i || (a == i && b < j) then u.cells[a][b] else m.cells[a][b])
  }

  /** One row of qunitary's walk. */
  method NormalizeRow(sqrt: real -> real, m: QImage, ghost u: QImage,
                      w: array2<real>, x: array2<real>, y: array2<real>, z: array2<real>, i: nat)
    requires IsSqrt(sqrt) && i < m.rows
    requires forall a, b :: 0 <= a < m.rows && 0 <= b < m.cols ==> Norm2(m.cells[a][b]) != 0.0
    requires u == UnitaryImage(sqrt, m)
    requires w != x && w != y && w != z && x != y && x != z && y != z
    requires Walked(w, x, y, z, m, u, i, 0)
    modifies w, x, y, z
    ensures Walked(w, x, y, z, m, u, i + 1, 0)
  {
    var j := 0;
    while j < m.cols
      invariant 0 <= j <= m.cols
      invariant Walked(w, x, y, z, m, u, i, j)
    {
      assert PlanePixel(w, x, y, z, i, j) == m.cells[i][j];
      var pw, px, py, pz := NormalizePixel(sqrt, w[i, j], x[i, j], y[i, j], z[i, j]);
      w[i, j], x[i, j], y[i, j], z[i, j] := pw, px, py, pz;
      assert PlanePixel(w, x, y, z, i, j) == u.cells[i][j];
      j := j + 1;
    }
  }

  /** The body of qunitary's loop for one pixel (main.cpp:49-54). */
  method NormalizePixel(sqrt: real -> real, pw: real, px: real, py: real, pz: real)
    returns (w: real, x: real, y: real, z: real)
    requires IsSqrt(sqrt) && Norm2(Quat(pw, px, py, pz)) != 0.0
    ensures Quat(w, x, y, z) == UnitPixel(sqrt, Quat(pw, px, py, pz))
  {
    ghost var p := Quat(pw, px, py, pz);
    var d := pw * pw + px * px + py * py + pz * pz;
    assert d == Norm2(p);
    SqrtPositive(sqrt, d);
    d := 1.0 / sqrt(d);
    w, x, y, z := pw * d, px * d, py * d, pz * d;
    assert Quat(w, x, y, z) == Scale(d, p);
  }

  /** The quaternion the four planes hold at (i, j). */
  function PlanePixel(w: array2<real>, x: array2<real>, y: array2<real>, z: array2<real>, i: nat, j: nat): Quat
    requires i < w.Length0 && j < w.Length1 && i < x.Length0 && j < x.Length1
    requires i < y.Length0 && j < y.Length1 && i < z.Length0 && j < z.Length1
    reads w, x, y, z
  {
    Quat(w[i, j], x[i, j], y[i, j], z[i, j])
  }

  /** merge of four planes of one size into a quaternion image. */
  function Merge(w: array2<real>, x: array2<real>, y: array2<real>, z: array2<real>): (r: QImage)
    requires x.Length0 == y.Length0 == z.Length0 == w.Length0
    requires x.Length1 == y.Length1 == z.Length1 == w.Length1
    reads w, x, y, z
    ensures r.rows == w.Length0 && r.cols == w.Length1
    ensures forall i, j :: 0 <= i < w.Length0 && 0 <= j < w.Length1 ==>
      r.cells[i][j] == PlanePixel(w, x, y, z, i, j)
  {
    Matrix(w.Length0, w.Length1,
      seq(w.Length0, i requires 0 <= i < w.Length0 reads w, x, y, z =>
        seq(w.Length1, j requires 0 <= j < w.Length1 reads w, x, y, z =>
          PlanePixel(w, x, y, z, i, j))))
  }
}
