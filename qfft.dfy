/** QFFT2 (main.cpp:58-109): the quaternion Fourier transform of a quaternion
    image, computed as two complex DFTs after a change of basis that puts the
    axis mu = (i + j + k) / sqrt(3) first. */
module QuaternionFourier {
  import opened Grid
  import opened Quaternions
  import opened Roots
  import opened Images

  datatype Complex = Complex(re: real, im: real)

  /** A two-channel CV_64FC2 matrix, one complex number per pixel. */
  type CImage = Mat<Complex>

  /** cv::dft on two-channel input with DFT_COMPLEX_OUTPUT, without and with
      DFT_INVERSE. Its computation is not part of this model. */
  datatype Dft = Dft(forward: CImage -> CImage, inverse: CImage -> CImage)

  /** cv::dft keeps the size of its input. */
  ghost predicate ShapePreserving(dft: Dft) {
    forall m: CImage :: SameShape(dft.forward(m), m) && SameShape(dft.inverse(m), m)
  }

  /** The inverse transform undoes the forward one. */
  ghost predicate Invertible(dft: Dft) {
    forall m: CImage :: dft.inverse(dft.forward(m)) == m
  }

  /** Every entry of a complex image multiplied by the real s. */
  function CScale(s: real, m: CImage): (r: CImage)
    ensures SameShape(r, m)
    ensures forall i, j :: 0 <= i < m.rows && 0 <= j < m.cols ==>
      r.cells[i][j] == Complex(s * m.cells[i][j].re, s * m.cells[i][j].im)
  {
    Map(m, (c: Complex) => Complex(s * c.re, s * c.im))
  }

  /** cv::dft as main.cpp:91-97 calls it, without DFT_SCALE: the inverse of the
      forward transform is the input multiplied by its number of entries. */
  ghost predicate UnscaledInvertible(dft: Dft) {
    forall m: CImage :: dft.inverse(dft.forward(m)) == CScale((m.rows * m.cols) as real, m)
  }

  /** The transform that changes nothing. */
  const IdentityDft := Dft(m => m, m => m)

  /** The orientation c of main.cpp:64-68: +1 for the left transform, -1 for the right. */
  function Side(sideLeft: bool): (c: real)
    ensures c * c == 1.0
    ensures sideLeft <==> c == 1.0
  {
    if sideLeft then 1.0 else -1.0
  }

  /** The coefficients of the change of basis: 1/sqrt 2, 1/sqrt 3 and c/sqrt 6.
      The program divides by sqrt(2), sqrt(3) and sqrt(6) and multiplies the
      sqrt(6) terms by the orientation c; the model multiplies by these three
      reals instead, which is the same computation over the reals. */
  datatype Basis = Basis(r2: real, r3: real, r6: real)

  /** What the change of basis needs of its coefficients: their squares. */
  predicate Orthonormal(k: Basis) {
    k.r2 * k.r2 == 1.0 / 2.0 && k.r3 * k.r3 == 1.0 / 3.0 && k.r6 * k.r6 == 1.0 / 6.0
  }

  // A sign does not change a square.
  lemma SignedSquare(c: real, t: real, n: real)
    requires c == 1.0 || c == -1.0
    requires t * t == n
    ensures (c * t) * (c * t) == n
  {
    if c == 1.0 {
      assert c * t == t;
    } else {
      assert c * t == -t;
    }
  }

  /** The coefficients for one side, computed from the square root. */
  function BasisOf(sqrt: real -> real, sideLeft: bool): (k: Basis)
    requires IsSqrt(sqrt)
    ensures Orthonormal(k)
    ensures 0.0 < k.r2 && 0.0 < k.r3
    ensures k.r6 * sqrt(6.0) == Side(sideLeft)
  {
    SurdFacts(sqrt);
    InverseSquare(sqrt(2.0), 2.0);
    InverseSquare(sqrt(3.0), 3.0);
    InverseSquare(sqrt(6.0), 6.0);
    SignedSquare(Side(sideLeft), 1.0 / sqrt(6.0), 1.0 / 6.0);
    Basis(1.0 / sqrt(2.0), 1.0 / sqrt(3.0), Side(sideLeft) * (1.0 / sqrt(6.0)))
  }

  /** c1 = (w, (x + y + z) / sqrt 3) of main.cpp:81-82: the real part, and the
      component along the axis i + j + k, which is zero exactly when q has none. */
  function FirstPair(k: Basis, q: Quat): (c: Complex)
    ensures c.re == q.w
    ensures k.r3 != 0.0 ==> (c.im == 0.0 <==> q.x + q.y + q.z == 0.0)
  {
    Complex(q.w, (q.x + q.y + q.z) * k.r3)
  }

  /** c2 = ((y - z) / sqrt 2, c (z + y - 2 x) / sqrt 6) of main.cpp:83-84: the
      part of the vector off the axis i + j + k, zero exactly when x = y = z. */
  function SecondPair(k: Basis, q: Quat): (c: Complex)
    ensures k.r2 != 0.0 && k.r6 != 0.0 ==> (c == Complex(0.0, 0.0) <==> q.x == q.y == q.z)
  {
    Complex((q.y - q.z) * k.r2, (q.z + q.y - 2.0 * q.x) * k.r6)
  }

  /** The quaternion rebuilt from the transformed pairs C1, C2 (main.cpp:102-105):
      the real part comes from C1, and without C2 the vector lies on i + j + k. */
  function Recombine(k: Basis, c1: Complex, c2: Complex): (q: Quat)
    ensures q.w == c1.re
    ensures c2 == Complex(0.0, 0.0) ==> q.x == q.y == q.z
  {
    Quat(c1.re,
         c1.im * k.r3 - 2.0 * (c2.im * k.r6),
         c1.im * k.r3 + c2.re * k.r2 + c2.im * k.r6,
         c1.im * k.r3 - c2.re * k.r2 + c2.im * k.r6)
  }

  /** Recombining the two pairs of q gives q back. */
  lemma RecombinePairs(k: Basis, q: Quat)
    requires Orthonormal(k)
    ensures Recombine(k, FirstPair(k, q), SecondPair(k, q)) == q
  {
    Rescaled(q.x + q.y + q.z, k.r3, 1.0 / 3.0);
    Rescaled(q.y - q.z, k.r2, 1.0 / 2.0);
    Rescaled(q.z + q.y - 2.0 * q.x, k.r6, 1.0 / 6.0);
  }

  // Multiplying twice by t is multiplying by t^2.
  lemma Rescaled(s: real, t: real, n: real)
    requires t * t == n
    ensures (s * t) * t == s * n
  {
    assert (s * t) * t == s * (t * t);
  }

  /** Taking the pairs of a recombined quaternion gives the two pairs back. */
  lemma PairsRecombine(k: Basis, c1: Complex, c2: Complex)
    requires Orthonormal(k)
    ensures FirstPair(k, Recombine(k, c1, c2)) == c1
    ensures SecondPair(k, Recombine(k, c1, c2)) == c2
  {
    RecombinedSum(c1.im, c2.re, c2.im, k.r2, k.r3, k.r6);
    RecombinedDifference(c1.im, c2.re, c2.im, k.r2, k.r3, k.r6);
    RecombinedSkew(c1.im, c2.re, c2.im, k.r2, k.r3, k.r6);
  }

  // The next three lemmas take the vector part (x, y, z) recombined from u, r, v,
  // written out as Recombine forms it, and give back u, r and v in turn.
  lemma RecombinedSum(u: real, r: real, v: real, r2: real, r3: real, r6: real)
    requires r3 * r3 == 1.0 / 3.0
    ensures ((u * r3 - 2.0 * (v * r6)) + (u * r3 + r * r2 + v * r6) + (u * r3 - r * r2 + v * r6)) * r3 == u
  {
    var a, b, h := u * r3, r * r2, v * r6;
    Unscale(3.0, u, r3, a, (a - 2.0 * h) + (a + b + h) + (a - b + h));
  }

  lemma RecombinedDifference(u: real, r: real, v: real, r2: real, r3: real, r6: real)
    requires r2 * r2 == 1.0 / 2.0
    ensures ((u * r3 + r * r2 + v * r6) - (u * r3 - r * r2 + v * r6)) * r2 == r
  {
    var a, b, h := u * r3, r * r2, v * r6;
    Unscale(2.0, r, r2, b, (a + b + h) - (a - b + h));
  }

  lemma RecombinedSkew(u: real, r: real, v: real, r2: real, r3: real, r6: real)
    requires r6 * r6 == 1.0 / 6.0
    ensures ((u * r3 - r * r2 + v * r6) + (u * r3 + r * r2 + v * r6) - 2.0 * (u * r3 - 2.0 * (v * r6))) * r6 == v
  {
    var a, b, h := u * r3, r * r2, v * r6;
    Unscale(6.0, v, r6, h, (a - b + h) + (a + b + h) - 2.0 * (a - 2.0 * h));
  }

  // s = m (u t) with t^2 = 1/m: then s t = u.
  lemma Unscale(m: real, u: real, t: real, a: real, s: real)
    requires t * t * m == 1.0
    requires a == u * t && s == m * a
    ensures s * t == u
  {
    assert s * t == m * (a * t);
    assert a * t == u * (t * t);
  }

  /** The per-pixel change of basis applied to a whole image (main.cpp:76-84). */
  function Analyse(k: Basis, img: QImage): (r: (CImage, CImage))
    ensures SameShape(r.0, img) && SameShape(r.1, img)
    ensures forall i, j :: 0 <= i < img.rows && 0 <= j < img.cols ==>
      r.0.cells[i][j] == FirstPair(k, img.cells[i][j]) &&
      r.1.cells[i][j] == SecondPair(k, img.cells[i][j])
  {
    (Map(img, q => FirstPair(k, q)), Map(img, q => SecondPair(k, q)))
  }

  /** split of C1, C2 and merge of the four rebuilt planes (main.cpp:99-107); planes
      of different sizes fail as OpenCV's arithmetic does. */
  function Synthesise(k: Basis, c1: CImage, c2: CImage): (r: Result<QImage>)
    ensures r.Ok? <==> SameShape(c1, c2)
    ensures r.Err? ==> r.error == ShapeMismatch
    ensures r.Ok? ==> SameShape(r.value, c1) && forall i, j :: 0 <= i < c1.rows && 0 <= j < c1.cols ==>
      r.value.cells[i][j] == Recombine(k, c1.cells[i][j], c2.cells[i][j])
  {
    if SameShape(c1, c2) then Ok(Zip(c1, c2, (a, b) => Recombine(k, a, b))) else Err(ShapeMismatch)
  }

  /** QFFT2 (main.cpp:58-109). Sizes that getOptimalDFTSize would change fail the
      assertion of main.cpp:74; optimalSize stands for getOptimalDFTSize. */
  function QFFT2(sqrt: real -> real, dft: Dft, optimalSize: nat -> nat,
                 img: QImage, inverse: bool, sideLeft: bool): (r: Result<QImage>)
    requires IsSqrt(sqrt)
    ensures optimalSize(img.rows) != img.rows || optimalSize(img.cols) != img.cols ==>
      r == Err(DftSizeNotOptimal)
    ensures r.Err? ==> r.error == DftSizeNotOptimal || r.error == ShapeMismatch
    ensures optimalSize(img.rows) == img.rows && optimalSize(img.cols) == img.cols && r.Err? ==>
      r.error == ShapeMismatch
    ensures ShapePreserving(dft) && optimalSize(img.rows) == img.rows && optimalSize(img.cols) == img.cols ==>
      r.Ok? && SameShape(r.value, img)
  {
    if optimalSize(img.rows) != img.rows || optimalSize(img.cols) != img.cols then
      Err(DftSizeNotOptimal)
    else
      var k := BasisOf(sqrt, sideLeft);
      var pairs := Analyse(k, img);
      var c1 := if inverse then dft.inverse(pairs.0) else dft.forward(pairs.0);
      var c2 := if inverse then dft.inverse(pairs.1) else dft.forward(pairs.1);
      Synthesise(k, c1, c2)
  }

  /** Synthesis undoes analysis. */
  lemma SynthesiseAnalyse(k: Basis, img: QImage)
    requires Orthonormal(k)
    ensures Synthesise(k, Analyse(k, img).0, Analyse(k, img).1) == Ok(img)
  {
    var pairs := Analyse(k, img);
    var r := Synthesise(k, pairs.0, pairs.1).value;
    forall i, j | 0 <= i < img.rows && 0 <= j < img.cols
      ensures r.cells[i][j] == img.cells[i][j]
    {
      RecombinePairs(k, img.cells[i][j]);
    }
    Extensionality(r, img);
  }

  /** Analysis undoes synthesis. */
  lemma AnalyseSynthesise(k: Basis, c1: CImage, c2: CImage)
    requires Orthonormal(k) && SameShape(c1, c2)
    ensures Analyse(k, Synthesise(k, c1, c2).value) == (c1, c2)
  {
    var q := Synthesise(k, c1, c2).value;
    var pairs := Analyse(k, q);
    forall i, j | 0 <= i < c1.rows && 0 <= j < c1.cols
      ensures pairs.0.cells[i][j] == c1.cells[i][j] && pairs.1.cells[i][j] == c2.cells[i][j]
    {
      PairsRecombine(k, c1.cells[i][j], c2.cells[i][j]);
    }
    Extensionality(pairs.0, c1);
    Extensionality(pairs.1, c2);
  }

  /** With the identity in place of the DFT, QFFT2 of either side and direction
      returns its input: the change of basis and its recombination are inverse. */
  lemma QFFT2Identity(sqrt: real -> real, optimalSize: nat -> nat, img: QImage, inverse: bool, sideLeft: bool)
    requires IsSqrt(sqrt)
    requires optimalSize(img.rows) == img.rows && optimalSize(img.cols) == img.cols
    ensures QFFT2(sqrt, IdentityDft, optimalSize, img, inverse, sideLeft) == Ok(img)
  {
    SynthesiseAnalyse(BasisOf(sqrt, sideLeft), img);
  }

  /** The inverse QFFT2 of a forward QFFT2 on one side applies the DFT's inverse
      after its forward transform to each complex image of the basis change. */
  lemma ForwardThenInverse(sqrt: real -> real, dft: Dft, optimalSize: nat -> nat, img: QImage, sideLeft: bool)
    requires IsSqrt(sqrt) && ShapePreserving(dft)
    requires optimalSize(img.rows) == img.rows && optimalSize(img.cols) == img.cols
    ensures QFFT2(sqrt, dft, optimalSize, img, false, sideLeft).Ok?
    ensures var k := BasisOf(sqrt, sideLeft);
      QFFT2(sqrt, dft, optimalSize, QFFT2(sqrt, dft, optimalSize, img, false, sideLeft).value, true, sideLeft)
      == Synthesise(k, dft.inverse(dft.forward(Analyse(k, img).0)), dft.inverse(dft.forward(Analyse(k, img).1)))
  {
    var k := BasisOf(sqrt, sideLeft);
    var pairs := Analyse(k, img);
    var f1, f2 := dft.forward(pairs.0), dft.forward(pairs.1);
    var spectrum := QFFT2(sqrt, dft, optimalSize, img, false, sideLeft).value;
    assert spectrum == Synthesise(k, f1, f2).value;
    AnalyseSynthesise(k, f1, f2);
    assert Analyse(k, spectrum) == (f1, f2);
  }

  /** The inverse QFFT2 of a forward QFFT2 on the same side gives the image back,
      for any DFT whose inverse undoes its forward transform. */
  lemma QFFT2RoundTrip(sqrt: real -> real, dft: Dft, optimalSize: nat -> nat, img: QImage, sideLeft: bool)
    requires IsSqrt(sqrt) && ShapePreserving(dft) && Invertible(dft)
    requires optimalSize(img.rows) == img.rows && optimalSize(img.cols) == img.cols
    ensures QFFT2(sqrt, dft, optimalSize, img, false, sideLeft).Ok?
    ensures QFFT2(sqrt, dft, optimalSize, QFFT2(sqrt, dft, optimalSize, img, false, sideLeft).value, true, sideLeft)
      == Ok(img)
  {
    var k := BasisOf(sqrt, sideLeft);
    var pairs := Analyse(k, img);
    ForwardThenInverse(sqrt, dft, optimalSize, img, sideLeft);
    assert dft.inverse(dft.forward(pairs.0)) == pairs.0 && dft.inverse(dft.forward(pairs.1)) == pairs.1;
    SynthesiseAnalyse(k, img);
  }

  /** For cv::dft as the program calls it, without DFT_SCALE, the inverse QFFT2 of
      a forward QFFT2 on the same side is the image multiplied by rows * cols. */
  lemma QFFT2UnscaledRoundTrip(sqrt: real -> real, dft: Dft, optimalSize: nat -> nat, img: QImage, sideLeft: bool)
    requires IsSqrt(sqrt) && ShapePreserving(dft) && UnscaledInvertible(dft)
    requires optimalSize(img.rows) == img.rows && optimalSize(img.cols) == img.cols
    ensures QFFT2(sqrt, dft, optimalSize, img, false, sideLeft).Ok?
    ensures QFFT2(sqrt, dft, optimalSize, QFFT2(sqrt, dft, optimalSize, img, false, sideLeft).value, true, sideLeft)
      == Ok(QScale((img.rows * img.cols) as real, img))
  {
    var k := BasisOf(sqrt, sideLeft);
    var pairs := Analyse(k, img);
    var n := (img.rows * img.cols) as real;
    ForwardThenInverse(sqrt, dft, optimalSize, img, sideLeft);
    UnscaledInverse(dft, pairs.0, img.rows, img.cols);
    UnscaledInverse(dft, pairs.1, img.rows, img.cols);
    SynthesiseScaled(k, n, pairs.0, pairs.1);
    SynthesiseAnalyse(k, img);
  }

  // Scaling both pairs scales the recombined quaternion.
  lemma RecombineScaled(k: Basis, s: real, c1: Complex, c2: Complex)
    ensures Recombine(k, Complex(s * c1.re, s * c1.im), Complex(s * c2.re, s * c2.im)) == Scale(s, Recombine(k, c1, c2))
  {
    ScaledTerms(s, c1.im, c2.re, c2.im, k.r2, k.r3, k.r6);
  }

  // The three recombination formulas are linear in the pair components.
  lemma ScaledTerms(s: real, u: real, r: real, v: real, r2: real, r3: real, r6: real)
    ensures (s * u) * r3 - 2.0 * ((s * v) * r6) == s * (u * r3 - 2.0 * (v * r6))
    ensures (s * u) * r3 + (s * r) * r2 + (s * v) * r6 == s * (u * r3 + r * r2 + v * r6)
    ensures (s * u) * r3 - (s * r) * r2 + (s * v) * r6 == s * (u * r3 - r * r2 + v * r6)
  {
    assert (s * u) * r3 == s * (u * r3) && (s * r) * r2 == s * (r * r2) && (s * v) * r6 == s * (v * r6);
  }

  /** Synthesis of scaled complex images is the scaled synthesis. */
  lemma SynthesiseScaled(k: Basis, s: real, c1: CImage, c2: CImage)
    requires SameShape(c1, c2)
    ensures Synthesise(k, CScale(s, c1), CScale(s, c2)) == Ok(QScale(s, Synthesise(k, c1, c2).value))
  {
    var a := Synthesise(k, CScale(s, c1), CScale(s, c2)).value;
    var b := QScale(s, Synthesise(k, c1, c2).value);
    forall i, j | 0 <= i < c1.rows && 0 <= j < c1.cols
      ensures a.cells[i][j] == b.cells[i][j]
    {
      ScaledPixel(k, s, c1, c2, i, j);
    }
    Extensionality(a, b);
  }

  // One pixel of SynthesiseScaled.
  lemma ScaledPixel(k: Basis, s: real, c1: CImage, c2: CImage, i: nat, j: nat)
    requires SameShape(c1, c2) && i < c1.rows && j < c1.cols
    ensures Synthesise(k, CScale(s, c1), CScale(s, c2)).value.cells[i][j] ==
      Scale(s, Synthesise(k, c1, c2).value.cells[i][j])
  {
    RecombineScaled(k, s, c1.cells[i][j], c2.cells[i][j]);
  }

  // One instance of UnscaledInvertible, for an image of the given size.
  lemma UnscaledInverse(dft: Dft, m: CImage, rows: nat, cols: nat)
    requires UnscaledInvertible(dft) && m.rows == rows && m.cols == cols
    ensures dft.inverse(dft.forward(m)) == CScale((rows * cols) as real, m)
  {
  }
}
