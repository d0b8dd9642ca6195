/** colorMatchTemplate (main.cpp:155-204): colour template matching by quaternion
    phase correlation. Both images are padded to a common DFT-friendly size and
    embedded as pure quaternion images; the template spectrum is split into the
    parts that commute and anticommute with the grey axis mu = (i + j + k) / sqrt 3;
    each part is correlated with the image spectrum, the sum is normalised pixel by
    pixel, and the magnitude of its inverse transform is the matching surface. */
module ColorMatch {
  import opened Grid
  import opened Quaternions
  import opened Roots
  import opened Images
  import opened QuaternionFourier

  // ---------------------------------------------------------------- sizes

  /** The padded dimension max(getOptimalDFTSize(a), getOptimalDFTSize(b))
      (main.cpp:159-160), std::max keeping the first operand on a tie. */
  function PaddedSize(optimalSize: nat -> nat, a: nat, b: nat): (n: nat)
    ensures n == optimalSize(a) || n == optimalSize(b)
    ensures optimalSize(a) <= n && optimalSize(b) <= n
    ensures a <= optimalSize(a) && b <= optimalSize(b) ==> a <= n && b <= n
    ensures optimalSize(optimalSize(a)) == optimalSize(a) && optimalSize(optimalSize(b)) == optimalSize(b) ==>
      optimalSize(n) == n
  {
    if optimalSize(a) < optimalSize(b) then optimalSize(b) else optimalSize(a)
  }

  /** getOptimalDFTSize never returns less than its argument. */
  ghost predicate Covering(optimalSize: nat -> nat) {
    forall n: nat :: n <= optimalSize(n)
  }

  /** getOptimalDFTSize of an optimal size is that size. */
  ghost predicate Settled(optimalSize: nat -> nat) {
    forall n: nat :: optimalSize(optimalSize(n)) == optimalSize(n)
  }

  // ---------------------------------------------------------------- padding

  /** A pixel after convertTo(CV_64F, 1 / 256.): every channel divided by 256. */
  function Scaled(v: seq<real>): (r: seq<real>)
    ensures |r| == |v|
    ensures forall c :: 0 <= c < |v| ==> r[c] == v[c] / 256.0
  {
    seq(|v|, c requires 0 <= c < |v| => v[c] / 256.0)
  }

  const Black: seq<real> := [0.0, 0.0, 0.0]

  /** The quaternion pixel (i, j) of a padded input: inside the input's rectangle
      the pure quaternion of its channels divided by 256, zero in the padding. */
  function PaddedPixel(img: ChannelImage, i: nat, j: nat): (q: Quat)
    requires img.cn == 3
    ensures q.w == 0.0
    ensures i < img.px.rows && j < img.px.cols ==>
      256.0 * q.x == img.px.cells[i][j][0] && 256.0 * q.y == img.px.cells[i][j][1] &&
      256.0 * q.z == img.px.cells[i][j][2]
    ensures !(i < img.px.rows && j < img.px.cols) ==> q == Zero
  {
    if i < img.px.rows && j < img.px.cols then
      var v := img.px.cells[i][j];
      Quat(0.0, v[0] / 256.0, v[1] / 256.0, v[2] / 256.0)
    else
      Zero
  }

  /** An input that copyTo can place in a 3-channel region (main.cpp:163-166).
      The region logo(Rect(...)) is a fixed-type CV_64FC3 output, so copyTo
      asserts that its source has three channels. convertTo of an empty input
      leaves an empty one-channel matrix, so an input with no rows or no
      columns fails that assertion too. */
  predicate Copyable(img: ChannelImage) {
    img.cn == 3 && 0 < img.px.rows && 0 < img.px.cols
  }

  /** One input padded to rr-by-cc and embedded (main.cpp:161-166, 173-174).
      copyTo stops the program on an input that is not Copyable. */
  function PaddedQuaternions(img: ChannelImage, rr: nat, cc: nat): (r: Result<QImage>)
    requires img.px.rows <= rr && img.px.cols <= cc
    ensures r.Ok? <==> Copyable(img)
    ensures r.Err? ==> r.error == WrongChannelCount
    ensures r.Ok? ==> r.value.rows == rr && r.value.cols == cc
    ensures r.Ok? ==> forall i, j :: 0 <= i < rr && 0 <= j < cc ==> r.value.cells[i][j] == PaddedPixel(img, i, j)
  {
    if !Copyable(img) then
      Err(WrongChannelCount)
    else
      Ok(Matrix(rr, cc, seq(rr, i requires 0 <= i < rr => seq(cc, j requires 0 <= j < cc => PaddedPixel(img, i, j)))))
  }

  /** main.cpp:161-166 for one input: a zero rr-by-cc CV_64FC3 buffer whose
      top-left corner receives the input scaled by 1/256. copyTo into the
      fixed-type region fails unless the input is Copyable. */
  method PadScaled(img: ChannelImage, rr: nat, cc: nat) returns (r: Result<ChannelImage>)
    requires img.px.rows <= rr && img.px.cols <= cc
    ensures r.Ok? <==> Copyable(img)
    ensures r.Err? ==> r.error == WrongChannelCount
    ensures r.Ok? ==> r.value.depth == F64 && r.value.cn == 3 && r.value.px.rows == rr && r.value.px.cols == cc
    ensures r.Ok? ==> forall i, j :: 0 <= i < rr && 0 <= j < cc ==>
      r.value.px.cells[i][j] == if i < img.px.rows && j < img.px.cols then Scaled(img.px.cells[i][j]) else Black
  {
    if !Copyable(img) {
      return Err(WrongChannelCount);
    }
    var buffer := PaddedBuffer(img, rr, cc);
    var px := Snapshot(buffer);
    assert forall i, j :: 0 <= i < rr && 0 <= j < cc ==> |px.cells[i][j]| == 3;
    r := Ok(ChannelMatrix(F64, 3, px));
  }

  // The array behind PadScaled, filled in place.
  method PaddedBuffer(img: ChannelImage, rr: nat, cc: nat) returns (buffer: array2<seq<real>>)
    requires img.px.rows <= rr && img.px.cols <= cc && img.cn == 3
    ensures fresh(buffer) && buffer.Length0 == rr && buffer.Length1 == cc
    ensures forall i, j :: 0 <= i < rr && 0 <= j < cc ==>
      buffer[i, j] == if i < img.px.rows && j < img.px.cols then Scaled(img.px.cells[i][j]) else Black
  {
    buffer := new seq<real>[rr, cc]((i, j) => Black);
    forall i, j | 0 <= i < img.px.rows && 0 <= j < img.px.cols {
      buffer[i, j] := Scaled(img.px.cells[i][j]);
    }
  }

  /** createQuaternionImage of a padded buffer (main.cpp:173-174) succeeds and
      gives the padded quaternion image of the input. */
  lemma EmbedPadded(img: ChannelImage, padded: ChannelImage, rr: nat, cc: nat)
    requires img.px.rows <= rr && img.px.cols <= cc && Copyable(img)
    requires padded.depth == F64 && padded.cn == 3 && padded.px.rows == rr && padded.px.cols == cc
    requires forall i, j :: 0 <= i < rr && 0 <= j < cc ==>
      padded.px.cells[i][j] == if i < img.px.rows && j < img.px.cols then Scaled(img.px.cells[i][j]) else Black
    ensures Embed(padded) == PaddedQuaternions(img, rr, cc)
  {
    var q := Embed(padded).value;
    var p := PaddedQuaternions(img, rr, cc).value;
    forall i, j | 0 <= i < rr && 0 <= j < cc
      ensures q.cells[i][j] == p.cells[i][j]
    {
      EmbeddedPixel(img, q.cells[i][j], i, j);
    }
    Extensionality(q, p);
  }

  // A pure quaternion whose vector part is a padded buffer pixel is its PaddedPixel.
  lemma EmbeddedPixel(img: ChannelImage, q: Quat, i: nat, j: nat)
    requires img.cn == 3 && q.w == 0.0
    requires VectorPart(q) == if i < img.px.rows && j < img.px.cols then Scaled(img.px.cells[i][j]) else Black
    ensures q == PaddedPixel(img, i, j)
  {
    assert VectorPart(q)[0] == q.x && VectorPart(q)[1] == q.y && VectorPart(q)[2] == q.z;
  }

  // ---------------------------------------------------------------- decomposition

  /** The unit grey axis mu = (i + j + k) / sqrt 3 of main.cpp:183. */
  function Mu(sqrt: real -> real): (mu: Quat)
    requires IsSqrt(sqrt)
    ensures mu.w == 0.0 && mu.x == mu.y == mu.z && 0.0 < mu.x
    ensures Norm2(mu) == 1.0
  {
    SurdFacts(sqrt);
    InverseSquare(sqrt(3.0), 3.0);
    var t := 1.0 / sqrt(3.0);
    Quat(0.0, t, t, t)
  }

  /** mu is a square root of -1, which is what makes the split below work. */
  lemma MuSquare(sqrt: real -> real)
    requires IsSqrt(sqrt)
    ensures Mul(Mu(sqrt), Mu(sqrt)) == Real(-1.0)
  {
    var mu := Mu(sqrt);
    MulDef(mu, mu);
    assert 3.0 * (mu.x * mu.x) == 1.0;
  }

  /** The part of t that commutes with mu: (t - mu t mu) / 2 (main.cpp:185-188).
      It commutes with mu whenever mu is a square root of -1. */
  function Para(mu: Quat, t: Quat): (p: Quat)
    ensures Mul(mu, mu) == Real(-1.0) ==> Mul(mu, p) == Mul(p, mu)
  {
    var d := Sub(t, Mul(Mul(mu, t), mu));
    DifferenceProducts(mu, t);
    MulHalf(mu, d);
    MulHalf(d, mu);
    Scale(0.5, d)
  }

  /** The rest of t: t - Para (main.cpp:189). With Para it adds up to t, and it
      anticommutes with mu whenever mu is a square root of -1. */
  function Ortho(mu: Quat, t: Quat): (o: Quat)
    ensures Add(Para(mu, t), o) == t
    ensures Mul(mu, mu) == Real(-1.0) ==> Mul(mu, o) == Neg(Mul(o, mu))
  {
    var p := Para(mu, t);
    MulSub(mu, t, p);
    ParaProducts(mu, t);
    Sub(t, p)
  }

  // mu (mu t mu) = -(t mu) when mu^2 = -1.
  lemma SandwichLeft(mu: Quat, t: Quat)
    requires Mul(mu, mu) == Real(-1.0)
    ensures Mul(mu, Mul(Mul(mu, t), mu)) == Neg(Mul(t, mu))
  {
    MulAssoc(mu, Mul(mu, t), mu);
    MulAssoc(mu, mu, t);
    MulMinusOne(t);
    MulNeg(t, mu);
  }

  // (mu t mu) mu = -(mu t) when mu^2 = -1.
  lemma SandwichRight(mu: Quat, t: Quat)
    requires Mul(mu, mu) == Real(-1.0)
    ensures Mul(Mul(Mul(mu, t), mu), mu) == Neg(Mul(mu, t))
  {
    MulAssoc(Mul(mu, t), mu, mu);
    MulMinusOne(Mul(mu, t));
  }

  // Both mu d and d mu are mu t + t mu, for d = t - mu t mu, when mu^2 = -1.
  lemma DifferenceProducts(mu: Quat, t: Quat)
    ensures Mul(mu, mu) == Real(-1.0) ==>
      Mul(mu, Sub(t, Mul(Mul(mu, t), mu))) == Add(Mul(mu, t), Mul(t, mu)) &&
      Mul(Sub(t, Mul(Mul(mu, t), mu)), mu) == Add(Mul(mu, t), Mul(t, mu))
  {
    if Mul(mu, mu) == Real(-1.0) {
      var s := Mul(Mul(mu, t), mu);
      MulSub(mu, t, s);
      SandwichLeft(mu, t);
      SandwichRight(mu, t);
    }
  }

  // mu Para = Para mu = (mu t + t mu) / 2, when mu^2 = -1.
  lemma ParaProducts(mu: Quat, t: Quat)
    ensures Mul(mu, mu) == Real(-1.0) ==>
      Mul(mu, Para(mu, t)) == Scale(0.5, Add(Mul(mu, t), Mul(t, mu))) &&
      Mul(Para(mu, t), mu) == Scale(0.5, Add(Mul(mu, t), Mul(t, mu)))
  {
    var d := Sub(t, Mul(Mul(mu, t), mu));
    MulHalf(mu, d);
    MulHalf(d, mu);
    DifferenceProducts(mu, t);
  }

  /** Para and Ortho are the only split of t into a part commuting with mu and a
      part anticommuting with it. */
  lemma DecompositionUnique(mu: Quat, t: Quat, p: Quat, o: Quat)
    requires Mul(mu, mu) == Real(-1.0)
    requires Add(p, o) == t
    requires Mul(mu, p) == Mul(p, mu) && Mul(mu, o) == Neg(Mul(o, mu))
    ensures p == Para(mu, t) && o == Ortho(mu, t)
  {
    var pp, oo := Para(mu, t), Ortho(mu, t);
    var d := Sub(p, pp);
    DifferenceCommutes(mu, p, pp);
    SplitDifference(p, o, t, pp, oo);
    DifferenceAnticommutes(mu, o, oo);
    OnlyZeroAnticommutes(mu, d);
    ZeroDifference(p, o, t, pp, oo);
  }

  // When p + o = t = pp + oo, p - pp = oo - o.
  lemma SplitDifference(p: Quat, o: Quat, t: Quat, pp: Quat, oo: Quat)
    requires Add(p, o) == t && oo == Sub(t, pp)
    ensures Sub(oo, o) == Sub(p, pp)
  {
  }

  // ... and p - pp = 0 makes both splits the same.
  lemma ZeroDifference(p: Quat, o: Quat, t: Quat, pp: Quat, oo: Quat)
    requires Add(p, o) == t && oo == Sub(t, pp) && Sub(p, pp) == Zero
    ensures p == pp && o == oo
  {
  }

  // The difference of two quaternions commuting with mu commutes with mu.
  lemma DifferenceCommutes(mu: Quat, p: Quat, q: Quat)
    requires Mul(mu, p) == Mul(p, mu) && Mul(mu, q) == Mul(q, mu)
    ensures Mul(mu, Sub(p, q)) == Mul(Sub(p, q), mu)
  {
    MulSub(mu, p, q);
  }

  // The difference of two quaternions anticommuting with mu anticommutes with mu.
  lemma DifferenceAnticommutes(mu: Quat, p: Quat, q: Quat)
    requires Mul(mu, p) == Neg(Mul(p, mu)) && Mul(mu, q) == Neg(Mul(q, mu))
    ensures Mul(mu, Sub(q, p)) == Neg(Mul(Sub(q, p), mu))
  {
    MulSub(mu, q, p);
    NegSub(Mul(q, mu), Mul(p, mu));
  }

  // -a - -b = -(a - b).
  lemma NegSub(a: Quat, b: Quat)
    ensures Sub(Neg(a), Neg(b)) == Neg(Sub(a, b))
  {
  }

  // Only zero both commutes and anticommutes with a square root of -1.
  lemma OnlyZeroAnticommutes(mu: Quat, d: Quat)
    requires Mul(mu, mu) == Real(-1.0)
    requires Mul(mu, d) == Mul(d, mu) && Mul(mu, d) == Neg(Mul(d, mu))
    ensures d == Zero
  {
    SelfNegative(Mul(d, mu));
    ZeroRightFactor(mu, d);
  }

  // d mu = 0 forces d = 0, since (d mu) mu = -d.
  lemma ZeroRightFactor(mu: Quat, d: Quat)
    requires Mul(mu, mu) == Real(-1.0)
    requires Mul(d, mu) == Zero
    ensures d == Zero
  {
    MulAssoc(d, mu, mu);
    MulMinusOne(d);
    MulZero(mu);
    SelfNegative(d);
  }

  // Only zero is its own negation... and a quaternion whose negation is zero is zero.
  lemma SelfNegative(e: Quat)
    ensures e == Neg(e) ==> e == Zero
    ensures Neg(e) == Zero ==> e == Zero
  {
  }

  // 0 q = 0.
  lemma MulZero(q: Quat)
    ensures Mul(Zero, q) == Zero
  {
  }

  /** The parallel and orthogonal parts of every pixel of a spectrum. */
  function ParaImage(mu: Quat, t: QImage): (r: QImage)
    ensures SameShape(r, t)
    ensures forall i, j :: 0 <= i < t.rows && 0 <= j < t.cols ==> r.cells[i][j] == Para(mu, t.cells[i][j])
  {
    Map(t, q => Para(mu, q))
  }

  function OrthoImage(mu: Quat, t: QImage): (r: QImage)
    ensures SameShape(r, t)
    ensures forall i, j :: 0 <= i < t.rows && 0 <= j < t.cols ==> r.cells[i][j] == Ortho(mu, t.cells[i][j])
  {
    Map(t, q => Ortho(mu, q))
  }

  /** The two parts add up to the spectrum they came from. */
  lemma DecompositionSum(mu: Quat, t: QImage)
    ensures QAdd(ParaImage(mu, t), OrthoImage(mu, t)) == Ok(t)
  {
    var s := QAdd(ParaImage(mu, t), OrthoImage(mu, t)).value;
    Extensionality(s, t);
  }

  /** main.cpp:185-189, with the 1x1 matrix mu broadcast by qmultiply and the
      temporary qtmp and the buffer qlogopara reused as the program does. */
  method Decompose(mu: QImage, t: QImage) returns (para: QImage, ortho: QImage)
    requires IsSingle(mu)
    ensures para == ParaImage(mu.cells[0][0], t)
    ensures ortho == OrthoImage(mu.cells[0][0], t)
  {
    ghost var m := mu.cells[0][0];
    SingleOnLeft(mu, t);
    var qtmp := QMultiply(mu, t).value;
    ghost var left := qtmp;
    SingleOnRight(left, mu);
    qtmp := QMultiply(qtmp, mu).value;
    para := QSub(t, qtmp).value;
    para := QScale(0.5, para);
    Extensionality(para, ParaImage(m, t));
    ortho := QSub(t, para).value;
    Extensionality(ortho, OrthoImage(m, t));
  }

  // qmultiply with a 1x1 left operand multiplies every pixel by its one quaternion.
  lemma SingleOnLeft(a: QImage, b: QImage)
    requires IsSingle(a)
    ensures QMultiply(a, b).Ok? && SameShape(QMultiply(a, b).value, b)
    ensures forall i, j :: 0 <= i < b.rows && 0 <= j < b.cols ==>
      QMultiply(a, b).value.cells[i][j] == Mul(a.cells[0][0], b.cells[i][j])
  {
  }

  // ... and with a 1x1 right operand, from the right.
  lemma SingleOnRight(a: QImage, b: QImage)
    requires IsSingle(b)
    ensures QMultiply(a, b).Ok? && SameShape(QMultiply(a, b).value, a)
    ensures forall i, j :: 0 <= i < a.rows && 0 <= j < a.cols ==>
      QMultiply(a, b).value.cells[i][j] == Mul(a.cells[i][j], b.cells[0][0])
  {
  }

  // ---------------------------------------------------------------- cross spectrum

  /** pwsp = conj(F) para + conj(Fi) ortho (main.cpp:191-195); qmultiply and the
      sum fail on operands of incompatible shapes. */
  function CrossSpectrum(f: QImage, fi: QImage, para: QImage, ortho: QImage): (r: Result<QImage>)
    ensures r.Err? ==> r.error == ShapeMismatch
    ensures SameShape(f, para) && SameShape(fi, ortho) && SameShape(f, fi) ==>
      r.Ok? && SameShape(r.value, f) &&
      forall i, j :: 0 <= i < f.rows && 0 <= j < f.cols ==>
        r.value.cells[i][j] == Add(Mul(Conj(f.cells[i][j]), para.cells[i][j]),
                                   Mul(Conj(fi.cells[i][j]), ortho.cells[i][j]))
  {
    var c1 := QMultiply(QConj(f), para);
    var c2 := QMultiply(QConj(fi), ortho);
    if c1.Err? then c1
    else if c2.Err? then c2
    else QAdd(c1.value, c2.value)
  }

  /** With one spectrum on both sides, the two cross terms recombine into the
      plain cross spectrum conj(F) T of the undecomposed template. */
  lemma CrossSpectrumRecombines(f: QImage, mu: Quat, t: QImage)
    requires SameShape(f, t)
    ensures CrossSpectrum(f, f, ParaImage(mu, t), OrthoImage(mu, t)) == QMultiply(QConj(f), t)
  {
    var r := CrossSpectrum(f, f, ParaImage(mu, t), OrthoImage(mu, t)).value;
    var s := QMultiply(QConj(f), t).value;
    forall i, j | 0 <= i < f.rows && 0 <= j < f.cols
      ensures r.cells[i][j] == s.cells[i][j]
    {
      var c := Conj(f.cells[i][j]);
      MulAdd(c, Para(mu, t.cells[i][j]), Ortho(mu, t.cells[i][j]));
      assert Add(Para(mu, t.cells[i][j]), Ortho(mu, t.cells[i][j])) == t.cells[i][j];
    }
    Extensionality(r, s);
  }

  // ---------------------------------------------------------------- surface

  /** sqrt(p0^2 + p1^2 + p2^2 + p3^2) per pixel (main.cpp:199-202). */
  function Magnitude(sqrt: real -> real, m: QImage): (r: Mat<real>)
    requires IsSqrt(sqrt)
    ensures SameShape(r, m)
    ensures forall i, j :: 0 <= i < m.rows && 0 <= j < m.cols ==>
      0.0 <= r.cells[i][j] && r.cells[i][j] * r.cells[i][j] == Norm2(m.cells[i][j])
  {
    var r := Map(m, q => sqrt(Norm2(q)));
    assert forall i, j :: 0 <= i < m.rows && 0 <= j < m.cols ==> r.cells[i][j] == sqrt(Norm2(m.cells[i][j]));
    r
  }

  /** An image of unit quaternions has magnitude 1 everywhere. */
  lemma MagnitudeOfUnit(sqrt: real -> real, m: QImage)
    requires IsSqrt(sqrt)
    requires forall i, j :: 0 <= i < m.rows && 0 <= j < m.cols ==> Norm2(m.cells[i][j]) == 1.0
    ensures forall i, j :: 0 <= i < m.rows && 0 <= j < m.cols ==> Magnitude(sqrt, m).cells[i][j] == 1.0
  {
    var r := Magnitude(sqrt, m);
    forall i, j | 0 <= i < m.rows && 0 <= j < m.cols
      ensures r.cells[i][j] == 1.0
    {
      SquareInjective(r.cells[i][j], 1.0);
    }
  }

  /** Some pixel of m is the zero quaternion. */
  predicate HasZeroPixel(m: QImage) {
    exists i, j :: 0 <= i < m.rows && 0 <= j < m.cols && Norm2(m.cells[i][j]) == 0.0
  }

  // ---------------------------------------------------------------- pipeline

  /** main.cpp:157-174: both inputs padded to the common rr-by-cc size and
      embedded, the image first in the pair. The template is copied first. */
  function PaddedPair(optimalSize: nat -> nat, image: ChannelImage, templ: ChannelImage): (r: Result<(QImage, QImage)>)
    requires Covering(optimalSize)
    ensures r.Ok? <==> Copyable(image) && Copyable(templ)
    ensures r.Err? ==> r.error == WrongChannelCount
    ensures r.Ok? ==>
      r.value.0.rows == r.value.1.rows == PaddedSize(optimalSize, image.px.rows, templ.px.rows) &&
      r.value.0.cols == r.value.1.cols == PaddedSize(optimalSize, image.px.cols, templ.px.cols)
    ensures r.Ok? ==> 0 < r.value.0.rows && 0 < r.value.0.cols
    ensures r.Ok? ==> forall i, j :: 0 <= i < r.value.0.rows && 0 <= j < r.value.0.cols ==>
      r.value.0.cells[i][j] == PaddedPixel(image, i, j) && r.value.1.cells[i][j] == PaddedPixel(templ, i, j)
  {
    var rr := PaddedSize(optimalSize, image.px.rows, templ.px.rows);
    var cc := PaddedSize(optimalSize, image.px.cols, templ.px.cols);
    assert image.px.rows <= optimalSize(image.px.rows) && templ.px.rows <= optimalSize(templ.px.rows);
    assert image.px.cols <= optimalSize(image.px.cols) && templ.px.cols <= optimalSize(templ.px.cols);
    var qlogo := PaddedQuaternions(templ, rr, cc);
    var qimg := PaddedQuaternions(image, rr, cc);
    if qlogo.Err? then Err(qlogo.error)
    else if qimg.Err? then Err(qimg.error)
    else Ok((qimg.value, qlogo.value))
  }

  /** main.cpp:157-174 as the program runs it: the two buffers, the copies and
      createQuaternionImage. */
  method PadAndEmbed(optimalSize: nat -> nat, image: ChannelImage, templ: ChannelImage)
    returns (r: Result<(QImage, QImage)>)
    requires Covering(optimalSize)
    ensures r == PaddedPair(optimalSize, image, templ)
  {
    var rr := PaddedSize(optimalSize, image.px.rows, templ.px.rows);
    var cc := PaddedSize(optimalSize, image.px.cols, templ.px.cols);
    assert image.px.rows <= optimalSize(image.px.rows) && templ.px.rows <= optimalSize(templ.px.rows);
    assert image.px.cols <= optimalSize(image.px.cols) && templ.px.cols <= optimalSize(templ.px.cols);
    var logo := PadScaled(templ, rr, cc);
    if logo.Err? {
      return Err(logo.error);
    }
    var img := PadScaled(image, rr, cc);
    if img.Err? {
      return Err(img.error);
    }
    EmbedPadded(image, img.value, rr, cc);
    EmbedPadded(templ, logo.value, rr, cc);
    var qimg := Embed(img.value).value;
    var qlogo := Embed(logo.value).value;
    r := Ok((qimg, qlogo));
  }

  /** An optimal size, as QFFT2's assertion demands of both dimensions. */
  predicate Optimal(optimalSize: nat -> nat, m: QImage) {
    optimalSize(m.rows) == m.rows && optimalSize(m.cols) == m.cols
  }

  /** The scalings of main.cpp:179-182: the two forward spectra divided by
      sqrt(rows cols), the inverse one multiplied by it. Each is undone by the
      opposite scaling. An empty matrix has nothing to scale. */
  function Normalised(sqrt: real -> real, f: QImage, fi: QImage, t: QImage): (r: (QImage, QImage, QImage))
    requires IsSqrt(sqrt)
    ensures SameShape(r.0, f) && SameShape(r.1, fi) && SameShape(r.2, t)
    ensures f.rows * f.cols == 0 ==> r == (f, fi, t)
    ensures f.rows * f.cols > 0 ==>
      0.0 < sqrt((f.rows * f.cols) as real) &&
      QScale(sqrt((f.rows * f.cols) as real), r.0) == f &&
      QScale(1.0 / sqrt((f.rows * f.cols) as real), r.1) == fi &&
      QScale(sqrt((f.rows * f.cols) as real), r.2) == t
  {
    var n := f.rows * f.cols;
    if n > 0 then
      SqrtPositive(sqrt, n as real);
      var s := sqrt(n as real);
      QScaleInverse(s, f);
      QScaleInverse(s, fi);
      QScaleInverse(s, t);
      (QScale(1.0 / s, f), QScale(s, fi), QScale(1.0 / s, t))
    else
      (f, fi, t)
  }

  /** main.cpp:176-182: the left transform of the image in both directions and
      the right transform of the template, then the scalings. */
  function SpectraOf(sqrt: real -> real, dft: Dft, optimalSize: nat -> nat, qimg: QImage, qlogo: QImage)
    : (r: Result<(QImage, QImage, QImage)>)
    requires IsSqrt(sqrt)
    ensures r.Err? ==> r.error == DftSizeNotOptimal || r.error == ShapeMismatch
    ensures r.Ok? ==> Optimal(optimalSize, qimg) && Optimal(optimalSize, qlogo)
    ensures ShapePreserving(dft) && Optimal(optimalSize, qimg) && Optimal(optimalSize, qlogo) ==>
      r.Ok? && SameShape(r.value.0, qimg) && SameShape(r.value.1, qimg) && SameShape(r.value.2, qlogo)
  {
    var forward := QFFT2(sqrt, dft, optimalSize, qimg, false, true);
    var inverse := QFFT2(sqrt, dft, optimalSize, qimg, true, true);
    var spectrum := QFFT2(sqrt, dft, optimalSize, qlogo, false, false);
    if forward.Err? then Err(forward.error)
    else if inverse.Err? then Err(inverse.error)
    else if spectrum.Err? then Err(spectrum.error)
    else Ok(Normalised(sqrt, forward.value, inverse.value, spectrum.value))
  }

  /** With the identity in place of cv::dft the spectra are the scaled inputs. */
  lemma SpectraIdentity(sqrt: real -> real, optimalSize: nat -> nat, qimg: QImage, qlogo: QImage)
    requires IsSqrt(sqrt) && Optimal(optimalSize, qimg) && Optimal(optimalSize, qlogo)
    ensures SpectraOf(sqrt, IdentityDft, optimalSize, qimg, qlogo) == Ok(Normalised(sqrt, qimg, qimg, qlogo))
  {
    QFFT2Identity(sqrt, optimalSize, qimg, false, true);
    QFFT2Identity(sqrt, optimalSize, qimg, true, true);
    QFFT2Identity(sqrt, optimalSize, qlogo, false, false);
  }

  /** main.cpp:176-182 as the program runs it. */
  method Spectra(sqrt: real -> real, dft: Dft, optimalSize: nat -> nat, qimg: QImage, qlogo: QImage)
    returns (r: Result<(QImage, QImage, QImage)>)
    requires IsSqrt(sqrt)
    ensures r == SpectraOf(sqrt, dft, optimalSize, qimg, qlogo)
  {
    var forward := QFFT2(sqrt, dft, optimalSize, qimg, false, true);
    if forward.Err? { return Err(forward.error); }
    var inverse := QFFT2(sqrt, dft, optimalSize, qimg, true, true);
    if inverse.Err? { return Err(inverse.error); }
    var spectrum := QFFT2(sqrt, dft, optimalSize, qlogo, false, false);
    if spectrum.Err? { return Err(spectrum.error); }
    var f, fi, t := forward.value, inverse.value, spectrum.value;
    var n := f.rows * f.cols;
    if n > 0 {
      SqrtPositive(sqrt, n as real);
      var sqrtnn := sqrt(n as real);
      f := QScale(1.0 / sqrtnn, f);
      fi := QScale(sqrtnn, fi);
      t := QScale(1.0 / sqrtnn, t);
    }
    r := Ok((f, fi, t));
  }

  /** main.cpp:183-202 from the three spectra: the decomposition of the template
      spectrum about mu, the cross spectrum, its normalisation, the inverse right
      transform and the magnitude. A zero pixel of the cross spectrum, where the
      program divides by zero, fails with ZeroNormPixel. */
  function CorrelationOf(sqrt: real -> real, dft: Dft, optimalSize: nat -> nat, f: QImage, fi: QImage, t: QImage)
    : (r: Result<Mat<real>>)
    requires IsSqrt(sqrt)
    ensures r.Ok? ==> forall i, j :: 0 <= i < r.value.rows && 0 <= j < r.value.cols ==> 0.0 <= r.value.cells[i][j]
    ensures r.Ok? && ShapePreserving(dft) && SameShape(f, fi) && SameShape(f, t) ==> SameShape(r.value, f)
    ensures r.Err? ==> r.error in {DftSizeNotOptimal, ShapeMismatch, ZeroNormPixel}
    ensures ShapePreserving(dft) && SameShape(f, fi) && SameShape(f, t) && Optimal(optimalSize, f) ==>
      r.Ok? || r.error == ZeroNormPixel
  {
    var mu := Mu(sqrt);
    var cross := CrossSpectrum(f, fi, ParaImage(mu, t), OrthoImage(mu, t));
    if cross.Err? then Err(cross.error)
    else if HasZeroPixel(cross.value) then Err(ZeroNormPixel)
    else
      var corr := QFFT2(sqrt, dft, optimalSize, UnitaryImage(sqrt, cross.value), true, false);
      if corr.Err? then Err(corr.error) else Ok(Magnitude(sqrt, corr.value))
  }

  /** With the identity in place of cv::dft, every value of a surface is 1: the
      normalised cross spectrum has unit pixels and the transforms change nothing. */
  lemma CorrelationFlat(sqrt: real -> real, optimalSize: nat -> nat, f: QImage, fi: QImage, t: QImage)
    requires IsSqrt(sqrt)
    requires CorrelationOf(sqrt, IdentityDft, optimalSize, f, fi, t).Ok?
    ensures var c := CorrelationOf(sqrt, IdentityDft, optimalSize, f, fi, t).value;
      forall i, j :: 0 <= i < c.rows && 0 <= j < c.cols ==> c.cells[i][j] == 1.0
  {
    var mu := Mu(sqrt);
    var cross := CrossSpectrum(f, fi, ParaImage(mu, t), OrthoImage(mu, t)).value;
    var u := UnitaryImage(sqrt, cross);
    QFFT2Identity(sqrt, optimalSize, u, true, false);
    forall i, j | 0 <= i < u.rows && 0 <= j < u.cols
      ensures Norm2(u.cells[i][j]) == 1.0
    {
      UnitaryImageUnit(sqrt, cross, i, j);
    }
    MagnitudeOfUnit(sqrt, u);
  }

  /** main.cpp:183-202 as the program runs it. */
  method Correlate(sqrt: real -> real, dft: Dft, optimalSize: nat -> nat, f: QImage, fi: QImage, t: QImage)
    returns (r: Result<Mat<real>>)
    requires IsSqrt(sqrt)
    ensures r == CorrelationOf(sqrt, dft, optimalSize, f, fi, t)
  {
    var mu := Matrix(1, 1, [[Mu(sqrt)]]);
    var para, ortho := Decompose(mu, t);
    var cross := CrossSpectrum(f, fi, para, ortho);
    if cross.Err? { return Err(cross.error); }
    var pwsp := cross.value;
    if HasZeroPixel(pwsp) { return Err(ZeroNormPixel); }
    var unitary := Unitary(sqrt, pwsp);
    var corr := QFFT2(sqrt, dft, optimalSize, unitary, true, false);
    if corr.Err? { return Err(corr.error); }
    r := Ok(Magnitude(sqrt, corr.value));
  }

  /** colorMatchTemplate (main.cpp:155-204). dft and optimalSize stand for cv::dft
      and cv::getOptimalDFTSize. The surface is rr-by-cc and non-negative. It
      fails with WrongChannelCount exactly when an input is not Copyable,
      otherwise only where an OpenCV assertion would stop the program
      or with ZeroNormPixel where the program would divide by a zero norm. */
  function MatchSurface(sqrt: real -> real, dft: Dft, optimalSize: nat -> nat,
                        image: ChannelImage, templ: ChannelImage): (r: Result<Mat<real>>)
    requires IsSqrt(sqrt) && Covering(optimalSize)
    ensures r.Ok? ==> forall i, j :: 0 <= i < r.value.rows && 0 <= j < r.value.cols ==> 0.0 <= r.value.cells[i][j]
    ensures r.Ok? && ShapePreserving(dft) ==>
      r.value.rows == PaddedSize(optimalSize, image.px.rows, templ.px.rows) &&
      r.value.cols == PaddedSize(optimalSize, image.px.cols, templ.px.cols)
    ensures r.Err? ==> r.error in {WrongChannelCount, DftSizeNotOptimal, ShapeMismatch, ZeroNormPixel}
    ensures r == Err(WrongChannelCount) <==> !Copyable(image) || !Copyable(templ)
  {
    var padded := PaddedPair(optimalSize, image, templ);
    if padded.Err? then Err(padded.error)
    else
      var spectra := SpectraOf(sqrt, dft, optimalSize, padded.value.0, padded.value.1);
      if spectra.Err? then Err(spectra.error)
      else CorrelationOf(sqrt, dft, optimalSize, spectra.value.0, spectra.value.1, spectra.value.2)
  }

  /** With Copyable inputs, a size-preserving DFT and an idempotent
      getOptimalDFTSize, the only failure left is a zero pixel of the cross
      spectrum. */
  lemma MatchSurfaceSucceeds(sqrt: real -> real, dft: Dft, optimalSize: nat -> nat,
                             image: ChannelImage, templ: ChannelImage)
    requires IsSqrt(sqrt) && Covering(optimalSize) && Settled(optimalSize) && ShapePreserving(dft)
    requires Copyable(image) && Copyable(templ)
    ensures MatchSurface(sqrt, dft, optimalSize, image, templ).Ok? ||
      MatchSurface(sqrt, dft, optimalSize, image, templ).error == ZeroNormPixel
  {
    SettledPadding(optimalSize, image.px.rows, templ.px.rows);
    SettledPadding(optimalSize, image.px.cols, templ.px.cols);
  }

  /** With the identity in place of cv::dft, every value of the surface is 1. */
  lemma MatchSurfaceFlat(sqrt: real -> real, optimalSize: nat -> nat, image: ChannelImage, templ: ChannelImage)
    requires IsSqrt(sqrt) && Covering(optimalSize)
    requires MatchSurface(sqrt, IdentityDft, optimalSize, image, templ).Ok?
    ensures var c := MatchSurface(sqrt, IdentityDft, optimalSize, image, templ).value;
      forall i, j :: 0 <= i < c.rows && 0 <= j < c.cols ==> c.cells[i][j] == 1.0
  {
    var padded := PaddedPair(optimalSize, image, templ).value;
    var spectra := SpectraOf(sqrt, IdentityDft, optimalSize, padded.0, padded.1).value;
    CorrelationFlat(sqrt, optimalSize, spectra.0, spectra.1, spectra.2);
  }

  /** colorMatchTemplate (main.cpp:155-204) as the program runs it. */
  method ColorMatchTemplate(sqrt: real -> real, dft: Dft, optimalSize: nat -> nat,
                            image: ChannelImage, templ: ChannelImage) returns (r: Result<Mat<real>>)
    requires IsSqrt(sqrt) && Covering(optimalSize)
    ensures r == MatchSurface(sqrt, dft, optimalSize, image, templ)
  {
    var padded := PadAndEmbed(optimalSize, image, templ);
    if padded.Err? { return Err(padded.error); }
    var qimg, qlogo := padded.value.0, padded.value.1;
    var spectra := Spectra(sqrt, dft, optimalSize, qimg, qlogo);
    if spectra.Err? { return Err(spectra.error); }
    var f, fi, t := spectra.value.0, spectra.value.1, spectra.value.2;
    r := Correlate(sqrt, dft, optimalSize, f, fi, t);
  }

  // A settled getOptimalDFTSize leaves the padded size as it is.
  lemma SettledPadding(optimalSize: nat -> nat, a: nat, b: nat)
    requires Settled(optimalSize)
    ensures optimalSize(PaddedSize(optimalSize, a, b)) == PaddedSize(optimalSize, a, b)
  {
    assert optimalSize(optimalSize(a)) == optimalSize(a);
    assert optimalSize(optimalSize(b)) == optimalSize(b);
  }
}
