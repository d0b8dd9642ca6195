# Quaternion colour template matching, modelled in Dafny

This project models the quaternion core of ColorMatchTemplate (`main.cpp`). The program
matches a colour template against a colour image by quaternion phase correlation.

- Every RGB pixel becomes a pure quaternion (createQuaternionImage).
- Both images are padded to a common size that cv::dft handles well.
- Both are transformed by a one-sided quaternion Fourier transform (QFFT2), applied on
  the left or on the right as its `sideLeft` flag says (main.cpp:64-68). The image is
  transformed on the left, forward and inverse (main.cpp:176-177), and the template on
  the right (main.cpp:178). QFFT2 rewrites each quaternion in a basis that puts
  mu = (i + j + k) / sqrt 3 first, as two complex numbers, and transforms each with an
  ordinary complex DFT.
- The template spectrum is split into the part that commutes with mu and the part that
  anticommutes with it. Each part is correlated with a transform of the image (qconj and
  qmultiply).
- The cross-power spectrum is normalised pixel by pixel (qunitary).
- The magnitude of its inverse transform is the matching surface.

All arithmetic is over exact `real`s. The square root, cv::dft and cv::getOptimalDFTSize
are parameters of the model. The square root is constrained by `Roots.IsSqrt`; the DFT and
the size function only by the predicates named in the contracts that use them.

Modules, in dependency order:

- `Grid` (grid.dfy) holds matrices with explicit dimensions, the failure type and the
  result type.
- `Quaternions` (quaternions.dfy) holds one quaternion and the algebra the program relies
  on.
- `Roots` (roots.dfy) holds the square-root oracle and facts about roots.
- `Images` (images.dfy) models createQuaternionImage, qconj, qmultiply, the matrix
  arithmetic and qunitary. qunitary is an in-place loop over four `array2` planes.
- `QuaternionFourier` (qfft.dfy) models QFFT2: the basis change, its inverse and the two
  round trips.
- `ColorMatch` (colormatch.dfy) models colorMatchTemplate: padding, the mu-decomposition,
  the cross spectrum, the magnitude and the pipeline.

Where the program stops on a CV_Assert, or where OpenCV's arithmetic would reject
operands of different sizes, the model returns `Err` of a `Grid.Failure`.

The decomposition follows the code, `para = (T - mu T mu) / 2` (main.cpp:185-188). The
formula `(mu T mu + T) / 2`, sometimes written for the parallel part, gives the part that
anticommutes with mu instead. The code's formula is the commuting one:
the contract of `ColorMatch.Para` states it, and `ColorMatch.DecompositionUnique` proves that
this split is the only one.

## Model

| member | source | states |
|---|---|---|
| Quaternions.Conj | main.cpp:26-29 | the conjugate has the same squared norm, and q + conj(q) is the real 2w |
| Quaternions.Mul | main.cpp:124-127 | the Hamilton product; a real factor on either side scales the other factor by its real part |
| Quaternions.ScaleInverse | main.cpp:180-182 | scaling by u and then by k, where k u = 1, gives the quaternion back |
| Quaternions.ConjInvolution | main.cpp:26-29 | the conjugate keeps w, negates x, y and z, and conjugating twice gives the quaternion back |
| Quaternions.MulConj | main.cpp:124-127 | q conj(q) = conj(q) q = the real quaternion w^2 + x^2 + y^2 + z^2 |
| Quaternions.NotCommutative | main.cpp:124-127 | the product is not commutative: i j = k but j i = -k |
| Quaternions.UnitsSquare | main.cpp:124-127 | i^2 = j^2 = k^2 = -1 under the program's product |
| Quaternions.MulAssoc | main.cpp:124-127 | the program's product is associative, so mu T mu at main.cpp:185-186 is well defined whichever product runs first |
| Quaternions.MulSub | main.cpp:124-127 | the product distributes over subtraction on both sides |
| Quaternions.MulAdd | main.cpp:124-127 | the product distributes over addition on the left |
| Quaternions.MulHalf | main.cpp:188 | halving either factor halves the product |
| Quaternions.MulNeg | main.cpp:124-127 | negating either factor negates the product |
| Quaternions.MulMinusOne | main.cpp:124-127 | multiplying by the real -1 on either side negates |
| Quaternions.Norm2Scale | main.cpp:48-53 | scaling a quaternion by k scales its squared norm by k^2 |
| Images.Embed | main.cpp:7-18 | succeeds exactly for depth 8U, 32F or 64F with 3 channels. On success the shape is kept, w = 0 and (x, y, z) are the three channels. Otherwise it fails with UnsupportedDepth for another depth and with WrongChannelCount for an accepted depth with another channel count |
| Images.EmbedRoundTrip | main.cpp:13-17 | reading the vector part back out of an embedded image gives the channel image |
| Images.QConj | main.cpp:20-31 | same shape; every pixel is conjugated |
| Images.QConjInvolution | main.cpp:20-31 | conjugating an image twice gives it back |
| Images.QMultiply | main.cpp:112-152 | succeeds exactly when the shapes agree or either operand is 1x1. The result has the first operand's shape, except a 1x1 first operand paired with a second of another shape takes the second's. Every pixel is the Hamilton product of the corresponding (or broadcast) pixels |
| Images.BroadcastLeft | main.cpp:129-137 | a 1x1 left operand acts as the full matrix filled with its quaternion |
| Images.BroadcastRight | main.cpp:139-147 | a 1x1 right operand (with a larger left one) acts as the full matrix filled with its quaternion |
| Images.QMultiplyConj | main.cpp:112-152 | an image times its conjugate is the image of squared norms |
| Images.QAdd | main.cpp:195 | succeeds exactly on equal shapes; pixelwise sum |
| Images.QSub | main.cpp:187 | succeeds exactly on equal shapes; pixelwise difference |
| Images.QScaleInverse | main.cpp:180-182 | scaling an image by k and by 1 / k, in either order, gives it back |
| Images.SubAdd | main.cpp:187-189 | (a - b) + b = a |
| Images.QScale | main.cpp:180-182 | same shape; every pixel multiplied by the real k |
| Images.UnitPixel | main.cpp:48-53 | the normalised pixel has squared norm 1 and is a positive multiple of the input |
| Images.UnitPixelUnique | main.cpp:48-53 | a positive multiple of p has norm 1 exactly when it is the normalised pixel |
| Images.UnitaryImage | main.cpp:33-56 | qunitary image-wide on an image without zero pixels: same shape, and every pixel is the normalised pixel of the input |
| Images.UnitaryImageUnit | main.cpp:33-56 | every pixel of the normalised image has squared norm 1 and is a positive multiple of the input pixel |
| Images.Unitary | main.cpp:33-56 | the in-place loop over the four cloned planes produces the pixelwise normalised image |
| Images.NormalizeRow | main.cpp:46-54 | one row of the loop normalises that row's pixels and leaves every other plane entry as it was |
| Images.NormalizePixel | main.cpp:48-53 | d = 1 / sqrt(w^2 + x^2 + y^2 + z^2), and the four components are multiplied by d |
| Images.Merge | main.cpp:55 | the four planes merged into one quaternion image of their size, pixel (i, j) taking entry (i, j) of each plane |
| QuaternionFourier.Side | main.cpp:64-68 | c^2 = 1, and c = 1 exactly for the left transform |
| QuaternionFourier.BasisOf | main.cpp:81-84 | the coefficients 1/sqrt 2, 1/sqrt 3 and c/sqrt 6 have the squares 1/2, 1/3 and 1/6; the first two are positive, and the last times sqrt 6 is c |
| QuaternionFourier.FirstPair | main.cpp:81-82 | c1 keeps w as its real part; its imaginary part is zero exactly when x + y + z = 0, that is, when q has no component along mu |
| QuaternionFourier.SecondPair | main.cpp:83-84 | c2 is zero exactly when x = y = z, that is, when q lies in the plane of 1 and mu |
| QuaternionFourier.Recombine | main.cpp:102-105 | the rebuilt quaternion takes its real part from C1, and without C2 its vector part lies on mu |
| QuaternionFourier.RecombinePairs | main.cpp:81-84 | recombining the two complex pairs of a quaternion (main.cpp:102-105) gives the quaternion back |
| QuaternionFourier.PairsRecombine | main.cpp:102-105 | splitting a recombined quaternion (main.cpp:81-84) gives back both complex pairs |
| QuaternionFourier.Analyse | main.cpp:76-84 | both complex images keep the shape, and each pixel is the basis change of the quaternion pixel |
| QuaternionFourier.Synthesise | main.cpp:99-107 | succeeds exactly when the two complex images agree in shape, and otherwise fails with ShapeMismatch; pixelwise recombination |
| QuaternionFourier.QFFT2 | main.cpp:58-109 | fails with DftSizeNotOptimal when a dimension is not optimal, and with optimal dimensions can fail only with ShapeMismatch. For a size-preserving DFT, it succeeds with the input's shape |
| QuaternionFourier.SynthesiseAnalyse | main.cpp:76-107 | synthesis undoes analysis, image by image |
| QuaternionFourier.AnalyseSynthesise | main.cpp:76-107 | analysis undoes synthesis, image by image |
| QuaternionFourier.QFFT2Identity | main.cpp:58-109 | with the identity in place of the DFT, QFFT2 returns its input on either side and in either direction |
| QuaternionFourier.ForwardThenInverse | main.cpp:58-109 | the inverse QFFT2 of a forward QFFT2 on one side recombines the DFT's inverse-after-forward of each complex image of the basis change |
| QuaternionFourier.QFFT2RoundTrip | main.cpp:58-109 | for an invertible, size-preserving DFT, the inverse QFFT2 of the forward QFFT2 on the same side is the image |
| QuaternionFourier.CScale | main.cpp:91-97 | same shape; each complex entry multiplied by the real s |
| QuaternionFourier.RecombineScaled | main.cpp:102-105 | recombining pairs scaled by s gives the recombined quaternion scaled by s |
| QuaternionFourier.SynthesiseScaled | main.cpp:99-107 | synthesising complex images scaled by s gives the synthesised image scaled by s |
| QuaternionFourier.QFFT2UnscaledRoundTrip | main.cpp:58-109 | for a size-preserving DFT without DFT_SCALE, whose inverse after its forward transform multiplies by the number of entries, the inverse QFFT2 of the forward QFFT2 on the same side is the image multiplied by rows * cols |
| ColorMatch.PaddedSize | main.cpp:159-160 | the padded size is one of the two optimal sizes and at least both. It covers both inputs when getOptimalDFTSize never shrinks, and is itself optimal when getOptimalDFTSize is idempotent |
| ColorMatch.SettledPadding | main.cpp:159-160 | with an idempotent getOptimalDFTSize, the padded size passes QFFT2's size assertion |
| ColorMatch.Scaled | main.cpp:163 | convertTo(CV_64F, 1 / 256.) keeps the channel count and divides every channel by 256 |
| ColorMatch.PaddedPixel | main.cpp:161-166 | a padded pixel is pure; inside the input's rectangle 256 times its vector part is the input pixel, and in the padding it is zero |
| ColorMatch.PaddedQuaternions | main.cpp:161-166 | padding one input succeeds exactly when it is Copyable (3 channels, at least one row and one column), and otherwise fails with WrongChannelCount, the channel assertion copyTo makes on the fixed-type region; on success it is rr-by-cc and every pixel is PaddedPixel |
| ColorMatch.PaddedBuffer | main.cpp:161-166 | for a 3-channel input, the rr-by-cc buffer holds the scaled input in its top-left corner and black everywhere else |
| ColorMatch.PadScaled | main.cpp:161-166 | fails with WrongChannelCount exactly when the input is not Copyable. Otherwise a 64F, 3-channel, rr-by-cc image: inside the input's rectangle each channel is the input's divided by 256, every other pixel is (0, 0, 0) |
| ColorMatch.EmbedPadded | main.cpp:173-174 | createQuaternionImage of a padded buffer of a Copyable input succeeds and is the padded quaternion image of that input |
| ColorMatch.Mu | main.cpp:183 | mu is pure with three equal positive components and unit norm |
| ColorMatch.MuSquare | main.cpp:183 | mu^2 = -1 |
| ColorMatch.Para | main.cpp:185-188 | (T - mu T mu) / 2 commutes with mu whenever mu^2 = -1 |
| ColorMatch.Ortho | main.cpp:189 | para + ortho = T, and ortho anticommutes with mu whenever mu^2 = -1 |
| ColorMatch.DecompositionUnique | main.cpp:185-189 | any split of T into a part commuting with a square root of -1 and a part anticommuting with it is (para, ortho) |
| ColorMatch.ParaImage | main.cpp:185-188 | same shape as the spectrum; every pixel is the para part of the spectrum's pixel |
| ColorMatch.OrthoImage | main.cpp:189 | same shape as the spectrum; every pixel is the ortho part of the spectrum's pixel |
| ColorMatch.DecompositionSum | main.cpp:187-189 | para + ortho = T for the whole spectrum |
| ColorMatch.Decompose | main.cpp:185-189 | the program's sequence of qmultiply, subtract and halving, with qtmp and qlogopara reused, yields exactly the pixelwise para and ortho images |
| ColorMatch.CrossSpectrum | main.cpp:191-195 | with consistent shapes, succeeds with pixels conj(F) para + conj(Fi) ortho; it can fail only with ShapeMismatch |
| ColorMatch.CrossSpectrumRecombines | main.cpp:191-195 | with one spectrum F on both sides, the two cross terms add up to conj(F) T |
| ColorMatch.Magnitude | main.cpp:199-202 | same shape; each value is non-negative and its square is w^2 + x^2 + y^2 + z^2 of the pixel |
| ColorMatch.MagnitudeOfUnit | main.cpp:199-202 | an image of unit quaternions has magnitude 1 everywhere |
| ColorMatch.PaddedPair | main.cpp:157-174 | succeeds exactly when both inputs are Copyable, and otherwise fails with WrongChannelCount; both quaternion images are rr-by-cc with rr and cc at least 1, the image's pixels PaddedPixel of the image and the template's PaddedPixel of the template |
| ColorMatch.PadAndEmbed | main.cpp:157-174 | the program's buffers, copies and createQuaternionImage calls compute PaddedPair: the padded quaternion images, or its failure |
| ColorMatch.Normalised | main.cpp:179-182 | the three spectra keep their shapes; for a non-empty matrix, scaling back by sqrt(rows cols) (by 1 / sqrt(rows cols) for the inverse one) gives the unscaled spectra; an empty one is left as it is |
| ColorMatch.SpectraOf | main.cpp:176-182 | fails only with QFFT2's failures. On success both inputs had optimal sizes. For a size-preserving DFT and optimal sizes it succeeds, and the three spectra keep their shapes |
| ColorMatch.SpectraIdentity | main.cpp:176-182 | with the identity in place of cv::dft, the spectra are the normalised image (twice) and template |
| ColorMatch.Spectra | main.cpp:176-182 | the program's three QFFT2 calls and scalings compute SpectraOf |
| ColorMatch.CorrelationOf | main.cpp:183-202 | the surface is non-negative and, for a size-preserving DFT, has the spectra's shape. Failures are only DftSizeNotOptimal, ShapeMismatch or ZeroNormPixel, and for a size-preserving DFT with consistent, optimal shapes only ZeroNormPixel |
| ColorMatch.CorrelationFlat | main.cpp:183-202 | with the identity in place of cv::dft, every value of a surface is 1, the magnitude of a unit quaternion |
| ColorMatch.Correlate | main.cpp:183-202 | the program's decomposition, cross spectrum, qunitary loop, inverse QFFT2 and magnitude compute CorrelationOf |
| ColorMatch.MatchSurface | main.cpp:155-204 | the surface is non-negative and, for a size-preserving DFT, rr-by-cc. It fails with WrongChannelCount exactly when an input is not Copyable; the other failures are QFFT2's and ZeroNormPixel |
| ColorMatch.MatchSurfaceSucceeds | main.cpp:155-204 | with Copyable inputs, a size-preserving DFT and an idempotent getOptimalDFTSize, the only failure left is a zero pixel of the cross spectrum |
| ColorMatch.MatchSurfaceFlat | main.cpp:155-204 | with the identity in place of cv::dft, every value of the surface is 1 |
| ColorMatch.ColorMatchTemplate | main.cpp:155-204 | the whole program, step by step, computes MatchSurface |

## Left out

- cv::dft is the parameter `Dft`: a forward and an inverse function on complex images. What is proved about it needs only `ShapePreserving` and either `Invertible` or `UnscaledInvertible`, the latter being the convention of cv::dft without DFT_SCALE as main.cpp:91-97 calls it. Its computation is not modelled.
- cv::getOptimalDFTSize is a parameter `nat -> nat`. The pipeline requires that it never shrinks (`Covering`). Its results for particular sizes are not modelled.
- The square root (std::sqrt, cv::sqrt) is a parameter constrained by `Roots.IsSqrt`.
- Floating point is not modelled. Rounding is left out, and so are the NaN and infinities that `1 / sqrt(0)` produces in qunitary. A zero pixel of the cross spectrum makes the model return `Err(ZeroNormPixel)` where the program would go on with NaN.
- A division `x / sqrt n` is modelled as `x * (1 / sqrt n)`, which is equal over the reals.
- The factor c of the right or left transform is folded into the 1/sqrt 6 coefficient of `QuaternionFourier.Basis`.
- The depth, dims and channel-count assertions of qconj, qunitary, qmultiply and QFFT2 hold by construction: a `QImage` is a two-dimensional, 4-channel double matrix. createQuaternionImage's `dims() == 2` also holds by construction, since a `ChannelImage` is two-dimensional. The depth and channel assertions modelled are createQuaternionImage's and the one copyTo makes when a 3-channel region receives an input.
- qunitary walks the planes with one flat pointer. The model walks them row by row in the same row-major order.
- split is not modelled as a separate operation, and merge only where qunitary rebuilds its image from the four planes (`Images.Merge`). An image is a matrix of quaternions, and the per-plane arithmetic is written per pixel.
- `rows * cols` at main.cpp:179 is not modelled as 32-bit int overflow; the product is exact.
- `Normalised` leaves an empty matrix unscaled. The pipeline never gives it one: copyTo rejects empty inputs, and the padded sizes are at least the inputs' sizes. The case exists only because `Covering` allows `optimalSize(0) == 0`, where cv::getOptimalDFTSize(0) is 1.
- Empty matrices are modelled as ordinary images in qconj, qmultiply, qunitary, createQuaternionImage and QFFT2: the model maps over no pixels. In the source, split of an empty matrix returns no planes, and these functions then read a missing plane.
- The unused `mean(logo)` of main.cpp:167 and the commented-out subtractions are left out.
- The user interface, the trackbar callbacks, main and the test helpers of main.cpp are not part of this model. So are image loading and display.
- ColorMatch.PadScaled: the channel count is checked before the buffer is allocated; the program allocates it, converts the input and stops in copyTo. The outcome is the same.
- ColorMatch.MatchSurface: no closed-form correlation formula is stated for the surface; its meaning is in the lemmas on QFFT2, the decomposition, the cross spectrum, the normalisation and the identity DFT.
