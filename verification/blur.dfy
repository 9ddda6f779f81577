/** The Gaussian blur: a kernel sampled from exp(-i^2 / (2 sigma^2)) and
    normalised to sum 1, applied along the rows and then down the columns with
    clamped reads. */
module Blur {
  import opened CvErrors
  import opened Images
  import opened Sums
  import opened Filters

  /** The exponential function the kernel is sampled from. Only its
      positivity is relied on; its exact values are left open. */
  type Exp = f: real -> real | forall x :: f(x) > 0.0 witness (x: real) => 1.0

  /** A sampled Gaussian: `size` weights with the peak at index `center`. */
  datatype Kernel = Kernel(weights: seq<real>, size: int, center: int)

  /** What the kernel computation guarantees: an odd number of positive
      weights, centred, symmetric about the centre, summing to 1. */
  predicate ValidKernel(k: Kernel) {
    && |k.weights| == k.size
    && k.size >= 1 && k.size % 2 == 1
    && k.center == k.size / 2
    && (forall t | 0 <= t < k.size :: k.weights[t] > 0.0)
    && Symmetric(k.weights)
    && Total(k.weights) == 1.0
  }

  /** A kernel that averages: non-negative weights summing to 1. */
  predicate Averaging(k: Kernel) {
    && |k.weights| == k.size
    && (forall t | 0 <= t < k.size :: k.weights[t] >= 0.0)
    && Total(k.weights) == 1.0
  }

  /** A sequence that reads the same from either end. */
  predicate Symmetric(s: seq<real>) {
    forall i, j | 0 <= i < |s| && 0 <= j < |s| && i + j == |s| - 1 :: s[i] == s[j]
  }

  // ---------------------------------------------------------------------------
  // The kernel

  /** The kernel size for sigma: ceil(6 sigma), raised to the next odd number. */
  function KernelSize(sigma: real): (n: int)
    requires sigma > 0.0
    ensures n >= 1 && n % 2 == 1
    ensures 6.0 * sigma <= n as real < 6.0 * sigma + 2.0
    ensures forall m: int | m % 2 == 1 && 6.0 * sigma <= m as real :: n <= m
  {
    var n := Ceil(6.0 * sigma);
    if n % 2 == 0 then n + 1 else n
  }

  /** The integer square i * i, built up by odd increments from 0 so that
      unfolding it never multiplies two unknowns. */
  function Square(i: int): int
    decreases if i < 0 then -i else i
  {
    if i == 0 then 0
    else if i > 0 then Square(i - 1) + 2 * i - 1
    else Square(i + 1) - 2 * i - 1
  }

  lemma {:induction false} SquareIsProduct(i: int)
    ensures Square(i) == i * i
    decreases if i < 0 then -i else i
  {
    if i > 0 {
      SquareIsProduct(i - 1);
    } else if i < 0 {
      SquareIsProduct(i + 1);
    }
  }

  /** The unnormalised weight at offset i from the centre:
      exp(-(i*i) / (2 sigma^2)), the square taken in integers. */
  function RawWeight(exp: Exp, sigma: real, i: int): real
    requires sigma > 0.0
  {
    exp((-Square(i)) as real / (2.0 * sigma * sigma))
  }

  /** The unnormalised weights, index t holding offset t - center. */
  function RawWeights(exp: Exp, sigma: real, size: nat, center: int): (raw: seq<real>)
    requires sigma > 0.0
    ensures |raw| == size
  {
    seq(size, t => RawWeight(exp, sigma, t - center))
  }

  /** Every element divided by `s`. */
  function Divided(s: seq<real>, d: real): (r: seq<real>)
    requires d != 0.0
    ensures |r| == |s|
  {
    seq(|s|, t requires 0 <= t < |s| => s[t] / d)
  }

  /** The kernel for a positive sigma: the size is ceil(6 sigma) made odd,
      the centre is size / 2, and the weight at index center + i is
      exp(-(i*i) / (2 sigma^2)) divided by the sum of all of them, summed for
      i from -(size / 2) up to size / 2. */
  function Gaussian(exp: Exp, sigma: real): (k: Kernel)
    requires sigma > 0.0
    ensures k.size == KernelSize(sigma) && k.center == k.size / 2
  {
    var size := KernelSize(sigma);
    var raw := RawWeights(exp, sigma, size, size / 2);
    RawTotalPositive(exp, sigma, size, size / 2);
    Kernel(Divided(raw, Total(raw)), size, size / 2)
  }

  /** The static `GaussianKernel(kernel, size, center, sigma)`: a
      non-positive sigma is rejected; otherwise the kernel above. The weights
      live in a size x 1 x 1 image whose allocation cannot fail, as the size
      is positive; that allocation is not modelled. */
  function GaussianKernel(sigma: real, exp: Exp): (r: Result<Kernel>)
    ensures r.Failure? <==> sigma <= 0.0
    ensures r.Failure? ==> r.error == Input
    ensures r.Success? ==> ValidKernel(r.value) && r.value == Gaussian(exp, sigma)
  {
    if sigma > 0.0 then
      KernelIsValid(exp, sigma);
      Success(Gaussian(exp, sigma))
    else
      Failure(Input)
  }

  /** The raw weights are positive and so is their sum. */
  lemma RawTotalPositive(exp: Exp, sigma: real, size: nat, center: int)
    requires sigma > 0.0 && size >= 1
    ensures forall t | 0 <= t < size :: RawWeights(exp, sigma, size, center)[t] > 0.0
    ensures Total(RawWeights(exp, sigma, size, center)) > 0.0
  {
    var raw := RawWeights(exp, sigma, size, center);
    forall t | 0 <= t < size
      ensures raw[t] > 0.0 && Elems(raw)(t) > 0.0
    {
      RawWeightPositive(exp, sigma, t - center);
      assert Elems(raw)(t) == raw[t];
    }
    SumPositive(Elems(raw), 0, size);
  }

  lemma RawWeightPositive(exp: Exp, sigma: real, i: int)
    requires sigma > 0.0
    ensures RawWeight(exp, sigma, i) > 0.0
  {
  }

  /** Offsets i and -i give the same raw weight. */
  lemma RawWeightEven(exp: Exp, sigma: real, i: int)
    requires sigma > 0.0
    ensures RawWeight(exp, sigma, -i) == RawWeight(exp, sigma, i)
  {
    SquareEven(i);
  }

  lemma {:induction false} SquareEven(i: int)
    ensures Square(-i) == Square(i)
    decreases if i < 0 then -i else i
  {
    if i > 0 {
      SquareEven(i - 1);
    } else if i < 0 {
      SquareEven(i + 1);
    }
  }

  /** Dividing by the positive sum keeps the weights positive and makes
      them sum to 1. */
  lemma DividedByTotal(raw: seq<real>)
    requires forall t | 0 <= t < |raw| :: raw[t] > 0.0
    requires Total(raw) > 0.0
    ensures forall t | 0 <= t < |raw| :: Divided(raw, Total(raw))[t] > 0.0
    ensures Total(Divided(raw, Total(raw))) == 1.0
  {
    var s := Total(raw);
    var w := Divided(raw, s);
    forall t | 0 <= t < |raw|
      ensures Elems(w)(t) == (1.0 / s) * Elems(raw)(t)
      ensures w[t] > 0.0
    {
      DivIsScale(raw[t], s);
    }
    SumScale(Elems(raw), Elems(w), 1.0 / s, 0, |raw|);
    InverseTimes(s);
  }

  lemma DivIsScale(a: real, s: real)
    requires s > 0.0
    ensures a / s == (1.0 / s) * a
    ensures a > 0.0 ==> a / s > 0.0
  {
  }

  lemma InverseTimes(s: real)
    requires s > 0.0
    ensures (1.0 / s) * s == 1.0
  {
  }

  /** The raw weights of an odd-sized kernel are symmetric about its centre. */
  lemma RawSymmetric(exp: Exp, sigma: real, size: nat, center: int)
    requires sigma > 0.0 && size == 2 * center + 1
    ensures Symmetric(RawWeights(exp, sigma, size, center))
  {
    var raw := RawWeights(exp, sigma, size, center);
    forall i, j | 0 <= i < size && 0 <= j < size && i + j == size - 1
      ensures raw[i] == raw[j]
    {
      assert j - center == -(i - center);
      RawWeightEven(exp, sigma, i - center);
    }
  }

  /** Dividing every element by one value keeps a symmetric sequence symmetric. */
  lemma DividedSymmetric(s: seq<real>, d: real)
    requires d != 0.0
    requires Symmetric(s)
    ensures Symmetric(Divided(s, d))
  {
  }

  /** The computed kernel satisfies `ValidKernel`. */
  lemma KernelIsValid(exp: Exp, sigma: real)
    requires sigma > 0.0
    ensures ValidKernel(Gaussian(exp, sigma))
  {
    var size := KernelSize(sigma);
    var raw := RawWeights(exp, sigma, size, size / 2);
    RawTotalPositive(exp, sigma, size, size / 2);
    DividedByTotal(raw);
    RawSymmetric(exp, sigma, size, size / 2);
    DividedSymmetric(raw, Total(raw));
  }

  /** The weights are the raw samples exp(-i^2 / (2 sigma^2)) over their
      positive sum: weight t is raw sample t, the one for offset t - center,
      divided by the total. */
  lemma KernelProportional(exp: Exp, sigma: real, raw: seq<real>, t: int)
    requires sigma > 0.0 && raw == RawWeights(exp, sigma, KernelSize(sigma), KernelSize(sigma) / 2)
    requires 0 <= t < |raw|
    ensures Total(raw) > 0.0 && Gaussian(exp, sigma).weights[t] == raw[t] / Total(raw)
  {
    RawTotalPositive(exp, sigma, KernelSize(sigma), KernelSize(sigma) / 2);
  }

  /** The kernel for the default sigma of 2.0 has 13 weights centred at 6. */
  lemma DefaultKernelShape(exp: Exp)
    ensures GaussianKernel(2.0, exp).Success?
    ensures GaussianKernel(2.0, exp).value.size == 13
    ensures GaussianKernel(2.0, exp).value.center == 6
  {
    assert Ceil(12.0) == 12;
  }

  // ---------------------------------------------------------------------------
  // The two passes

  /** Term t of one kernel pass over the reads f: the read at offset
      t - center times weight t. */
  function KernelTerms(f: int -> real, k: Kernel): int -> real {
    t => f(t - k.center) * At(k.weights, t)
  }

  /** One kernel pass over a line of reads, accumulated from weight 0 up. */
  function Convolve(f: int -> real, k: Kernel): real {
    Sum(KernelTerms(f, k), 0, k.size)
  }

  /** The horizontal pass of `src`, written into `tmpl`: each output sample
      is the kernel pass along its row. */
  function HorizontalPass(src: Image, tmpl: Image, k: Kernel): (r: Image)
    requires src.Readable() && tmpl.Readable() && SameShape(src, tmpl)
    ensures r.Readable() && SameShape(r, src) && r.debug == tmpl.debug
    ensures forall x, y, c | src.InBounds(x, y, c) :: GetPixel(r, x, y, c) == Convolve(RowOf(Plane(src, c), x, y), k)
  {
    Overwrite(tmpl, (x, y, c) => Convolve(RowOf(Plane(src, c), x, y), k))
  }

  /** The vertical pass of `src`, written into `tmpl`: each output sample is
      the kernel pass down its column. */
  function VerticalPass(src: Image, tmpl: Image, k: Kernel): (r: Image)
    requires src.Readable() && tmpl.Readable() && SameShape(src, tmpl)
    ensures r.Readable() && SameShape(r, src) && r.debug == tmpl.debug
    ensures forall x, y, c | src.InBounds(x, y, c) :: GetPixel(r, x, y, c) == Convolve(ColumnOf(Plane(src, c), x, y), k)
  {
    Overwrite(tmpl, (x, y, c) => Convolve(ColumnOf(Plane(src, c), x, y), k))
  }

  /** `GaussianBlur(g, sigma)`: an empty source is rejected with `g` left
      alone. Otherwise `g` and a scratch image are allocated with the
      source's dimensions before the kernel is computed, so a non-positive
      sigma is rejected only after `g` has been reallocated. On success the
      source is convolved along the rows into the scratch image and the
      scratch image down the columns into `g`. */
  function GaussianBlur(src: Image, g: Image, sigma: real, exp: Exp): (r: Updated)
    requires src.WellFormed()
    ensures src.IsEmpty() ==> r == Updated(g, Input)
    ensures !src.IsEmpty() ==> r.image.Readable() && SameShape(r.image, src) && r.image.debug == 0
    ensures r.status == NoError <==> !src.IsEmpty() && sigma > 0.0
    ensures r.status != NoError ==> r.status == Input
  {
    if src.IsEmpty() then Updated(g, Input)
    else
      var out := Allocate(g, src.width, src.height, src.channel);
      if out.status != NoError then out
      else
        var filter1D := Allocate(Init(), src.width, src.height, src.channel);
        if filter1D.status != NoError then Updated(out.image, filter1D.status)
        else
          match GaussianKernel(sigma, exp)
          case Failure(e) => Updated(out.image, e)
          case Success(k) =>
            Updated(VerticalPass(HorizontalPass(src, filter1D.image, k), out.image, k), NoError)
  }

  /** Row passes for the rows around y: offset t gives the kernel pass along
      row y + t. */
  function RowPasses(p: (int, int) -> real, k: Kernel, x: int, y: int): int -> real {
    t => Convolve(RowOf(p, x, y + t), k)
  }

  /** Kernel passes over reads that agree on the kernel's span agree. */
  lemma ConvolveExt(f: int -> real, g: int -> real, k: Kernel)
    requires forall t :: f(t) == g(t)
    ensures Convolve(f, k) == Convolve(g, k)
  {
    SumExt(KernelTerms(f, k), KernelTerms(g, k), 0, k.size);
  }

  /** Reading the horizontal pass at any row, even outside the image, gives
      the pass along that row: both reads clamp the row the same way. */
  lemma HorizontalPassAnyRow(src: Image, tmpl: Image, k: Kernel, x: int, y: int, c: int)
    requires src.Readable() && tmpl.Readable() && SameShape(src, tmpl)
    requires 0 <= x < src.width && 0 <= c < src.channel
    ensures GetPixel(HorizontalPass(src, tmpl, k), x, y, c) == Convolve(RowOf(Plane(src, c), x, y), k)
  {
    var mid := HorizontalPass(src, tmpl, k);
    var cy := Clamp(y, src.height);
    SameClampedRead(mid, x, y, x, cy, c);
    forall t
      ensures RowOf(Plane(src, c), x, cy)(t) == RowOf(Plane(src, c), x, y)(t)
    {
      SameClampedRead(src, x + t, cy, x + t, y, c);
    }
    ConvolveExt(RowOf(Plane(src, c), x, cy), RowOf(Plane(src, c), x, y), k);
  }

  /** The blurred sample is the kernel pass down the column of the kernel
      passes along the rows around it, with clamped reads throughout. */
  lemma BlurPixel(src: Image, g: Image, sigma: real, exp: Exp, x: int, y: int, c: int)
    requires src.Readable() && sigma > 0.0 && src.InBounds(x, y, c)
    ensures GetPixel(GaussianBlur(src, g, sigma, exp).image, x, y, c)
      == Convolve(RowPasses(Plane(src, c), Gaussian(exp, sigma), x, y), Gaussian(exp, sigma))
  {
    var k := Gaussian(exp, sigma);
    var f1 := Allocate(Init(), src.width, src.height, src.channel).image;
    var out := Allocate(g, src.width, src.height, src.channel).image;
    var mid := HorizontalPass(src, f1, k);
    forall t
      ensures ColumnOf(Plane(mid, c), x, y)(t) == RowPasses(Plane(src, c), k, x, y)(t)
    {
      HorizontalPassAnyRow(src, f1, k, x, y + t, c);
    }
    ConvolveExt(ColumnOf(Plane(mid, c), x, y), RowPasses(Plane(src, c), k, x, y), k);
  }

  // ---------------------------------------------------------------------------
  // Bounds: the blur is a weighted average

  /** One weighted read is at least the weighted bound. */
  lemma TermAtLeast(f: int -> real, k: Kernel, lo: real, t: int)
    requires 0 <= t < |k.weights| && k.weights[t] >= 0.0 && lo <= f(t - k.center)
    ensures Scaled(Elems(k.weights), lo)(t) <= KernelTerms(f, k)(t)
  {
    MulMonoReal(lo, f(t - k.center), k.weights[t]);
  }

  /** One weighted read is at most the weighted bound. */
  lemma TermAtMost(f: int -> real, k: Kernel, hi: real, t: int)
    requires 0 <= t < |k.weights| && k.weights[t] >= 0.0 && f(t - k.center) <= hi
    ensures KernelTerms(f, k)(t) <= Scaled(Elems(k.weights), hi)(t)
  {
    MulMonoReal(f(t - k.center), hi, k.weights[t]);
  }

  /** A kernel pass over reads that are all at least `lo` is at least `lo`:
      the weights are positive and sum to 1. */
  lemma ConvolveAtLeast(f: int -> real, k: Kernel, lo: real)
    requires Averaging(k)
    requires forall t :: lo <= f(t)
    ensures lo <= Convolve(f, k)
  {
    var w := Elems(k.weights);
    forall t | 0 <= t < k.size
      ensures Scaled(w, lo)(t) <= KernelTerms(f, k)(t)
    {
      TermAtLeast(f, k, lo, t);
    }
    SumMono(Scaled(w, lo), KernelTerms(f, k), 0, k.size);
    SumScale(w, Scaled(w, lo), lo, 0, k.size);
  }

  /** A kernel pass over reads that are all at most `hi` is at most `hi`. */
  lemma ConvolveAtMost(f: int -> real, k: Kernel, hi: real)
    requires Averaging(k)
    requires forall t :: f(t) <= hi
    ensures Convolve(f, k) <= hi
  {
    var w := Elems(k.weights);
    forall t | 0 <= t < k.size
      ensures KernelTerms(f, k)(t) <= Scaled(w, hi)(t)
    {
      TermAtMost(f, k, hi, t);
    }
    SumMono(KernelTerms(f, k), Scaled(w, hi), 0, k.size);
    SumScale(w, Scaled(w, hi), hi, 0, k.size);
  }

  /** A lower bound of a channel holds for every clamped read of it. */
  lemma PlaneAtLeast(img: Image, c: int, lo: real, x: int, y: int)
    requires img.Readable() && 0 <= c < img.channel && ChannelAtLeast(img, c, lo)
    ensures lo <= Plane(img, c)(x, y)
  {
    PlaneRead(img, c, x, y);
  }

  /** An upper bound of a channel holds for every clamped read of it. */
  lemma PlaneAtMost(img: Image, c: int, hi: real, x: int, y: int)
    requires img.Readable() && 0 <= c < img.channel && ChannelAtMost(img, c, hi)
    ensures Plane(img, c)(x, y) <= hi
  {
    PlaneRead(img, c, x, y);
  }

  /** The row passes of a channel bounded below are bounded below. */
  lemma RowPassesAtLeast(img: Image, c: int, k: Kernel, lo: real, x: int, y: int)
    requires Averaging(k)
    requires img.Readable() && 0 <= c < img.channel && ChannelAtLeast(img, c, lo)
    ensures forall t :: lo <= RowPasses(Plane(img, c), k, x, y)(t)
  {
    forall t
      ensures lo <= RowPasses(Plane(img, c), k, x, y)(t)
    {
      var line := RowOf(Plane(img, c), x, y + t);
      forall s
        ensures lo <= line(s)
      {
        PlaneAtLeast(img, c, lo, x + s, y + t);
      }
      ConvolveAtLeast(line, k, lo);
    }
  }

  /** The row passes of a channel bounded above are bounded above. */
  lemma RowPassesAtMost(img: Image, c: int, k: Kernel, hi: real, x: int, y: int)
    requires Averaging(k)
    requires img.Readable() && 0 <= c < img.channel && ChannelAtMost(img, c, hi)
    ensures forall t :: RowPasses(Plane(img, c), k, x, y)(t) <= hi
  {
    forall t
      ensures RowPasses(Plane(img, c), k, x, y)(t) <= hi
    {
      var line := RowOf(Plane(img, c), x, y + t);
      forall s
        ensures line(s) <= hi
      {
        PlaneAtMost(img, c, hi, x + s, y + t);
      }
      ConvolveAtMost(line, k, hi);
    }
  }

  /** Blurring never takes a channel below its minimum. */
  lemma BlurAtLeast(src: Image, g: Image, sigma: real, exp: Exp, c: int, lo: real)
    requires src.Readable() && sigma > 0.0 && 0 <= c < src.channel
    requires ChannelAtLeast(src, c, lo)
    ensures ChannelAtLeast(GaussianBlur(src, g, sigma, exp).image, c, lo)
  {
    var k := Gaussian(exp, sigma);
    KernelIsValid(exp, sigma);
    var out := GaussianBlur(src, g, sigma, exp).image;
    forall x, y | 0 <= x < out.width && 0 <= y < out.height
      ensures lo <= GetPixel(out, x, y, c)
    {
      BlurPixel(src, g, sigma, exp, x, y, c);
      RowPassesAtLeast(src, c, k, lo, x, y);
      ConvolveAtLeast(RowPasses(Plane(src, c), k, x, y), k, lo);
    }
  }

  /** Blurring never takes a channel above its maximum. */
  lemma BlurAtMost(src: Image, g: Image, sigma: real, exp: Exp, c: int, hi: real)
    requires src.Readable() && sigma > 0.0 && 0 <= c < src.channel
    requires ChannelAtMost(src, c, hi)
    ensures ChannelAtMost(GaussianBlur(src, g, sigma, exp).image, c, hi)
  {
    var k := Gaussian(exp, sigma);
    KernelIsValid(exp, sigma);
    var out := GaussianBlur(src, g, sigma, exp).image;
    forall x, y | 0 <= x < out.width && 0 <= y < out.height
      ensures GetPixel(out, x, y, c) <= hi
    {
      BlurPixel(src, g, sigma, exp, x, y, c);
      RowPassesAtMost(src, c, k, hi, x, y);
      ConvolveAtMost(RowPasses(Plane(src, c), k, x, y), k, hi);
    }
  }

  /** A constant channel comes out of the blur unchanged. */
  lemma BlurKeepsConstant(src: Image, g: Image, sigma: real, exp: Exp, c: int)
    requires src.Readable() && sigma > 0.0 && 0 <= c < src.channel
    requires ChannelConstant(src, c)
    ensures ChannelConstant(GaussianBlur(src, g, sigma, exp).image, c)
    ensures GetPixel(GaussianBlur(src, g, sigma, exp).image, 0, 0, c) == GetPixel(src, 0, 0, c)
  {
    var v := GetPixel(src, 0, 0, c);
    BlurAtLeast(src, g, sigma, exp, c, v);
    BlurAtMost(src, g, sigma, exp, c, v);
  }
}
