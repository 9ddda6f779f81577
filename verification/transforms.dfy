/** Image transforms: conversion to one grey channel and per-channel linear
    normalisation into a caller-chosen range. Both read the source only and
    write their output argument. */
module Transforms {
  import opened CvErrors
  import opened Images
  import opened Sums

  // ---------------------------------------------------------------------------
  // Grey conversion

  /** The grey value of pixel (x, y) of a three-channel image. The weights are
      the library's own (0.144, 0.587, 0.299 for channels 0, 1, 2), which sum
      to 1.03 rather than 1. */
  function GrayOf(src: Image, x: int, y: int): real
    requires src.Readable()
  {
    0.144 * GetPixel(src, x, y, 0) + 0.587 * GetPixel(src, x, y, 1) + 0.299 * GetPixel(src, x, y, 2)
  }

  /** `RGB2Gray(image)`: three channels give a one-channel image of the same
      width and height; one channel gives an exact copy; any other channel
      count is rejected and the output is left alone. */
  function RGB2Gray(src: Image, image: Image): (r: Updated)
    requires src.WellFormed() && (src.Dangling() ==> src.channel != 1 && src.channel != 3)
    ensures src.channel == 3 ==>
      && r.status == NoError && r.image.Readable() && r.image.debug == 0
      && r.image.width == src.width && r.image.height == src.height && r.image.channel == 1
      && forall x, y | 0 <= x < src.width && 0 <= y < src.height ::
           GetPixel(r.image, x, y, 0) == GrayOf(src, x, y)
    ensures src.channel == 1 ==> r.status == NoError && r.image == src
    ensures src.channel != 1 && src.channel != 3 ==> r == Updated(image, Input)
  {
    if src.channel == 3 then
      var a := Allocate(image, src.width, src.height, 1);
      if a.status != NoError then a
      else Updated(Overwrite(a.image, (x, y, c) => GrayOf(src, x, y)), NoError)
    else if src.channel == 1 then
      var copy := CopyAssign(image, src);
      if copy.IsEmpty() then Updated(copy, Memory) else Updated(copy, NoError)
    else
      Updated(image, Input)
  }

  /** A moved-from image keeps its channel count; when that count is neither
      1 nor 3 the conversion rejects it before any sample is read. */
  lemma MovedFromGrayRejected(img: Image, image: Image)
    requires img.Readable() && img.channel != 1 && img.channel != 3
    ensures MoveConstruct(img).source.Dangling()
    ensures RGB2Gray(MoveConstruct(img).source, image) == Updated(image, Input)
  {
  }

  /** Converting a grey result again returns it unchanged: the conversion is
      idempotent on every image it accepts. */
  lemma GrayIsIdempotent(src: Image, out1: Image, out2: Image)
    requires src.WellFormed() && !src.Dangling()
    requires src.channel == 1 || src.channel == 3
    ensures var g := RGB2Gray(src, out1).image;
      g.WellFormed() && !g.Dangling() && RGB2Gray(g, out2) == Updated(g, NoError)
  {
  }

  /** A pixel whose three channels hold the same value v becomes 1.03 v, not v:
      the weights differ from the usual luma weights 0.299, 0.587, 0.114. */
  lemma GrayOfNeutralPixel(src: Image, x: int, y: int, v: real)
    requires src.Readable() && src.channel == 3
    requires GetPixel(src, x, y, 0) == v && GetPixel(src, x, y, 1) == v && GetPixel(src, x, y, 2) == v
    ensures GrayOf(src, x, y) == 1.03 * v
  {
  }

  // ---------------------------------------------------------------------------
  // Per-channel extremes

  /** Sample p of channel c in raster order (row y = p / W, column x = p % W). */
  function Sample(img: Image, c: int, p: int): real
    requires img.Readable()
  {
    GetPixel(img, p % img.width, p / img.width, c)
  }

  /** Raster position y*W + x names pixel (x, y). */
  lemma SampleAtRaster(img: Image, c: int, x: int, y: int)
    requires img.Readable() && 0 <= x < img.width && 0 <= y < img.height
    ensures 0 <= y * img.width + x < img.width * img.height
    ensures Sample(img, c, y * img.width + x) == GetPixel(img, x, y, c)
  {
    DivModOf(y, x, img.width);
    MulMono(y, img.height - 1, img.width);
  }

  /** Raster positions below W*H name in-range pixels. */
  lemma RasterInRange(img: Image, p: int)
    requires img.Readable() && 0 <= p < img.width * img.height
    ensures 0 <= p % img.width < img.width && 0 <= p / img.width < img.height
  {
    var w := img.width;
    assert p == (p / w) * w + p % w;
    MulMono(img.height, p / w, w);
  }

  /** The least of the first n samples of channel c in raster order. */
  function MinUpTo(img: Image, c: int, n: int): (m: real)
    requires img.Readable() && n >= 1
    ensures forall p :: 0 <= p < n ==> m <= Sample(img, c, p)
    ensures exists p :: 0 <= p < n && m == Sample(img, c, p)
  {
    if n == 1 then Sample(img, c, 0)
    else
      var m := MinUpTo(img, c, n - 1);
      var v := Sample(img, c, n - 1);
      if m > v then v else m
  }

  /** The greatest of the first n samples of channel c in raster order. */
  function MaxUpTo(img: Image, c: int, n: int): (m: real)
    requires img.Readable() && n >= 1
    ensures forall p :: 0 <= p < n ==> Sample(img, c, p) <= m
    ensures exists p :: 0 <= p < n && m == Sample(img, c, p)
  {
    if n == 1 then Sample(img, c, 0)
    else
      var m := MaxUpTo(img, c, n - 1);
      var v := Sample(img, c, n - 1);
      if m < v then v else m
  }

  /** The minimum of channel c over the whole image: no pixel is below it and
      some pixel holds it. */
  function ChannelMin(img: Image, c: int): (m: real)
    requires img.Readable()
    ensures forall x, y | 0 <= x < img.width && 0 <= y < img.height :: m <= GetPixel(img, x, y, c)
    ensures exists x, y :: 0 <= x < img.width && 0 <= y < img.height && GetPixel(img, x, y, c) == m
  {
    MulMono(1, img.height, img.width);
    var n := img.width * img.height;
    var m := MinUpTo(img, c, n);
    forall x, y | 0 <= x < img.width && 0 <= y < img.height
      ensures m <= GetPixel(img, x, y, c)
    {
      SampleAtRaster(img, c, x, y);
    }
    var p :| 0 <= p < n && m == Sample(img, c, p);
    RasterInRange(img, p);
    m
  }

  /** The maximum of channel c over the whole image: no pixel is above it and
      some pixel holds it. */
  function ChannelMax(img: Image, c: int): (m: real)
    requires img.Readable()
    ensures forall x, y | 0 <= x < img.width && 0 <= y < img.height :: GetPixel(img, x, y, c) <= m
    ensures exists x, y :: 0 <= x < img.width && 0 <= y < img.height && GetPixel(img, x, y, c) == m
  {
    MulMono(1, img.height, img.width);
    var n := img.width * img.height;
    var m := MaxUpTo(img, c, n);
    forall x, y | 0 <= x < img.width && 0 <= y < img.height
      ensures GetPixel(img, x, y, c) <= m
    {
      SampleAtRaster(img, c, x, y);
    }
    var p :| 0 <= p < n && m == Sample(img, c, p);
    RasterInRange(img, p);
    m
  }

  /** A channel's minimum equals its maximum exactly when the channel is
      constant. */
  lemma FlatChannelIffNoSpread(img: Image, c: int)
    requires img.Readable()
    ensures ChannelMin(img, c) == ChannelMax(img, c) <==> ChannelConstant(img, c)
  {
    var lo, hi := ChannelMin(img, c), ChannelMax(img, c);
    assert lo <= GetPixel(img, 0, 0, c) <= hi;
    if ChannelConstant(img, c) {
      var x, y :| 0 <= x < img.width && 0 <= y < img.height && GetPixel(img, x, y, c) == lo;
      var x', y' :| 0 <= x' < img.width && 0 <= y' < img.height && GetPixel(img, x', y', c) == hi;
    }
  }

  // ---------------------------------------------------------------------------
  // Normalisation

  /** The normalised image, the status, and the channels whose minimum equals
      their maximum. Every sample of such a channel is 0/0 in floating point,
      which is not a number; the model stores 0.0 in its place and records the
      channel here. */
  datatype Normalized = Normalized(image: Image, status: CVError, nanChannels: set<int>)

  /** Linear map of [lo, hi] onto [lower, upper]. */
  function Remap(v: real, lo: real, hi: real, lower: real, upper: real): real
    requires lo != hi
  {
    (v - lo) / (hi - lo) * (upper - lower) + lower
  }

  /** Remap sends lo to lower and hi to upper. */
  lemma RemapEnds(lo: real, hi: real, lower: real, upper: real)
    requires lo < hi
    ensures Remap(lo, lo, hi, lower, upper) == lower
    ensures Remap(hi, lo, hi, lower, upper) == upper
  {
    var d := hi - lo;
    assert (lo - lo) / d == 0.0;
    assert (hi - lo) / d == 1.0;
  }

  /** Remap keeps the order of values when lower <= upper. */
  lemma RemapMono(v: real, w: real, lo: real, hi: real, lower: real, upper: real)
    requires lo < hi && lower <= upper && v <= w
    ensures Remap(v, lo, hi, lower, upper) <= Remap(w, lo, hi, lower, upper)
  {
    var d := hi - lo;
    DivMono(v - lo, w - lo, d);
    MulMonoReal((v - lo) / d, (w - lo) / d, upper - lower);
  }

  /** Remap sends [lo, hi] into [lower, upper]. */
  lemma RemapBounded(v: real, lo: real, hi: real, lower: real, upper: real)
    requires lo < hi && lower <= upper && lo <= v <= hi
    ensures lower <= Remap(v, lo, hi, lower, upper) <= upper
  {
    RemapEnds(lo, hi, lower, upper);
    RemapMono(lo, v, lo, hi, lower, upper);
    RemapMono(v, hi, lo, hi, lower, upper);
  }

  lemma DivMono(a: real, b: real, d: real)
    requires d > 0.0 && a <= b
    ensures a / d <= b / d
  {
    assert b / d - a / d == (b - a) / d;
  }


  /** The output sample for pixel (x, y) of channel c. */
  function NormalizedSample(src: Image, x: int, y: int, c: int, lower: real, upper: real): real
    requires src.Readable()
  {
    var lo, hi := ChannelMin(src, c), ChannelMax(src, c);
    if lo == hi then 0.0 else Remap(GetPixel(src, x, y, c), lo, hi, lower, upper)
  }

  /** `Normalize(image, lowerBoundary, upperBoundary)`: allocates the output
      with the source's dimensions (an empty source has zero dimensions, so
      that allocation is what rejects it), then maps each channel's
      [min, max] linearly onto [lower, upper]. */
  function Normalize(src: Image, image: Image, lower: real, upper: real): (r: Normalized)
    requires src.WellFormed() && !src.Dangling()
    ensures r.status == Input <==> src.IsEmpty()
    ensures r.status != Input ==> r.status == NoError
    ensures src.IsEmpty() ==> r.image == image && r.nanChannels == {}
    ensures r.status == NoError ==>
      && r.image.Readable() && SameShape(r.image, src) && r.image.debug == 0
      && (forall c :: c in r.nanChannels <==> 0 <= c < src.channel && ChannelConstant(src, c))
      && (forall x, y, c | src.InBounds(x, y, c) && c !in r.nanChannels ::
            GetPixel(r.image, x, y, c) == Remap(GetPixel(src, x, y, c), ChannelMin(src, c), ChannelMax(src, c), lower, upper))
  {
    var a := Allocate(image, src.width, src.height, src.channel);
    if a.status != NoError then Normalized(image, a.status, {})
    else
      var nan := set c | 0 <= c < src.channel && ChannelMin(src, c) == ChannelMax(src, c);
      forall c | 0 <= c < src.channel
        ensures c in nan <==> ChannelConstant(src, c)
      {
        FlatChannelIffNoSpread(src, c);
      }
      var f := (x, y, c) => NormalizedSample(src, x, y, c, lower, upper);
      var out := Overwrite(a.image, f);
      assert forall x, y, c | src.InBounds(x, y, c) && c !in nan ::
        GetPixel(out, x, y, c) == Remap(GetPixel(src, x, y, c), ChannelMin(src, c), ChannelMax(src, c), lower, upper) by {
        forall x, y, c | src.InBounds(x, y, c) && c !in nan
          ensures GetPixel(out, x, y, c) == Remap(GetPixel(src, x, y, c), ChannelMin(src, c), ChannelMax(src, c), lower, upper)
        {
          assert a.image.InBounds(x, y, c);
          assert GetPixel(out, x, y, c) == f(x, y, c);
        }
      }
      Normalized(out, NoError, nan)
  }

  /** On a channel that is not constant the output channel is the remap of
      the source channel from [min, max]. */
  lemma NormalizedChannel(src: Image, image: Image, lower: real, upper: real, c: int)
    requires src.Readable() && 0 <= c < src.channel
    requires !ChannelConstant(src, c)
    ensures var r := Normalize(src, image, lower, upper);
      && r.status == NoError && r.image.Readable() && SameShape(r.image, src) && c !in r.nanChannels
      && ChannelMin(src, c) < ChannelMax(src, c)
      && forall x, y | 0 <= x < src.width && 0 <= y < src.height ::
           GetPixel(r.image, x, y, c) == Remap(GetPixel(src, x, y, c), ChannelMin(src, c), ChannelMax(src, c), lower, upper)
  {
    FlatChannelIffNoSpread(src, c);
    var r := Normalize(src, image, lower, upper);
    assert forall x, y | 0 <= x < src.width && 0 <= y < src.height :: src.InBounds(x, y, c);
  }

  /** One output sample of a channel that is not constant. */
  lemma NormalizedPixel(src: Image, image: Image, lower: real, upper: real, x: int, y: int, c: int)
    requires src.Readable() && src.InBounds(x, y, c)
    requires ChannelMin(src, c) < ChannelMax(src, c)
    ensures GetPixel(Normalize(src, image, lower, upper).image, x, y, c) ==
      Remap(GetPixel(src, x, y, c), ChannelMin(src, c), ChannelMax(src, c), lower, upper)
  {
  }

  /** On a channel that is not constant, the darkest pixel maps to `lower`. */
  lemma NormalizeHitsLower(src: Image, image: Image, lower: real, upper: real, c: int)
    requires src.Readable() && 0 <= c < src.channel
    requires !ChannelConstant(src, c)
    ensures exists x, y ::
      0 <= x < src.width && 0 <= y < src.height && GetPixel(Normalize(src, image, lower, upper).image, x, y, c) == lower
  {
    var lo, hi := ChannelMin(src, c), ChannelMax(src, c);
    FlatChannelIffNoSpread(src, c);
    RemapEnds(lo, hi, lower, upper);
    var x, y :| 0 <= x < src.width && 0 <= y < src.height && GetPixel(src, x, y, c) == lo;
    NormalizedPixel(src, image, lower, upper, x, y, c);
  }

  /** On a channel that is not constant, the brightest pixel maps to `upper`. */
  lemma NormalizeHitsUpper(src: Image, image: Image, lower: real, upper: real, c: int)
    requires src.Readable() && 0 <= c < src.channel
    requires !ChannelConstant(src, c)
    ensures exists x, y ::
      0 <= x < src.width && 0 <= y < src.height && GetPixel(Normalize(src, image, lower, upper).image, x, y, c) == upper
  {
    var lo, hi := ChannelMin(src, c), ChannelMax(src, c);
    FlatChannelIffNoSpread(src, c);
    RemapEnds(lo, hi, lower, upper);
    var x, y :| 0 <= x < src.width && 0 <= y < src.height && GetPixel(src, x, y, c) == hi;
    NormalizedPixel(src, image, lower, upper, x, y, c);
  }

  /** With lower <= upper, every output sample of a channel that is not
      constant lies in [lower, upper], and the map keeps the order of the
      source samples. */
  lemma NormalizeOrderPreserving(src: Image, image: Image, lower: real, upper: real, c: int)
    requires src.Readable() && 0 <= c < src.channel && lower <= upper
    requires !ChannelConstant(src, c)
    ensures var r := Normalize(src, image, lower, upper);
      && (forall x, y | 0 <= x < src.width && 0 <= y < src.height ::
            lower <= GetPixel(r.image, x, y, c) <= upper)
      && (forall x, y, x', y' |
            0 <= x < src.width && 0 <= y < src.height && 0 <= x' < src.width && 0 <= y' < src.height &&
            GetPixel(src, x, y, c) <= GetPixel(src, x', y', c) ::
            GetPixel(r.image, x, y, c) <= GetPixel(r.image, x', y', c))
  {
    NormalizedChannel(src, image, lower, upper, c);
    var r := Normalize(src, image, lower, upper);
    var lo, hi := ChannelMin(src, c), ChannelMax(src, c);
    forall x, y | 0 <= x < src.width && 0 <= y < src.height
      ensures lower <= GetPixel(r.image, x, y, c) <= upper
    {
      RemapBounded(GetPixel(src, x, y, c), lo, hi, lower, upper);
    }
    forall x, y, x', y' |
      0 <= x < src.width && 0 <= y < src.height && 0 <= x' < src.width && 0 <= y' < src.height &&
      GetPixel(src, x, y, c) <= GetPixel(src, x', y', c)
      ensures GetPixel(r.image, x, y, c) <= GetPixel(r.image, x', y', c)
    {
      RemapMono(GetPixel(src, x, y, c), GetPixel(src, x', y', c), lo, hi, lower, upper);
    }
  }
}
