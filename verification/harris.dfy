/** The Harris corner detector: grey conversion, Sobel gradients, the
    per-pixel structure tensor, a Gaussian blur of the tensor, the Harris
    response det - k * trace^2, normalisation of the response to [0, 255] and
    a raster scan for responses above a threshold. */
module Harris {
  import opened CvErrors
  import opened Images
  import opened Transforms
  import opened Filters
  import opened Blur

  /** The detector's parameters: the blur's sigma, the response constant k
      and the integer threshold on the normalised response. */
  datatype HarrisParam = HarrisParam(sigma: real, k: real, thd: int)

  /** The parameters a default-constructed `HarrisParam` holds. */
  function DefaultParam(): HarrisParam {
    HarrisParam(2.0, 0.04, 200)
  }

  /** A detected corner, as (x, y). */
  type Coord = (int, int)

  // ---------------------------------------------------------------------------
  // The structure tensor

  /** Entry c of the structure tensor of the gradient (dx, dy): dx*dx,
      dx*dy and dy*dy for c = 0, 1, 2. */
  function TensorOf(dx: real, dy: real, c: int): real {
    if c == 0 then dx * dx else if c == 1 then dx * dy else dy * dy
  }

  /** The tensor image: `tmpl` (W x H x 3) with every pixel set to the
      tensor of channel 0 of the gradients at that pixel. */
  function Tensor(dX: Image, dY: Image, tmpl: Image): (r: Image)
    requires dX.Readable() && dY.Readable() && tmpl.Readable() && tmpl.channel == 3
    ensures r.Readable() && SameShape(r, tmpl) && r.debug == tmpl.debug
    ensures forall x, y, c | tmpl.InBounds(x, y, c) ::
      GetPixel(r, x, y, c) == TensorOf(GetPixel(dX, x, y, 0), GetPixel(dY, x, y, 0), c)
  {
    Overwrite(tmpl, (x, y, c) => TensorOf(GetPixel(dX, x, y, 0), GetPixel(dY, x, y, 0), c))
  }

  /** The tensor of one gradient has non-negative diagonal entries and a zero
      determinant: it is the outer product of the gradient with itself. */
  lemma TensorOfIsRankOne(dx: real, dy: real)
    ensures 0.0 <= TensorOf(dx, dy, 0) && 0.0 <= TensorOf(dx, dy, 2)
    ensures TensorOf(dx, dy, 0) * TensorOf(dx, dy, 2) == TensorOf(dx, dy, 1) * TensorOf(dx, dy, 1)
  {
  }

  /** Every pixel of the tensor image has non-negative diagonal entries. */
  lemma TensorDiagonalAt(dX: Image, dY: Image, tmpl: Image, x: int, y: int)
    requires dX.Readable() && dY.Readable() && tmpl.Readable() && tmpl.channel == 3
    requires 0 <= x < tmpl.width && 0 <= y < tmpl.height
    ensures 0.0 <= GetPixel(Tensor(dX, dY, tmpl), x, y, 0) && 0.0 <= GetPixel(Tensor(dX, dY, tmpl), x, y, 2)
  {
    assert tmpl.InBounds(x, y, 0) && tmpl.InBounds(x, y, 2);
    TensorOfIsRankOne(GetPixel(dX, x, y, 0), GetPixel(dY, x, y, 0));
  }

  /** The diagonal channels of every tensor are non-negative. */
  lemma TensorDiagonalNonNegative(dX: Image, dY: Image, tmpl: Image)
    requires dX.Readable() && dY.Readable() && tmpl.Readable() && tmpl.channel == 3
    ensures ChannelAtLeast(Tensor(dX, dY, tmpl), 0, 0.0)
    ensures ChannelAtLeast(Tensor(dX, dY, tmpl), 2, 0.0)
  {
    var t := Tensor(dX, dY, tmpl);
    forall x, y | 0 <= x < t.width && 0 <= y < t.height
      ensures 0.0 <= GetPixel(t, x, y, 0) && 0.0 <= GetPixel(t, x, y, 2)
    {
      TensorDiagonalAt(dX, dY, tmpl, x, y);
    }
  }

  /** After the blur the diagonal entries stay non-negative, so the trace of
      every blurred tensor is non-negative. */
  lemma BlurredDiagonalNonNegative(tensor: Image, g: Image, sigma: real, exp: Exp)
    requires tensor.Readable() && tensor.channel == 3 && sigma > 0.0
    requires ChannelAtLeast(tensor, 0, 0.0) && ChannelAtLeast(tensor, 2, 0.0)
    ensures ChannelAtLeast(GaussianBlur(tensor, g, sigma, exp).image, 0, 0.0)
    ensures ChannelAtLeast(GaussianBlur(tensor, g, sigma, exp).image, 2, 0.0)
  {
    BlurAtLeast(tensor, g, sigma, exp, 0, 0.0);
    BlurAtLeast(tensor, g, sigma, exp, 2, 0.0);
  }

  // ---------------------------------------------------------------------------
  // The response

  /** The Harris response of the tensor [h11 h12; h12 h22]. */
  function ResponseOf(h11: real, h12: real, h22: real, k: real): real {
    var det := h11 * h22 - h12 * h12;
    var trace := h11 + h22;
    det - k * trace * trace
  }

  /** Before the blur, the response of every pixel is never positive for
      k >= 0: a single gradient is at most an edge. */
  lemma UnblurredResponseNotPositive(dx: real, dy: real, k: real)
    requires k >= 0.0
    ensures ResponseOf(TensorOf(dx, dy, 0), TensorOf(dx, dy, 1), TensorOf(dx, dy, 2), k) <= 0.0
  {
    TensorOfIsRankOne(dx, dy);
    SingularResponseNotPositive(TensorOf(dx, dy, 0), TensorOf(dx, dy, 1), TensorOf(dx, dy, 2), k);
  }

  /** Where the tensor is singular (a straight edge or a flat patch) the
      response is never positive for k >= 0: only a tensor with two large
      eigenvalues can give a response above zero. */
  lemma SingularResponseNotPositive(h11: real, h12: real, h22: real, k: real)
    requires h11 * h22 == h12 * h12 && k >= 0.0
    ensures ResponseOf(h11, h12, h22, k) <= 0.0
  {
    var trace := h11 + h22;
    assert trace * trace >= 0.0;
    MulNonNegative(k, trace * trace);
  }

  lemma MulNonNegative(a: real, b: real)
    requires a >= 0.0 && b >= 0.0
    ensures a * b >= 0.0
  {
  }

  /** The response image: `tmpl` (W x H x 1) with each pixel set to the
      response of the blurred tensor at that pixel. */
  function Response(blurred: Image, tmpl: Image, k: real): (r: Image)
    requires blurred.Readable() && tmpl.Readable() && tmpl.channel == 1
    ensures r.Readable() && SameShape(r, tmpl) && r.debug == tmpl.debug
    ensures forall x, y | 0 <= x < tmpl.width && 0 <= y < tmpl.height ::
      GetPixel(r, x, y, 0) == ResponseOf(GetPixel(blurred, x, y, 0), GetPixel(blurred, x, y, 1), GetPixel(blurred, x, y, 2), k)
  {
    var r := Overwrite(tmpl, (x, y, c) =>
      ResponseOf(GetPixel(blurred, x, y, 0), GetPixel(blurred, x, y, 1), GetPixel(blurred, x, y, 2), k));
    assert forall x, y | 0 <= x < tmpl.width && 0 <= y < tmpl.height :: tmpl.InBounds(x, y, 0);
    r
  }

  // ---------------------------------------------------------------------------
  // The pipeline

  /** The stages of `FindFeature` up to the normalised response, each
      written into a fresh image, with the first failing stage's status. An
      empty input is rejected first; grey conversion rejects any channel
      count other than 1 and 3; the blur rejects a non-positive sigma. */
  function HarrisResponse(img: Image, param: HarrisParam, exp: Exp): (r: Normalized)
    requires img.WellFormed()
    ensures r.status == NoError <==> !img.IsEmpty() && (img.channel == 1 || img.channel == 3) && param.sigma > 0.0
    ensures r.status != NoError ==> r.status == Input
    ensures r.status == NoError ==>
      r.image.Readable() && r.image.width == img.width && r.image.height == img.height && r.image.channel == 1
  {
    if img.IsEmpty() then Normalized(Init(), Input, {})
    else
      var gray := RGB2Gray(img, Init());
      if gray.status != NoError then Normalized(Init(), gray.status, {})
      else
        var grad := Sobel(gray.image, Init(), Init());
        if grad.status != NoError then Normalized(Init(), grad.status, {})
        else
          var cov := Allocate(Init(), gray.image.width, gray.image.height, 3);
          if cov.status != NoError then Normalized(Init(), cov.status, {})
          else
            var blurred := GaussianBlur(Tensor(grad.dX, grad.dY, cov.image), Init(), param.sigma, exp);
            if blurred.status != NoError then Normalized(Init(), blurred.status, {})
            else
              var resp := Allocate(Init(), gray.image.width, gray.image.height, 1);
              if resp.status != NoError then Normalized(Init(), resp.status, {})
              else
                Normalize(Response(blurred.image, resp.image, param.k), Init(), 0.0, 255.0)
  }

  /** Pixel (x, y) is reported: its normalised response is a number (the
      response channel was not constant) above the threshold. */
  predicate Above(n: Normalized, thd: int, x: int, y: int)
    requires n.image.Readable()
  {
    0 !in n.nanChannels && GetPixel(n.image, x, y, 0) > thd as real
  }

  /** Coordinate a comes before b in a raster scan: by row, then by column. */
  predicate RasterBefore(a: Coord, b: Coord) {
    a.1 < b.1 || (a.1 == b.1 && a.0 < b.0)
  }

  /** `coords` lists exactly the in-range pixels of `n` above the threshold:
      every listed coordinate is an in-range pixel above the threshold, every
      such pixel is listed, and the list is strictly increasing in raster
      order (so it holds no duplicates). */
  predicate Reports(n: Normalized, thd: int, coords: seq<Coord>)
    requires n.image.Readable()
  {
    && (forall i | 0 <= i < |coords| ::
         0 <= coords[i].0 < n.image.width && 0 <= coords[i].1 < n.image.height && Above(n, thd, coords[i].0, coords[i].1))
    && (forall x, y | 0 <= x < n.image.width && 0 <= y < n.image.height && Above(n, thd, x, y) :: (x, y) in coords)
    && (forall i, j | 0 <= i < j < |coords| :: RasterBefore(coords[i], coords[j]))
  }

  /** The raster scan of the normalised response. */
  method ExtractCorners(n: Normalized, thd: int) returns (coords: seq<Coord>)
    requires n.image.Readable()
    ensures Reports(n, thd, coords)
  {
    var w, h := n.image.width, n.image.height;
    coords := [];
    var y := 0;
    while y < h
      invariant 0 <= y <= h
      invariant forall i | 0 <= i < |coords| ::
        0 <= coords[i].0 < w && 0 <= coords[i].1 < y && Above(n, thd, coords[i].0, coords[i].1)
      invariant forall x', y' | 0 <= x' < w && 0 <= y' < y && Above(n, thd, x', y') :: (x', y') in coords
      invariant forall i, j | 0 <= i < j < |coords| :: RasterBefore(coords[i], coords[j])
    {
      var x := 0;
      while x < w
        invariant 0 <= x <= w
        invariant forall i | 0 <= i < |coords| ::
          0 <= coords[i].0 < w && 0 <= coords[i].1 <= y && RasterBefore(coords[i], (x, y)) && Above(n, thd, coords[i].0, coords[i].1)
        invariant forall x', y' | 0 <= x' < w && (0 <= y' < y || (y' == y && 0 <= x' < x)) && Above(n, thd, x', y') :: (x', y') in coords
        invariant forall i, j | 0 <= i < j < |coords| :: RasterBefore(coords[i], coords[j])
      {
        if Above(n, thd, x, y) {
          coords := coords + [(x, y)];
        }
        x := x + 1;
      }
      y := y + 1;
    }
  }

  /** `FindFeature(img, param, result)`: the coordinates are cleared, the
      response is computed, and on success every pixel whose normalised
      response exceeds the threshold is appended in raster order. On failure
      the coordinates stay empty; an image that is constant in every channel
      yields none. */
  method FindFeature(img: Image, param: HarrisParam, exp: Exp) returns (coords: seq<Coord>, status: CVError)
    requires img.WellFormed()
    ensures status == NoError <==> !img.IsEmpty() && (img.channel == 1 || img.channel == 3) && param.sigma > 0.0
    ensures status != NoError ==> status == Input && coords == []
    ensures status == NoError ==> Reports(HarrisResponse(img, param, exp), param.thd, coords)
    ensures status == NoError && (forall c | 0 <= c < img.channel :: ChannelConstant(img, c)) ==> coords == []
  {
    var n := HarrisResponse(img, param, exp);
    if n.status != NoError {
      return [], n.status;
    }
    coords := ExtractCorners(n, param.thd);
    status := NoError;
    if forall c | 0 <= c < img.channel :: ChannelConstant(img, c) {
      FlatImageHasNoCorners(img, param, exp);
      NothingAboveNothingFound(n, param.thd, coords);
    }
  }

  // ---------------------------------------------------------------------------
  // A flat image has no corners

  /** Where no pixel is above the threshold, a list of pixels above it is
      empty. */
  lemma NothingAboveNothingFound(n: Normalized, thd: int, coords: seq<Coord>)
    requires n.image.Readable()
    ensures ((forall i | 0 <= i < |coords| :: Above(n, thd, coords[i].0, coords[i].1)) &&
             (forall x, y :: !Above(n, thd, x, y))) ==> coords == []
  {
    if |coords| > 0 {
      var p := coords[0];
    }
  }

  /** Grey conversion of an image that is constant in every channel is
      constant. */
  lemma GrayOfFlat(img: Image)
    requires img.Readable() && (img.channel == 1 || img.channel == 3)
    requires forall c | 0 <= c < img.channel :: ChannelConstant(img, c)
    ensures RGB2Gray(img, Init()).image.Readable()
    ensures ChannelConstant(RGB2Gray(img, Init()).image, 0)
  {
    var gray := RGB2Gray(img, Init()).image;
    if img.channel == 3 {
      assert ChannelConstant(img, 0) && ChannelConstant(img, 1) && ChannelConstant(img, 2);
      forall x, y | 0 <= x < gray.width && 0 <= y < gray.height
        ensures GetPixel(gray, x, y, 0) == GetPixel(gray, 0, 0, 0)
      {
        assert GrayOf(img, x, y) == GrayOf(img, 0, 0);
      }
    } else {
      assert ChannelConstant(img, 0);
    }
  }

  /** Gradients that vanish in channel 0 give a tensor whose three channels
      are zero everywhere. */
  lemma TensorOfZeroGradients(dX: Image, dY: Image, tmpl: Image, c: int)
    requires dX.Readable() && dY.Readable() && tmpl.Readable() && tmpl.channel == 3
    requires 0 <= c < 3
    requires forall x, y | 0 <= x < tmpl.width && 0 <= y < tmpl.height :: GetPixel(dX, x, y, 0) == 0.0 && GetPixel(dY, x, y, 0) == 0.0
    ensures ChannelConstant(Tensor(dX, dY, tmpl), c)
    ensures GetPixel(Tensor(dX, dY, tmpl), 0, 0, c) == 0.0
  {
    var t := Tensor(dX, dY, tmpl);
    forall x, y | 0 <= x < t.width && 0 <= y < t.height
      ensures GetPixel(t, x, y, c) == GetPixel(t, 0, 0, c)
    {
      assert tmpl.InBounds(x, y, c) && tmpl.InBounds(0, 0, c);
    }
  }

  /** A blurred tensor whose channels are constant gives a constant response. */
  lemma ResponseOfFlat(blurred: Image, tmpl: Image, k: real)
    requires blurred.Readable() && tmpl.Readable() && tmpl.channel == 1
    requires SameShape(blurred, tmpl.(channel := 3))
    requires ChannelConstant(blurred, 0) && ChannelConstant(blurred, 1) && ChannelConstant(blurred, 2)
    ensures ChannelConstant(Response(blurred, tmpl, k), 0)
  {
  }

  /** A moved-from image still has its dimensions but no store; the detector
      tests only the store, so such an image is rejected as empty and, by
      the contract of `FindFeature`, yields no coordinates. */
  lemma MovedFromImageRejected(img: Image, param: HarrisParam, exp: Exp)
    requires img.WellFormed()
    ensures HarrisResponse(MoveConstruct(img).source, param, exp).status == Input
    ensures HarrisResponse(MoveConstruct(img).source, param, exp).image == Init()
  {
  }

  /** An input that is constant in every channel has a constant response, so
      normalisation turns the whole response channel into NaN and no pixel
      is reported. */
  lemma FlatImageHasNoCorners(img: Image, param: HarrisParam, exp: Exp)
    requires img.WellFormed()
    requires HarrisResponse(img, param, exp).status == NoError
    requires forall c | 0 <= c < img.channel :: ChannelConstant(img, c)
    ensures 0 in HarrisResponse(img, param, exp).nanChannels
    ensures forall x, y :: !Above(HarrisResponse(img, param, exp), param.thd, x, y)
  {
    var gray := RGB2Gray(img, Init()).image;
    GrayOfFlat(img);
    var grad := Sobel(gray, Init(), Init());
    forall x, y | 0 <= x < gray.width && 0 <= y < gray.height
      ensures GetPixel(grad.dX, x, y, 0) == 0.0 && GetPixel(grad.dY, x, y, 0) == 0.0
    {
      SobelFlat(gray, Init(), Init(), x, y, 0);
    }
    var cov := Allocate(Init(), gray.width, gray.height, 3).image;
    var tensor := Tensor(grad.dX, grad.dY, cov);
    var blurred := GaussianBlur(tensor, Init(), param.sigma, exp).image;
    forall c | 0 <= c < 3
      ensures ChannelConstant(blurred, c)
    {
      TensorOfZeroGradients(grad.dX, grad.dY, cov, c);
      BlurKeepsConstant(tensor, Init(), param.sigma, exp, c);
    }
    var resp := Allocate(Init(), gray.width, gray.height, 1).image;
    ResponseOfFlat(blurred, resp, param.k);
  }

  /** The default sigma of 2.0 is accepted and blurs with 13 weights. */
  lemma DefaultParamKernel(exp: Exp)
    ensures DefaultParam().sigma > 0.0
    ensures GaussianKernel(DefaultParam().sigma, exp).Success?
    ensures GaussianKernel(DefaultParam().sigma, exp).value.size == 13
  {
    DefaultKernelShape(exp);
  }
}
