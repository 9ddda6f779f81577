/** The Sobel gradient pair of the library, with fixed 3-tap kernels, and
    channels viewed as planes over all of Z^2. Every read goes through the
    clamping accessor, so borders repeat the edge pixels. */
module Filters {
  import opened CvErrors
  import opened Images
  import opened Sums

  // ---------------------------------------------------------------------------
  // Channels as planes

  /** Channel c of an image as a plane over all integer coordinates: a read
      outside the image repeats the nearest edge pixel. */
  function Plane(img: Image, c: int): (int, int) -> real
    requires img.Readable()
  {
    (x, y) => GetPixel(img, x, y, c)
  }

  /** Reads along row y of a plane: offset t gives the sample at column x + t. */
  function RowOf(p: (int, int) -> real, x: int, y: int): int -> real {
    t => p(x + t, y)
  }

  /** Reads along column x of a plane: offset t gives the sample at row y + t. */
  function ColumnOf(p: (int, int) -> real, x: int, y: int): int -> real {
    t => p(x, y + t)
  }

  // ---------------------------------------------------------------------------
  // Sobel

  /** The smoothing kernel [1, 2, 1], indexed by offset -1, 0, 1. */
  function SmoothTap(t: int): real {
    if t == 0 then 2.0 else if t == -1 || t == 1 then 1.0 else 0.0
  }

  /** The derivative kernel [-1, 0, 1], indexed by offset -1, 0, 1. */
  function DerivTap(t: int): real {
    if t == -1 then -1.0 else if t == 1 then 1.0 else 0.0
  }

  /** One 3-tap pass: the reads at offsets -1, 0, 1 weighted by the kernel,
      accumulated from 0 in that order. */
  function Tap3(f: int -> real, tap: int -> real): real {
    0.0 + f(-1) * tap(-1) + f(0) * tap(0) + f(1) * tap(1)
  }

  /** The output images of the gradient filter and the status. */
  datatype Gradients = Gradients(dX: Image, dY: Image, status: CVError)

  /** A 3-tap pass down the columns of `src`, written into `tmpl`. */
  function ColumnPass(src: Image, tmpl: Image, tap: int -> real): (r: Image)
    requires src.Readable() && tmpl.Readable() && SameShape(src, tmpl)
    ensures r.Readable() && SameShape(r, src) && r.debug == tmpl.debug
    ensures forall x, y, c | src.InBounds(x, y, c) :: GetPixel(r, x, y, c) == Tap3(ColumnOf(Plane(src, c), x, y), tap)
  {
    Overwrite(tmpl, (x, y, c) => Tap3(ColumnOf(Plane(src, c), x, y), tap))
  }

  /** A 3-tap pass along the rows of `src`, written into `tmpl`. */
  function RowPass(src: Image, tmpl: Image, tap: int -> real): (r: Image)
    requires src.Readable() && tmpl.Readable() && SameShape(src, tmpl)
    ensures r.Readable() && SameShape(r, src) && r.debug == tmpl.debug
    ensures forall x, y, c | src.InBounds(x, y, c) :: GetPixel(r, x, y, c) == Tap3(RowOf(Plane(src, c), x, y), tap)
  {
    Overwrite(tmpl, (x, y, c) => Tap3(RowOf(Plane(src, c), x, y), tap))
  }

  /** `Sobel(dX, dY)`: an empty source is rejected with both outputs left
      alone. Otherwise two scratch images and both outputs are allocated with
      the source's dimensions; the first pass smooths (for dX) and
      differentiates (for dY) down the columns, the second differentiates
      (for dX) and smooths (for dY) along the rows. */
  function Sobel(src: Image, dX: Image, dY: Image): (r: Gradients)
    requires src.WellFormed()
    ensures src.IsEmpty() ==> r == Gradients(dX, dY, Input)
    ensures !src.IsEmpty() ==>
      && r.status == NoError
      && r.dX.Readable() && SameShape(r.dX, src) && r.dX.debug == 0
      && r.dY.Readable() && SameShape(r.dY, src) && r.dY.debug == 0
    ensures r.status == NoError ==> !src.IsEmpty()
  {
    if src.IsEmpty() then Gradients(dX, dY, Input)
    else
      var fx := Allocate(Init(), src.width, src.height, src.channel);
      if fx.status != NoError then Gradients(dX, dY, fx.status)
      else
        var fy := Allocate(Init(), src.width, src.height, src.channel);
        if fy.status != NoError then Gradients(dX, dY, fy.status)
        else
          var ax := Allocate(dX, src.width, src.height, src.channel);
          if ax.status != NoError then Gradients(dX, dY, ax.status)
          else
            var ay := Allocate(dY, src.width, src.height, src.channel);
            if ay.status != NoError then Gradients(ax.image, dY, ay.status)
            else
              var filterX := ColumnPass(src, fx.image, SmoothTap);
              var filterY := ColumnPass(src, fy.image, DerivTap);
              Gradients(RowPass(filterX, ax.image, DerivTap), RowPass(filterY, ay.image, SmoothTap), NoError)
  }

  // ---------------------------------------------------------------------------
  // Separable 3 x 3 windows

  /** The 3 x 3 window of plane p around (x, y), weighted by hx along the row
      and hy down the column: the sum over j, k in -1..1 of
      hx(j) * hy(k) * p(x + j, y + k). */
  function Window(p: (int, int) -> real, hx: int -> real, hy: int -> real, x: int, y: int): real {
    Sum(WindowRows(p, hx, hy, x, y), -1, 2)
  }

  /** Offset j of the window: the weighted column sum at column x + j. */
  function WindowRows(p: (int, int) -> real, hx: int -> real, hy: int -> real, x: int, y: int): int -> real {
    j => Sum(WindowTerms(p, hy, x + j, y, hx(j)), -1, 2)
  }

  /** Offset k down column x: the weighted sample at row y + k. */
  function WindowTerms(p: (int, int) -> real, hy: int -> real, x: int, y: int, wx: real): int -> real {
    k => wx * hy(k) * p(x, y + k)
  }

  /** Offset j of a row of column passes: the column pass at column x + j. */
  function ColumnTaps(p: (int, int) -> real, hy: int -> real, x: int, y: int): int -> real {
    j => Tap3(ColumnOf(p, x + j, y), hy)
  }

  lemma Sum3(f: int -> real)
    ensures Sum(f, -1, 2) == f(-1) + f(0) + f(1)
  {
    assert Sum(f, -1, 2) == Sum(f, -1, 1) + f(1);
    assert Sum(f, -1, 1) == Sum(f, -1, 0) + f(0);
    assert Sum(f, -1, 0) == Sum(f, -1, -1) + f(-1);
  }

  /** A 3-tap pass only looks at its three reads. */
  lemma Tap3Ext(f: int -> real, g: int -> real, tap: int -> real)
    requires f(-1) == g(-1) && f(0) == g(0) && f(1) == g(1)
    ensures Tap3(f, tap) == Tap3(g, tap)
  {
  }

  /** Reading a column pass at any column, even outside the image, gives the
      pass computed at that column: both reads clamp the column the same way. */
  lemma ColumnPassAnyColumn(src: Image, t1: Image, hy: int -> real, x: int, y: int, c: int)
    requires src.Readable() && t1.Readable() && SameShape(src, t1)
    requires 0 <= y < src.height && 0 <= c < src.channel
    ensures GetPixel(ColumnPass(src, t1, hy), x, y, c) == Tap3(ColumnOf(Plane(src, c), x, y), hy)
  {
    var mid := ColumnPass(src, t1, hy);
    var cx := Clamp(x, src.width);
    SameClampedRead(mid, x, y, cx, y, c);
    assert GetPixel(mid, x, y, c) == Tap3(ColumnOf(Plane(src, c), cx, y), hy);
    SameClampedRead(src, cx, y - 1, x, y - 1, c);
    SameClampedRead(src, cx, y, x, y, c);
    SameClampedRead(src, cx, y + 1, x, y + 1, c);
    Tap3Ext(ColumnOf(Plane(src, c), cx, y), ColumnOf(Plane(src, c), x, y), hy);
  }

  /** One column of the window is the column pass at that column, scaled. */
  lemma WindowColumn(p: (int, int) -> real, hy: int -> real, x: int, y: int, wx: real)
    ensures Sum(WindowTerms(p, hy, x, y, wx), -1, 2) == wx * Tap3(ColumnOf(p, x, y), hy)
  {
    Sum3(WindowTerms(p, hy, x, y, wx));
  }

  /** Summing scaled terms over -1..1 is a 3-tap pass. */
  lemma SumOfScaled(rows: int -> real, g: int -> real, tap: int -> real)
    requires rows(-1) == tap(-1) * g(-1) && rows(0) == tap(0) * g(0) && rows(1) == tap(1) * g(1)
    ensures Sum(rows, -1, 2) == Tap3(g, tap)
  {
    Sum3(rows);
  }

  /** The window is separable: a row pass over column passes. */
  lemma WindowByColumns(p: (int, int) -> real, hx: int -> real, hy: int -> real, x: int, y: int)
    ensures Window(p, hx, hy, x, y) == Tap3(ColumnTaps(p, hy, x, y), hx)
  {
    WindowColumn(p, hy, x - 1, y, hx(-1));
    WindowColumn(p, hy, x, y, hx(0));
    WindowColumn(p, hy, x + 1, y, hx(1));
    SumOfScaled(WindowRows(p, hx, hy, x, y), ColumnTaps(p, hy, x, y), hx);
  }

  /** A row pass over a column pass equals the full 3 x 3 window. */
  lemma TwoPassesAreOneWindow(src: Image, t1: Image, t2: Image, hx: int -> real, hy: int -> real, x: int, y: int, c: int)
    requires src.Readable() && t1.Readable() && t2.Readable() && SameShape(src, t1) && SameShape(src, t2)
    requires src.InBounds(x, y, c)
    ensures GetPixel(RowPass(ColumnPass(src, t1, hy), t2, hx), x, y, c) == Window(Plane(src, c), hx, hy, x, y)
  {
    var mid := ColumnPass(src, t1, hy);
    ColumnPassAnyColumn(src, t1, hy, x - 1, y, c);
    ColumnPassAnyColumn(src, t1, hy, x, y, c);
    ColumnPassAnyColumn(src, t1, hy, x + 1, y, c);
    Tap3Ext(RowOf(Plane(mid, c), x, y), ColumnTaps(Plane(src, c), hy, x, y), hx);
    WindowByColumns(Plane(src, c), hx, hy, x, y);
  }

  /** The gradients as 3 x 3 windows: dX weights columns by [-1, 0, 1] and
      rows by [1, 2, 1]; dY the other way round. */
  lemma SobelWindows(src: Image, dX: Image, dY: Image, x: int, y: int, c: int)
    requires src.Readable() && src.InBounds(x, y, c)
    ensures GetPixel(Sobel(src, dX, dY).dX, x, y, c) == Window(Plane(src, c), DerivTap, SmoothTap, x, y)
    ensures GetPixel(Sobel(src, dX, dY).dY, x, y, c) == Window(Plane(src, c), SmoothTap, DerivTap, x, y)
  {
    var fx := Allocate(Init(), src.width, src.height, src.channel).image;
    var fy := Allocate(Init(), src.width, src.height, src.channel).image;
    var ax := Allocate(dX, src.width, src.height, src.channel).image;
    var ay := Allocate(dY, src.width, src.height, src.channel).image;
    TwoPassesAreOneWindow(src, fx, ax, DerivTap, SmoothTap, x, y, c);
    TwoPassesAreOneWindow(src, fy, ay, SmoothTap, DerivTap, x, y, c);
  }

  // ---------------------------------------------------------------------------
  // Gradients of flat content

  /** A plane read is the pixel at the clamped coordinates. */
  lemma PlaneRead(img: Image, c: int, x: int, y: int)
    requires img.Readable() && 0 <= c < img.channel
    ensures Plane(img, c)(x, y) == GetPixel(img, Clamp(x, img.width), Clamp(y, img.height), c)
  {
    ReadClampsEachAxis(img, x, y, c);
  }

  /** Where every column is constant, any two reads in one column agree, even
      outside the image. */
  lemma PlaneColumnFlat(img: Image, c: int, x: int, y1: int, y2: int)
    requires img.Readable() && 0 <= c < img.channel && ColumnsConstant(img, c)
    ensures Plane(img, c)(x, y1) == Plane(img, c)(x, y2)
  {
    PlaneRead(img, c, x, y1);
    PlaneRead(img, c, x, y2);
  }

  /** Where every row is constant, any two reads in one row agree, even
      outside the image. */
  lemma PlaneRowFlat(img: Image, c: int, x1: int, x2: int, y: int)
    requires img.Readable() && 0 <= c < img.channel && RowsConstant(img, c)
    ensures Plane(img, c)(x1, y) == Plane(img, c)(x2, y)
  {
    PlaneRead(img, c, x1, y);
    PlaneRead(img, c, x2, y);
  }

  /** The derivative taps sum to zero: equal reads at -1 and 1 cancel. */
  lemma DerivOfFlat(f: int -> real)
    requires f(-1) == f(1)
    ensures Tap3(f, DerivTap) == 0.0
  {
  }

  /** A 3-tap pass over zero reads is zero. */
  lemma Tap3OfZeros(f: int -> real, tap: int -> real)
    requires f(-1) == 0.0 && f(0) == 0.0 && f(1) == 0.0
    ensures Tap3(f, tap) == 0.0
  {
  }

  /** Differentiating down a constant column gives zero. */
  lemma DerivDownFlatColumn(src: Image, c: int, x: int, y: int)
    requires src.Readable() && 0 <= c < src.channel && ColumnsConstant(src, c)
    ensures Tap3(ColumnOf(Plane(src, c), x, y), DerivTap) == 0.0
  {
    PlaneColumnFlat(src, c, x, y - 1, y + 1);
    DerivOfFlat(ColumnOf(Plane(src, c), x, y));
  }

  /** Smoothing down columns x - 1 and x + 1 of a row-constant channel gives
      the same value. */
  lemma SmoothedColumnsAgree(src: Image, c: int, x: int, y: int)
    requires src.Readable() && 0 <= c < src.channel && RowsConstant(src, c)
    ensures ColumnTaps(Plane(src, c), SmoothTap, x, y)(-1) == ColumnTaps(Plane(src, c), SmoothTap, x, y)(1)
  {
    PlaneRowFlat(src, c, x - 1, x + 1, y - 1);
    PlaneRowFlat(src, c, x - 1, x + 1, y);
    PlaneRowFlat(src, c, x - 1, x + 1, y + 1);
    Tap3Ext(ColumnOf(Plane(src, c), x - 1, y), ColumnOf(Plane(src, c), x + 1, y), SmoothTap);
  }

  /** An image whose channel c depends on the column only has a zero vertical
      gradient dY in that channel. */
  lemma SobelFlatColumns(src: Image, dX: Image, dY: Image, x: int, y: int, c: int)
    requires src.Readable() && src.InBounds(x, y, c) && ColumnsConstant(src, c)
    ensures GetPixel(Sobel(src, dX, dY).dY, x, y, c) == 0.0
  {
    SobelWindows(src, dX, dY, x, y, c);
    WindowByColumns(Plane(src, c), SmoothTap, DerivTap, x, y);
    DerivDownFlatColumn(src, c, x - 1, y);
    DerivDownFlatColumn(src, c, x, y);
    DerivDownFlatColumn(src, c, x + 1, y);
    Tap3OfZeros(ColumnTaps(Plane(src, c), DerivTap, x, y), SmoothTap);
  }

  /** An image whose channel c depends on the row only has a zero horizontal
      gradient dX in that channel. */
  lemma SobelFlatRows(src: Image, dX: Image, dY: Image, x: int, y: int, c: int)
    requires src.Readable() && src.InBounds(x, y, c) && RowsConstant(src, c)
    ensures GetPixel(Sobel(src, dX, dY).dX, x, y, c) == 0.0
  {
    SobelWindows(src, dX, dY, x, y, c);
    WindowByColumns(Plane(src, c), DerivTap, SmoothTap, x, y);
    SmoothedColumnsAgree(src, c, x, y);
    DerivOfFlat(ColumnTaps(Plane(src, c), SmoothTap, x, y));
  }

  /** A constant channel has zero gradients in both directions. */
  lemma SobelFlat(src: Image, dX: Image, dY: Image, x: int, y: int, c: int)
    requires src.Readable() && src.InBounds(x, y, c) && ChannelConstant(src, c)
    ensures GetPixel(Sobel(src, dX, dY).dX, x, y, c) == 0.0
    ensures GetPixel(Sobel(src, dX, dY).dY, x, y, c) == 0.0
  {
    ConstantIsFlatBothWays(src, c);
    SobelFlatRows(src, dX, dY, x, y, c);
    SobelFlatColumns(src, dX, dY, x, y, c);
  }
}
