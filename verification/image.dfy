/** The `Image` buffer: a W x H x C block of samples stored row-major with the
    channels of a pixel interleaved, read and written through accessors that
    clamp every coordinate to the edge of the image. */
module Images {
  import opened CvErrors

  /** The sample store behind an image: a null pointer, or an allocated block. */
  datatype Store = Null | Block(cells: seq<real>)

  /** One image object. `size` is kept separately from the dimensions, as the
      class keeps it, and `debug` is the class's debug switch. */
  datatype Image = Image(width: nat, height: nat, channel: nat, size: nat, debug: int, data: Store)
  {
    /** An image is empty exactly when its store is null; the dimensions are
        not consulted. */
    predicate IsEmpty() {
      data.Null?
    }

    /** The states the class can reach: an allocated block of exactly
        width*height*channel samples, or a null store whose dimensions are all
        zero (fresh or released) or all positive (left behind by a move). */
    predicate WellFormed() {
      match data
      case Block(cells) =>
        width > 0 && height > 0 && channel > 0 && size == width * height * channel && |cells| == size
      case Null =>
        (width == 0 && height == 0 && channel == 0 && size == 0) ||
        (width > 0 && height > 0 && channel > 0 && size == width * height * channel)
    }

    /** A null store whose dimensions still describe pixels: reading such an
        image dereferences the null pointer. */
    predicate Dangling() {
      data.Null? && width > 0 && height > 0 && channel > 0
    }

    /** A readable image: allocated and well formed. */
    predicate Readable() {
      WellFormed() && !IsEmpty()
    }

    predicate InBounds(x: int, y: int, c: int) {
      0 <= x < width && 0 <= y < height && 0 <= c < channel
    }
  }

  /** Two images with the same dimensions. */
  predicate SameShape(a: Image, b: Image) {
    a.width == b.width && a.height == b.height && a.channel == b.channel
  }

  /** The object after construction or release: no store, zero dimensions. */
  function Init(): (r: Image)
    ensures r.WellFormed() && r.IsEmpty() && !r.Dangling()
  {
    Image(0, 0, 0, 0, 0, Null)
  }

  /** An image that was written to, with the status the write returned. */
  datatype Updated = Updated(image: Image, status: CVError)

  // ---------------------------------------------------------------------------
  // Integer arithmetic of the layout

  /** Distance between two positions on one axis. */
  function Dist(a: int, b: int): nat {
    if a < b then b - a else a - b
  }

  /** Snaps `v` onto the range [0, n-1]: the clamp-to-edge policy applied to
      every axis of every read and write. */
  function Clamp(v: int, n: int): (r: int)
    requires n > 0
    ensures 0 <= r < n
    ensures 0 <= v < n ==> r == v
    ensures forall u :: 0 <= u < n ==> Dist(r, v) <= Dist(u, v)
  {
    if v < 0 then 0 else if v >= n then n - 1 else v
  }

  /** Position of sample (x, y, c) in the store of an image `w` pixels wide
      with `ch` channels. */
  function Offset(w: int, ch: int, x: int, y: int, c: int): int {
    y * w * ch + x * ch + c
  }

  /** The pixel a store position belongs to: (x, y, c). */
  function PixelOf(w: int, ch: int, i: int): (int, int, int)
    requires w > 0 && ch > 0
  {
    ((i / ch) % w, (i / ch) / w, i % ch)
  }

  /** Multiplying by a non-negative factor keeps the order. */
  lemma MulMono(a: int, b: int, d: int)
    ensures 0 <= d && a <= b ==> a * d <= b * d
  {
    if 0 <= d && a <= b {
      assert b * d - a * d == (b - a) * d;
    }
  }

  /** Dividing q*d + r by d, with 0 <= r < d, gives back q and r. */
  lemma DivModOf(q: int, r: int, d: int)
    requires d > 0 && 0 <= r < d
    ensures (q * d + r) / d == q
    ensures (q * d + r) % d == r
  {
    var n := q * d + r;
    var q' := n / d;
    var r' := n % d;
    assert n == q' * d + r';
    assert (q - q') * d == r' - r;
    MulMono(1, q - q', d);
    MulMono(q - q', -1, d);
  }

  /** Offset and PixelOf are inverse on the samples of a w x h x ch image. */
  lemma OffsetOfPixel(w: int, h: int, ch: int, x: int, y: int, c: int)
    requires w > 0 && h > 0 && ch > 0
    requires 0 <= x < w && 0 <= y < h && 0 <= c < ch
    ensures 0 <= Offset(w, ch, x, y, c) < w * h * ch
    ensures PixelOf(w, ch, Offset(w, ch, x, y, c)) == (x, y, c)
  {
    var i := Offset(w, ch, x, y, c);
    var q := y * w + x;
    assert i == q * ch + c by {
      assert q * ch == y * w * ch + x * ch;
    }
    DivModOf(q, c, ch);
    DivModOf(y, x, w);
    MulMono(0, y, w);
    MulMono(y, h - 1, w);
    assert 0 <= q < w * h by {
      assert (h - 1) * w + (w - 1) == w * h - 1;
    }
    MulMono(0, q, ch);
    MulMono(q, w * h - 1, ch);
    assert (w * h - 1) * ch + (ch - 1) == w * h * ch - 1;
  }

  lemma PixelOfOffset(w: int, h: int, ch: int, i: int)
    requires w > 0 && h > 0 && ch > 0
    requires 0 <= i < w * h * ch
    ensures var p := PixelOf(w, ch, i);
      0 <= p.0 < w && 0 <= p.1 < h && 0 <= p.2 < ch && Offset(w, ch, p.0, p.1, p.2) == i
  {
    var q := i / ch;
    var c := i % ch;
    var x := q % w;
    var y := q / w;
    assert i == q * ch + c;
    assert q == y * w + x;
    assert q * ch == y * w * ch + x * ch by {
      assert (y * w + x) * ch == y * w * ch + x * ch;
    }
    MulMono(q, -1, ch);
    MulMono(w * h, q, ch);
    assert 0 <= q < w * h;
    MulMono(y, -1, w);
    MulMono(h, y, w);
  }

  /** Every in-range pixel has its own position inside the store. */
  lemma OffsetsDistinct(w: int, h: int, ch: int, x: int, y: int, c: int, x': int, y': int, c': int)
    requires w > 0 && h > 0 && ch > 0
    requires 0 <= x < w && 0 <= y < h && 0 <= c < ch
    requires 0 <= x' < w && 0 <= y' < h && 0 <= c' < ch
    requires (x, y, c) != (x', y', c')
    ensures Offset(w, ch, x, y, c) != Offset(w, ch, x', y', c')
  {
    OffsetOfPixel(w, h, ch, x, y, c);
    OffsetOfPixel(w, h, ch, x', y', c');
  }

  // ---------------------------------------------------------------------------
  // Lifecycle

  /** Drops the store and zeroes every dimension and the debug switch. */
  function Release(img: Image): (r: Image)
    ensures r.WellFormed() && r.IsEmpty() && !r.Dangling()
    ensures r.width == 0 && r.height == 0 && r.channel == 0 && r.size == 0 && r.debug == 0
  {
    img.(width := 0, height := 0, channel := 0, size := 0, debug := 0, data := Null)
  }

  /** `Allocate(width, height, channel, freeMemory)`. The dimensions are checked
      before anything is released, so a rejected call leaves the image as it
      was. Fresh storage is uninitialised in the class; the model fills it
      with 0.0 and no property depends on those values. The default of
      `freeMemory` is 1. */
  function Allocate(img: Image, w: int, h: int, ch: int, freeMemory: int := 1): (r: Updated)
    ensures r.status == Input <==> (w <= 0 || h <= 0 || ch <= 0)
    ensures r.status == Input ==> r.image == img
    ensures r.status != Input ==> r.status == NoError
    ensures r.status == NoError ==>
      && r.image.Readable()
      && r.image.width == w && r.image.height == h && r.image.channel == ch
      && r.image.size == w * h * ch && r.image.debug == 0
  {
    if w <= 0 || h <= 0 || ch <= 0 then
      Updated(img, Input)
    else
      var kept := if freeMemory != 0 then Release(img) else img;
      MulMono(1, h, w);
      MulMono(1, ch, w * h);
      var n := w * h * ch;
      Updated(kept.(width := w, height := h, channel := ch, size := n, debug := 0,
                    data := Block(seq(n, _ => 0.0))), NoError)
  }

  /** Whether the old store is released first has no effect on the resulting
      object: a successful allocation overwrites every field. */
  lemma AllocateReplacesWholesale(img: Image, w: int, h: int, ch: int)
    ensures Allocate(img, w, h, ch, 1) == Allocate(img, w, h, ch, 0)
    ensures Allocate(img, w, h, ch).status == NoError ==> Allocate(img, w, h, ch) == Allocate(Init(), w, h, ch)
  {
  }

  /** The constructor `Image(width, height, channel)`. */
  function Construct(w: int, h: int, ch: int): (r: Image)
    ensures r.WellFormed() && !r.Dangling()
    ensures r.IsEmpty() <==> (w <= 0 || h <= 0 || ch <= 0)
    ensures !r.IsEmpty() ==> r.width == w && r.height == h && r.channel == ch
  {
    Allocate(Init(), w, h, ch, 0).image
  }

  /** `GetSize()`: the stored sample count. */
  function GetSize(img: Image): (n: nat)
    requires img.WellFormed()
    ensures !img.IsEmpty() ==> n == img.width * img.height * img.channel
    ensures !img.IsEmpty() ==> n == |img.data.cells|
  {
    img.size
  }

  // ---------------------------------------------------------------------------
  // Pixel access

  /** Store position of (x, y, c) after clamping each axis independently. */
  function ClampedOffset(img: Image, x: int, y: int, c: int): (i: int)
    requires img.Readable()
    ensures 0 <= i < img.size
  {
    var cx := Clamp(x, img.width);
    var cy := Clamp(y, img.height);
    var cc := Clamp(c, img.channel);
    OffsetOfPixel(img.width, img.height, img.channel, cx, cy, cc);
    Offset(img.width, img.channel, cx, cy, cc)
  }

  /** `GetPixel(x, y, channel)`: every read lands on a stored sample, whatever
      the coordinates. Reading an empty image dereferences null, so callers
      must check emptiness first. */
  function GetPixel(img: Image, x: int, y: int, c: int): (v: real)
    requires img.Readable()
    ensures v in img.data.cells
  {
    img.data.cells[ClampedOffset(img, x, y, c)]
  }

  /** `SetPixel(x, y, channel, value)`: writes one sample at the clamped
      coordinates and leaves every other sample and every field as it was. */
  function SetPixel(img: Image, x: int, y: int, c: int, v: real): (r: Image)
    requires img.Readable()
    ensures r.Readable() && SameShape(r, img) && r.size == img.size && r.debug == img.debug
    ensures GetPixel(r, x, y, c) == v
    ensures forall x', y', c' | img.InBounds(x', y', c') ::
      (x', y', c') != (Clamp(x, img.width), Clamp(y, img.height), Clamp(c, img.channel)) ==>
      GetPixel(r, x', y', c') == GetPixel(img, x', y', c')
  {
    var r := img.(data := Block(img.data.cells[ClampedOffset(img, x, y, c) := v]));
    assert forall x', y', c' | img.InBounds(x', y', c') ::
      (x', y', c') != (Clamp(x, img.width), Clamp(y, img.height), Clamp(c, img.channel)) ==>
      ClampedOffset(r, x', y', c') != ClampedOffset(img, x, y, c) by {
      forall x', y', c' | img.InBounds(x', y', c') &&
        (x', y', c') != (Clamp(x, img.width), Clamp(y, img.height), Clamp(c, img.channel))
        ensures ClampedOffset(r, x', y', c') != ClampedOffset(img, x, y, c)
      {
        OffsetsDistinct(img.width, img.height, img.channel, x', y', c',
          Clamp(x, img.width), Clamp(y, img.height), Clamp(c, img.channel));
      }
    }
    r
  }

  /** Reading outside the image gives the sample at the nearest in-range
      coordinate on each axis. */
  lemma {:induction false} ReadClampsEachAxis(img: Image, x: int, y: int, c: int)
    requires img.Readable()
    ensures GetPixel(img, x, y, c) ==
      GetPixel(img, Clamp(x, img.width), Clamp(y, img.height), Clamp(c, img.channel))
    ensures x < 0 ==> GetPixel(img, x, y, c) == GetPixel(img, 0, y, c)
    ensures x >= img.width ==> GetPixel(img, x, y, c) == GetPixel(img, img.width - 1, y, c)
    ensures y < 0 ==> GetPixel(img, x, y, c) == GetPixel(img, x, 0, c)
    ensures y >= img.height ==> GetPixel(img, x, y, c) == GetPixel(img, x, img.height - 1, c)
    ensures c < 0 ==> GetPixel(img, x, y, c) == GetPixel(img, x, y, 0)
    ensures c >= img.channel ==> GetPixel(img, x, y, c) == GetPixel(img, x, y, img.channel - 1)
  {
  }

  /** Reads whose coordinates clamp to the same pixel return the same sample. */
  lemma SameClampedRead(img: Image, x1: int, y1: int, x2: int, y2: int, c: int)
    requires img.Readable()
    requires Clamp(x1, img.width) == Clamp(x2, img.width) && Clamp(y1, img.height) == Clamp(y2, img.height)
    ensures GetPixel(img, x1, y1, c) == GetPixel(img, x2, y2, c)
  {
  }

  /** In-range coordinates address the sample at y*W*C + x*C + c, and distinct
      coordinates address distinct samples. */
  lemma ReadAddressesOffset(img: Image, x: int, y: int, c: int)
    requires img.Readable() && img.InBounds(x, y, c)
    ensures 0 <= Offset(img.width, img.channel, x, y, c) < img.size
    ensures GetPixel(img, x, y, c) == img.data.cells[Offset(img.width, img.channel, x, y, c)]
  {
    OffsetOfPixel(img.width, img.height, img.channel, x, y, c);
  }

  /** Two readable images of one shape are equal when every in-range read
      agrees and the bookkeeping fields agree. */
  lemma {:induction false} ImageExtensionality(a: Image, b: Image)
    requires a.Readable() && b.Readable() && SameShape(a, b) && a.debug == b.debug
    requires forall x, y, c | a.InBounds(x, y, c) :: GetPixel(a, x, y, c) == GetPixel(b, x, y, c)
    ensures a == b
  {
    var cells := a.data.cells;
    forall i | 0 <= i < |cells|
      ensures cells[i] == b.data.cells[i]
    {
      PixelOfOffset(a.width, a.height, a.channel, i);
      var p := PixelOf(a.width, a.channel, i);
      ReadAddressesOffset(a, p.0, p.1, p.2);
      ReadAddressesOffset(b, p.0, p.1, p.2);
    }
    assert a.data.cells == b.data.cells;
  }

  /** The store after a filter loop has written `f(x, y, c)` to every in-range
      sample of an allocated image through `SetPixel`: the previous contents
      no longer matter, and the fields are those of the allocation. */
  function Overwrite(img: Image, f: (int, int, int) -> real): (r: Image)
    requires img.Readable()
    ensures r.Readable() && SameShape(r, img) && r.size == img.size && r.debug == img.debug
    ensures forall x, y, c | img.InBounds(x, y, c) :: GetPixel(r, x, y, c) == f(x, y, c)
  {
    var w, h, ch := img.width, img.height, img.channel;
    var r := img.(data := Block(seq(img.size, i requires 0 <= i < img.size =>
      var p := PixelOf(w, ch, i); f(p.0, p.1, p.2))));
    assert forall x, y, c | img.InBounds(x, y, c) :: GetPixel(r, x, y, c) == f(x, y, c) by {
      forall x, y, c | img.InBounds(x, y, c)
        ensures GetPixel(r, x, y, c) == f(x, y, c)
      {
        ReadAddressesOffset(r, x, y, c);
        OffsetOfPixel(w, h, ch, x, y, c);
      }
    }
    r
  }

  // ---------------------------------------------------------------------------
  // Copy and move

  /** The copy constructor: an allocation (without release) of the source's
      dimensions followed by a copy of its debug switch and its samples. A
      dangling source would be read through a null pointer. */
  function CopyConstruct(rhs: Image): (r: Image)
    requires rhs.WellFormed() && !rhs.Dangling()
    ensures r.WellFormed()
    ensures !rhs.IsEmpty() ==> r == rhs
    ensures rhs.IsEmpty() ==> r == Init()
  {
    var a := Allocate(Init(), rhs.width, rhs.height, rhs.channel, 0);
    if a.status == NoError then a.image.(debug := rhs.debug, data := rhs.data) else a.image
  }

  /** Copy assignment as written: allocate the source's dimensions (releasing
      the old store), then copy the debug switch and the samples. When the
      source is empty that allocation is rejected and the target keeps its
      old contents. Assigning an image to itself changes nothing. */
  function CopyAssign(lhs: Image, rhs: Image): (r: Image)
    requires rhs.WellFormed() && !rhs.Dangling()
    ensures !rhs.IsEmpty() ==> r == rhs
    ensures rhs.IsEmpty() ==> r == lhs
  {
    var a := Allocate(lhs, rhs.width, rhs.height, rhs.channel);
    if a.status == NoError then a.image.(debug := rhs.debug, data := rhs.data) else a.image
  }

  /** Assigning an empty image to an allocated one leaves the target allocated
      with its old samples, where a copy was asked for. */
  lemma CopyAssignFromEmptyKeepsTarget()
    ensures var target := Construct(2, 2, 1);
      CopyAssign(target, Init()) == target && CopyAssign(target, Init()) != Init()
  {
  }

  /** Copy assignment with the empty source handled: the target becomes an
      exact copy of the source in every case, as the copy constructor does. */
  function CopyAssignFixed(lhs: Image, rhs: Image): (r: Image)
    requires rhs.WellFormed() && !rhs.Dangling()
    ensures r == rhs
    ensures !rhs.IsEmpty() ==> r == CopyAssign(lhs, rhs)
  {
    if rhs.IsEmpty() then Release(lhs).(debug := rhs.debug) else CopyAssign(lhs, rhs)
  }

  /** The result of a move: the new owner and what is left of the source. */
  datatype Moved = Moved(target: Image, source: Image)

  /** The move constructor as written: every field is taken over and only the
      source's data pointer is nulled; its dimensions are left in place. */
  function MoveConstruct(rhs: Image): (r: Moved)
    requires rhs.WellFormed()
    ensures r.target == rhs
    ensures r.source.IsEmpty() && r.source.WellFormed()
    ensures SameShape(r.source, rhs) && r.source.size == rhs.size
  {
    Moved(rhs, rhs.(data := Null))
  }

  /** Move assignment: the target ends up exactly as after the move
      constructor, whatever it held before. */
  function MoveAssign(lhs: Image, rhs: Image): (r: Moved)
    requires rhs.WellFormed()
    ensures r.target == rhs
    ensures r.source.IsEmpty() && SameShape(r.source, rhs)
  {
    MoveConstruct(rhs)
  }

  /** Moving out of an allocated image leaves an empty image whose dimensions
      still describe pixels: a dangling image. */
  lemma MovedFromIsDangling(rhs: Image)
    requires rhs.Readable()
    ensures MoveConstruct(rhs).source.Dangling()
    ensures MoveConstruct(rhs).source != Release(rhs)
  {
  }

  /** The move constructor with the source left as a fresh empty image, which
      is what ownership transfer promises: nothing dangles. */
  function MoveConstructFixed(rhs: Image): (r: Moved)
    requires rhs.WellFormed()
    ensures r.target == rhs
    ensures r.source.WellFormed() && r.source.IsEmpty() && !r.source.Dangling()
    ensures r.source.width == 0 && r.source.height == 0 && r.source.channel == 0 && r.source.size == 0
    ensures r.target == MoveConstruct(rhs).target
  {
    Moved(rhs, Release(rhs).(debug := rhs.debug))
  }

  // ---------------------------------------------------------------------------
  // Shapes of image content

  /** Every pixel of channel c holds the same value. */
  predicate ChannelConstant(img: Image, c: int)
    requires img.Readable()
  {
    forall x, y | 0 <= x < img.width && 0 <= y < img.height :: GetPixel(img, x, y, c) == GetPixel(img, 0, 0, c)
  }

  /** Channel c depends on the column only: every column is constant. */
  predicate ColumnsConstant(img: Image, c: int)
    requires img.Readable()
  {
    forall x, y | 0 <= x < img.width && 0 <= y < img.height :: GetPixel(img, x, y, c) == GetPixel(img, x, 0, c)
  }

  /** Channel c depends on the row only: every row is constant. */
  predicate RowsConstant(img: Image, c: int)
    requires img.Readable()
  {
    forall x, y | 0 <= x < img.width && 0 <= y < img.height :: GetPixel(img, x, y, c) == GetPixel(img, 0, y, c)
  }

  /** No sample of channel c is below `lo`. */
  predicate ChannelAtLeast(img: Image, c: int, lo: real)
    requires img.Readable()
  {
    forall x, y | 0 <= x < img.width && 0 <= y < img.height :: lo <= GetPixel(img, x, y, c)
  }

  /** No sample of channel c is above `hi`. */
  predicate ChannelAtMost(img: Image, c: int, hi: real)
    requires img.Readable()
  {
    forall x, y | 0 <= x < img.width && 0 <= y < img.height :: GetPixel(img, x, y, c) <= hi
  }

  /** A constant channel is constant along every row and every column. */
  lemma ConstantIsFlatBothWays(img: Image, c: int)
    requires img.Readable() && ChannelConstant(img, c)
    ensures ColumnsConstant(img, c) && RowsConstant(img, c)
  {
    forall x, y | 0 <= x < img.width && 0 <= y < img.height
      ensures GetPixel(img, x, y, c) == GetPixel(img, x, 0, c)
      ensures GetPixel(img, x, y, c) == GetPixel(img, 0, y, c)
    {
      assert GetPixel(img, x, 0, c) == GetPixel(img, 0, 0, c);
      assert GetPixel(img, 0, y, c) == GetPixel(img, 0, 0, c);
    }
  }
}
