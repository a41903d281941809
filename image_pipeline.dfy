/**
 * The image transform pipeline that `Overlay::addImage` runs before it
 * appends an image item: resolve the requested size, check it against the
 * source, cut out a sub-region, mirror it, rewrite the colour table and
 * optionally make colour 0 transparent.
 */
module ImagePipeline {
  import opened Wrappers

  /** C++ `int` and `unsigned` as they reach `addImage`. */
  type Int32 = x: int | -0x8000_0000 <= x < 0x8000_0000
  type UInt32 = x: int | 0 <= x < 0x1_0000_0000

  const Two32: int := 0x1_0000_0000

  /** A 32-bit ARGB colour (QRgb): alpha in the top byte, then red, green, blue. */
  type Rgb = c: int | 0 <= c < 0x1_0000_0000

  /** A raster value: an index into the colour table for an indexed image, a colour otherwise. */
  type Pixel = int

  /** qRgba: packs four 8-bit channels into one colour. */
  function QRgba(red: int, green: int, blue: int, alpha: int): (c: Rgb)
    requires 0 <= red < 256 && 0 <= green < 256 && 0 <= blue < 256 && 0 <= alpha < 256
    ensures Alpha(c) == alpha
  {
    alpha * 0x100_0000 + red * 0x1_0000 + green * 0x100 + blue
  }

  /** qAlpha: the alpha channel of a colour; 0 is fully transparent. */
  function Alpha(c: Rgb): int
  {
    c / 0x100_0000
  }

  /** The colour `addImage` writes to entry 0 when asked for transparency. */
  const Transparent: Rgb := 0

  /** That colour is qRgba(0, 0, 0, 0), which is fully transparent. */
  lemma TransparentIsClear()
    ensures Transparent == QRgba(0, 0, 0, 0)
    ensures Alpha(Transparent) == 0
  {
  }

  /**
   * A decoded image. Pixel (col, row) is `rows[row][col]`. `indexed` tells
   * whether the pixel format has a colour table (depth 8 or less); only then
   * does `setColor` have any effect.
   */
  datatype Image = Image(width: nat, height: nat, rows: seq<seq<Pixel>>, indexed: bool, colorTable: seq<Rgb>)
  {
    /** A non-null image: positive size and a complete raster. */
    predicate Valid()
    {
      && width > 0
      && height > 0
      && |rows| == height
      && forall row :: 0 <= row < |rows| ==> |rows[row]| == width
    }
  }

  /** The two ways `addImage` can fail; each is logged and reported as `false`. */
  datatype ImageError = LoadError | OutOfBoundsError

  // ---------------------------------------------------------------------
  // Step 2: resolving the requested size
  // ---------------------------------------------------------------------

  /** A non-positive requested dimension stands for the full dimension. */
  function Resolve(requested: int, full: nat): (r: nat)
    requires full > 0
    ensures r > 0
    ensures requested > 0 ==> r == requested
    ensures requested <= 0 ==> r == full
  {
    if requested <= 0 then full else requested
  }

  // ---------------------------------------------------------------------
  // Step 3: the bounds check
  // ---------------------------------------------------------------------

  /**
   * The bounds check as it is meant: the requested number of pixels, counted
   * from the row-major position `offset`, fits in the source's pixel count.
   */
  predicate InBounds(width: nat, height: nat, offset: nat, fullWidth: nat, fullHeight: nat)
    ensures InBounds(width, height, offset, fullWidth, fullHeight) && width > 0 && height > 0 ==>
              offset < fullWidth * fullHeight
    ensures offset > fullWidth * fullHeight ==> !InBounds(width, height, offset, fullWidth, fullHeight)
  {
    width * height + offset <= fullWidth * fullHeight
  }

  /** The C++ conversion of an `int` to `unsigned`: reduction modulo 2^32. */
  function ToUnsigned(x: int): (u: UInt32)
    ensures 0 <= x < Two32 ==> u == x
  {
    x % Two32
  }

  /**
   * The bounds check as overlay.cpp:71 computes it: both products are
   * converted to `unsigned` and the sum with `offset` is taken modulo 2^32.
   * (A product that overflows `int` is taken to wrap as well.)
   */
  predicate InBoundsAsWritten(width: Int32, height: Int32, offset: UInt32, fullWidth: Int32, fullHeight: Int32)
    ensures 0 <= width * height && width * height + offset < Two32 && 0 <= fullWidth * fullHeight < Two32 ==>
              (InBoundsAsWritten(width, height, offset, fullWidth, fullHeight) <==>
               width * height + offset <= fullWidth * fullHeight)
  {
    !((ToUnsigned(width * height) + offset) % Two32 > ToUnsigned(fullWidth * fullHeight))
  }

  /**
   * The wrap-around lets an offset through that lies far outside the image:
   * a 1x1 region at offset 2^32 - 1 of a 2x2 image passes the check as
   * written, although 1 + (2^32 - 1) pixels exceed the 4 the image has and
   * the region would start on row 2^31 - 1 of a 2-row image.
   */
  lemma OffsetWrapPassesCheck()
    ensures InBoundsAsWritten(1, 1, 0xFFFF_FFFF, 2, 2)
    ensures !InBounds(1, 1, 0xFFFF_FFFF, 2, 2)
    ensures Origin(0xFFFF_FFFF, 2).1 >= 2
  {
  }

  /** Whenever nothing wraps, the check as written is the intended one. */
  lemma AsWrittenAgreesWithoutWrap(width: Int32, height: Int32, offset: UInt32, fullWidth: Int32, fullHeight: Int32)
    requires width > 0 && height > 0 && fullWidth > 0 && fullHeight > 0
    requires width * height + offset < Two32
    requires fullWidth * fullHeight < Two32
    ensures InBoundsAsWritten(width, height, offset, fullWidth, fullHeight)
        <==> InBounds(width, height, offset, fullWidth, fullHeight)
  {
  }

  /**
   * What the check does guarantee: a non-empty region that passes it starts
   * at a pixel of the source.
   */
  lemma InBoundsStartsInside(width: nat, height: nat, offset: nat, fullWidth: nat, fullHeight: nat)
    requires width > 0 && height > 0 && fullWidth > 0
    requires InBounds(width, height, offset, fullWidth, fullHeight)
    ensures offset < fullWidth * fullHeight
    ensures Origin(offset, fullWidth).1 < fullHeight
  {
  }

  /**
   * For full-width strips starting at column 0 (a vertical sprite sheet),
   * a region that passes the check lies inside the source.
   */
  lemma FullWidthStripInside(height: nat, offset: nat, fullWidth: nat, fullHeight: nat)
    requires fullWidth > 0 && height > 0
    requires offset % fullWidth == 0
    requires InBounds(fullWidth, height, offset, fullWidth, fullHeight)
    ensures Origin(offset, fullWidth).1 + height <= fullHeight
  {
  }

  /**
   * The check counts pixels linearly and does not keep the rectangle inside
   * the source: on a 4x4 image a 3x1 region at offset 3 passes, yet it
   * starts at column 3 and would need columns 3 to 5.
   */
  lemma LinearCheckAllowsOverhang()
    ensures InBounds(3, 1, 3, 4, 4)
    ensures Origin(3, 4) == (3, 0) && Origin(3, 4).0 + 3 > 4
  {
  }

  // ---------------------------------------------------------------------
  // Step 4: sub-region extraction
  // ---------------------------------------------------------------------

  /**
   * The top-left pixel (column, row) of the region that starts at row-major
   * position `offset`: the unique pair with column < fullWidth and
   * row * fullWidth + column == offset.
   */
  function Origin(offset: nat, fullWidth: nat): (p: (nat, nat))
    requires fullWidth > 0
    ensures p.0 < fullWidth
    ensures p.1 * fullWidth + p.0 == offset
  {
    (offset % fullWidth, offset / fullWidth)
  }

  /** Source pixel (col, row), or `pad` when that position lies outside the source. */
  function PixelOr(img: Image, col: nat, row: nat, pad: Pixel): Pixel
    requires img.Valid()
  {
    if col < img.width && row < img.height then img.rows[row][col] else pad
  }

  /**
   * QImage::copy(x0, y0, width, height): a width x height image whose pixel
   * (col, row) is source pixel (x0 + col, y0 + row); positions outside the
   * source take the padding value `pad`. The pixel format and colour table
   * are kept.
   */
  function Copy(img: Image, x0: nat, y0: nat, width: nat, height: nat, pad: Pixel): (r: Image)
    requires img.Valid() && width > 0 && height > 0
    ensures r.Valid() && r.width == width && r.height == height
    ensures r.indexed == img.indexed && r.colorTable == img.colorTable
    ensures forall row, col :: 0 <= row < height && 0 <= col < width ==>
              r.rows[row][col] == PixelOr(img, x0 + col, y0 + row, pad)
  {
    var rows := seq(height, row requires 0 <= row < height =>
                  seq(width, col requires 0 <= col < width => PixelOr(img, x0 + col, y0 + row, pad)));
    Image(width, height, rows, img.indexed, img.colorTable)
  }

  /** Copying the whole image from its top-left corner gives the image back. */
  lemma {:induction false} CopyWholeIsIdentity(img: Image, pad: Pixel)
    requires img.Valid()
    ensures Copy(img, 0, 0, img.width, img.height, pad) == img
  {
    var c := Copy(img, 0, 0, img.width, img.height, pad);
    forall row | 0 <= row < img.height
      ensures c.rows[row] == img.rows[row]
    {
      assert |c.rows[row]| == |img.rows[row]|;
      forall col | 0 <= col < img.width
        ensures c.rows[row][col] == img.rows[row][col]
      {
      }
    }
    assert c.rows == img.rows;
  }

  /**
   * Step 4 as `addImage` runs it: the copy is made only when the resolved
   * size differs from the full size; otherwise the source is used as is.
   */
  function Extract(img: Image, width: nat, height: nat, offset: nat, pad: Pixel): (r: Image)
    requires img.Valid() && width > 0 && height > 0
    ensures r.Valid() && r.width == width && r.height == height
    ensures r.indexed == img.indexed && r.colorTable == img.colorTable
    ensures width == img.width && height == img.height ==> r == img
  {
    if width != img.width || height != img.height then
      var (col, row) := Origin(offset, img.width);
      Copy(img, col, row, width, height, pad)
    else
      img
  }

  /**
   * Skipping the copy for a full-size request loses nothing: a full-size
   * request passes the check only at offset 0, where the copy would return
   * the source unchanged. So after a passed check the extracted image is
   * always the copy anchored at Origin(offset).
   */
  lemma {:induction false} ExtractIsAnchoredCopy(img: Image, width: nat, height: nat, offset: nat, pad: Pixel)
    requires img.Valid() && width > 0 && height > 0
    requires InBounds(width, height, offset, img.width, img.height)
    ensures Extract(img, width, height, offset, pad)
         == Copy(img, Origin(offset, img.width).0, Origin(offset, img.width).1, width, height, pad)
  {
    if width == img.width && height == img.height {
      assert offset == 0;
      assert Origin(offset, img.width) == (0, 0);
      CopyWholeIsIdentity(img, pad);
    }
  }

  // ---------------------------------------------------------------------
  // Step 5: mirroring
  // ---------------------------------------------------------------------

  /** The position index i moves to along an axis of length n when that axis is mirrored. */
  function Flip(mirrored: bool, n: nat, i: nat): (j: nat)
    requires i < n
    ensures j < n
    ensures mirrored ==> i + j == n - 1
    ensures !mirrored ==> j == i
  {
    if mirrored then n - 1 - i else i
  }

  /**
   * QImage::transformed with the scale (xflip ? -1 : 1, yflip ? -1 : 1):
   * the size, format and colour table are kept and pixel (col, row) moves
   * to (Flip(xflip, width, col), Flip(yflip, height, row)).
   */
  function Mirror(img: Image, xflip: bool, yflip: bool): (r: Image)
    requires img.Valid()
    ensures r.Valid() && r.width == img.width && r.height == img.height
    ensures r.indexed == img.indexed && r.colorTable == img.colorTable
    ensures forall row, col :: 0 <= row < img.height && 0 <= col < img.width ==>
              r.rows[Flip(yflip, img.height, row)][Flip(xflip, img.width, col)] == img.rows[row][col]
  {
    var rows := seq(img.height, row requires 0 <= row < img.height =>
                  seq(img.width, col requires 0 <= col < img.width =>
                    img.rows[Flip(yflip, img.height, row)][Flip(xflip, img.width, col)]));
    img.(rows := rows)
  }

  /** Mirroring on neither axis leaves the image unchanged. */
  lemma {:induction false} MirrorNeitherIsIdentity(img: Image)
    requires img.Valid()
    ensures Mirror(img, false, false) == img
  {
    var m := Mirror(img, false, false);
    forall row | 0 <= row < img.height
      ensures m.rows[row] == img.rows[row]
    {
      forall col | 0 <= col < img.width
        ensures m.rows[row][col] == img.rows[row][col]
      {
        assert Flip(false, img.height, row) == row && Flip(false, img.width, col) == col;
      }
    }
    assert m.rows == img.rows;
  }

  lemma FlipCompose(mirrored1: bool, mirrored2: bool, n: nat, i: nat)
    requires i < n
    ensures Flip(mirrored1, n, Flip(mirrored2, n, i)) == Flip(mirrored1 != mirrored2, n, i)
  {
  }

  /**
   * Mirroring twice is mirroring once on every axis that was mirrored an odd
   * number of times; in particular x then y is the point reflection.
   */
  lemma {:induction false} MirrorCompose(img: Image, xflip1: bool, yflip1: bool, xflip2: bool, yflip2: bool)
    requires img.Valid()
    ensures Mirror(Mirror(img, xflip1, yflip1), xflip2, yflip2) == Mirror(img, xflip1 != xflip2, yflip1 != yflip2)
  {
    var m1 := Mirror(img, xflip1, yflip1);
    var m2 := Mirror(m1, xflip2, yflip2);
    var m := Mirror(img, xflip1 != xflip2, yflip1 != yflip2);
    forall row | 0 <= row < img.height
      ensures m2.rows[row] == m.rows[row]
    {
      forall col | 0 <= col < img.width
        ensures m2.rows[row][col] == m.rows[row][col]
      {
        var row1, col1 := Flip(yflip2, img.height, row), Flip(xflip2, img.width, col);
        assert m2.rows[row][col] == m1.rows[row1][col1];
        FlipCompose(yflip1, yflip2, img.height, row);
        FlipCompose(xflip1, xflip2, img.width, col);
      }
    }
    assert m2.rows == m.rows;
  }

  /** Mirroring is an involution: doing it twice restores the image. */
  lemma {:induction false} MirrorInvolution(img: Image, xflip: bool, yflip: bool)
    requires img.Valid()
    ensures Mirror(Mirror(img, xflip, yflip), xflip, yflip) == img
  {
    MirrorCompose(img, xflip, yflip, xflip, yflip);
    MirrorNeitherIsIdentity(img);
  }

  // ---------------------------------------------------------------------
  // Steps 6 and 7: the colour table
  // ---------------------------------------------------------------------

  /**
   * QImage::setColor(i, c). An image without a colour table ignores it. An
   * indexed image stores c at entry i, growing its table by one entry when
   * i is just past the end (the palette loop never writes further out).
   * The raster is never touched.
   */
  function SetColor(img: Image, i: nat, c: Rgb): (r: Image)
    requires img.indexed ==> i <= |img.colorTable|
    ensures r.width == img.width && r.height == img.height && r.rows == img.rows && r.indexed == img.indexed
    ensures !img.indexed ==> r == img
    ensures img.indexed ==> |r.colorTable| == if i < |img.colorTable| then |img.colorTable| else i + 1
    ensures img.indexed ==> r.colorTable[i] == c
    ensures forall j :: 0 <= j < |img.colorTable| && j != i ==> r.colorTable[j] == img.colorTable[j]
  {
    if !img.indexed then img
    else if i < |img.colorTable| then img.(colorTable := img.colorTable[i := c])
    else img.(colorTable := img.colorTable + [c])
  }

  /**
   * The colour table after `setColor(i, palette[i])` for every i in order:
   * entries below |palette| are the palette's, the rest are the old ones.
   */
  function WithPalette(img: Image, palette: seq<Rgb>): (r: Image)
    ensures r.width == img.width && r.height == img.height && r.rows == img.rows && r.indexed == img.indexed
    ensures !img.indexed || palette == [] ==> r == img
    ensures img.indexed ==> |r.colorTable| == if |palette| < |img.colorTable| then |img.colorTable| else |palette|
    ensures img.indexed ==> forall i :: 0 <= i < |palette| ==> r.colorTable[i] == palette[i]
    ensures forall i :: |palette| <= i < |img.colorTable| ==> r.colorTable[i] == img.colorTable[i]
  {
    if !img.indexed then img
    else if |palette| < |img.colorTable| then img.(colorTable := palette + img.colorTable[|palette|..])
    else img.(colorTable := palette)
  }

  /** One more iteration of the palette loop. */
  lemma WithPaletteStep(img: Image, palette: seq<Rgb>, c: Rgb)
    ensures WithPalette(img, palette + [c]) == SetColor(WithPalette(img, palette), |palette|, c)
  {
  }

  /**
   * The palette loop of `addImage` (overlay.cpp:87-88): each palette entry
   * is written in turn into the image's colour table.
   */
  method ApplyPalette(img: Image, palette: seq<Rgb>) returns (r: Image)
    ensures r == WithPalette(img, palette)
  {
    r := img;
    var i := 0;
    while i < |palette|
      invariant 0 <= i <= |palette|
      invariant r == WithPalette(img, palette[..i])
    {
      WithPaletteStep(img, palette[..i], palette[i]);
      assert palette[..i + 1] == palette[..i] + [palette[i]];
      r := SetColor(r, i, palette[i]);
      i := i + 1;
    }
    assert palette[..i] == palette;
  }

  /**
   * The transparency override: entry 0 of an indexed image's colour table
   * becomes fully transparent; every other entry is kept.
   */
  function WithTransparency(img: Image): (r: Image)
    ensures r.width == img.width && r.height == img.height && r.rows == img.rows && r.indexed == img.indexed
    ensures !img.indexed ==> r == img
    ensures img.indexed ==> |r.colorTable| == if |img.colorTable| == 0 then 1 else |img.colorTable|
    ensures img.indexed ==> r.colorTable[0] == Transparent
    ensures forall j :: 0 < j < |img.colorTable| ==> r.colorTable[j] == img.colorTable[j]
  {
    SetColor(img, 0, Transparent)
  }

  // ---------------------------------------------------------------------
  // The whole pipeline
  // ---------------------------------------------------------------------

  /**
   * Steps 3 to 7 on a loaded source with the resolved size: the image
   * `addImage` appends, or OutOfBoundsError. `pad` is the value QImage::copy
   * gives to pixels outside the source.
   */
  function Process(src: Image, width: nat, height: nat, offset: nat,
                   xflip: bool, yflip: bool, palette: seq<Rgb>, setTransparency: bool, pad: Pixel)
    : (r: Result<Image, ImageError>)
    requires src.Valid() && width > 0 && height > 0
    ensures r.Ok? <==> InBounds(width, height, offset, src.width, src.height)
    ensures r.Err? ==> r.error == OutOfBoundsError
    ensures r.Ok? ==>
              && r.value.Valid()
              && r.value.width == width && r.value.height == height
              && r.value.indexed == src.indexed
    ensures r.Ok? && src.indexed ==>
              && (var n := if |palette| < |src.colorTable| then |src.colorTable| else |palette|;
                  |r.value.colorTable| == if setTransparency && n == 0 then 1 else n)
              && (forall i :: 0 < i < |palette| ==> r.value.colorTable[i] == palette[i])
              && (|palette| > 0 && !setTransparency ==> r.value.colorTable[0] == palette[0])
              && (setTransparency ==> |r.value.colorTable| > 0 && r.value.colorTable[0] == Transparent)
              && (forall i :: |palette| <= i < |src.colorTable| && (i > 0 || !setTransparency) ==>
                                r.value.colorTable[i] == src.colorTable[i])
    ensures r.Ok? && !src.indexed ==> r.value.colorTable == src.colorTable
  {
    if !InBounds(width, height, offset, src.width, src.height) then
      Err(OutOfBoundsError)
    else
      var sub := Extract(src, width, height, offset, pad);
      var flipped := if xflip || yflip then Mirror(sub, xflip, yflip) else sub;
      var remapped := WithPalette(flipped, palette);
      Ok(if setTransparency then WithTransparency(remapped) else remapped)
  }

  /**
   * The raster of a successful result: the region anchored at
   * Origin(offset), mirrored as requested. The colour-table steps never
   * touch pixels.
   */
  lemma ProcessRaster(src: Image, width: nat, height: nat, offset: nat,
                      xflip: bool, yflip: bool, palette: seq<Rgb>, setTransparency: bool, pad: Pixel)
    requires src.Valid() && width > 0 && height > 0
    requires InBounds(width, height, offset, src.width, src.height)
    ensures Process(src, width, height, offset, xflip, yflip, palette, setTransparency, pad).Ok?
    ensures Process(src, width, height, offset, xflip, yflip, palette, setTransparency, pad).value.rows
         == Mirror(Copy(src, Origin(offset, src.width).0, Origin(offset, src.width).1, width, height, pad),
                   xflip, yflip).rows
  {
    ExtractIsAnchoredCopy(src, width, height, offset, pad);
    if !(xflip || yflip) {
      MirrorNeitherIsIdentity(Extract(src, width, height, offset, pad));
    }
  }

  /**
   * The whole of `addImage` before the append: `loaded` is what the image
   * loader returned (None for a null image); a non-positive width or height
   * is resolved to the full one before anything else.
   */
  function Pipeline(loaded: Option<Image>, width: int, height: int, offset: nat,
                    xflip: bool, yflip: bool, palette: seq<Rgb>, setTransparency: bool, pad: Pixel)
    : (r: Result<Image, ImageError>)
    requires loaded.Some? ==> loaded.value.Valid()
    ensures loaded.None? <==> r == Err(LoadError)
    ensures loaded.Some? ==>
              var src := loaded.value;
              && (r.Ok? <==> InBounds(Resolve(width, src.width), Resolve(height, src.height), offset, src.width, src.height))
              && (r.Err? ==> r.error == OutOfBoundsError)
              && (r.Ok? ==> r.value.width == Resolve(width, src.width) && r.value.height == Resolve(height, src.height))
  {
    match loaded
    case None => Err(LoadError)
    case Some(src) =>
      Process(src, Resolve(width, src.width), Resolve(height, src.height),
              offset, xflip, yflip, palette, setTransparency, pad)
  }

  /** A non-positive width or height behaves exactly as the full dimension. */
  lemma ResolveAsFull(img: Image, width: int, height: int, offset: nat,
                      xflip: bool, yflip: bool, palette: seq<Rgb>, setTransparency: bool, pad: Pixel)
    requires img.Valid()
    ensures Pipeline(Some(img), width, height, offset, xflip, yflip, palette, setTransparency, pad)
         == Pipeline(Some(img), if width <= 0 then img.width else width, if height <= 0 then img.height else height,
                     offset, xflip, yflip, palette, setTransparency, pad)
  {
  }

  /**
   * With no flip, no palette and no transparency, a request that passes
   * the check yields exactly the region anchored at Origin(offset).
   */
  lemma {:induction false} PlainRequestIsRegion(img: Image, width: int, height: int, offset: nat, pad: Pixel)
    requires img.Valid()
    requires InBounds(Resolve(width, img.width), Resolve(height, img.height), offset, img.width, img.height)
    ensures Pipeline(Some(img), width, height, offset, false, false, [], false, pad)
         == Ok(Copy(img, Origin(offset, img.width).0, Origin(offset, img.width).1,
                    Resolve(width, img.width), Resolve(height, img.height), pad))
  {
    ExtractIsAnchoredCopy(img, Resolve(width, img.width), Resolve(height, img.height), offset, pad);
  }

  /** On a 4x4 image, a 2x2 region at offset 12 is cut from column 0, row 3. */
  lemma Example4x4Offset12(img: Image, pad: Pixel)
    requires img.Valid() && img.width == 4 && img.height == 4
    ensures Pipeline(Some(img), 2, 2, 12, false, false, [], false, pad) == Ok(Copy(img, 0, 3, 2, 2, pad))
  {
    PlainRequestIsRegion(img, 2, 2, 12, pad);
  }

  /** On a 4x4 image, a 2x2 region at offset 13 needs 17 pixels and is refused. */
  lemma Example4x4Offset13(img: Image, pad: Pixel)
    requires img.Valid() && img.width == 4 && img.height == 4
    ensures Pipeline(Some(img), 2, 2, 13, false, false, [], false, pad) == Err(OutOfBoundsError)
  {
  }

  /** Width 0, height 0 and offset 0 give back the whole image untouched. */
  lemma ExampleWholeImage(img: Image, pad: Pixel)
    requires img.Valid()
    ensures Pipeline(Some(img), 0, 0, 0, false, false, [], false, pad) == Ok(img)
  {
  }
}
