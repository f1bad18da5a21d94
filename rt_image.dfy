/** The image buffer of textures (src/rt_stb_image.h): float pixel data as
    loaded, its conversion to bytes, and the clamped pixel lookup. */
module Images {

  type Byte = x: int | 0 <= x < 256

  /** rt_image::bytes_per_pixel */
  const BytesPerPixel: int := 3

  /** The fixed pixel returned when there is no byte data. */
  const Magenta: seq<Byte> := [255, 0, 255]

  /** rt_image::clamp as written: `min` below the range, `max - 1` above it,
      and `x` itself otherwise, which includes `x == max`. */
  function Clamp(x: int, min: int, max: int): (r: int)
    ensures x < min ==> r == min
    ensures min <= x && x > max ==> r == max - 1
    ensures min <= max ==> min - 1 <= r <= max
    ensures min <= x <= max ==> r == x
    ensures min < max ==> (min <= r <= max && (r == max <==> x == max))
  {
    if x < min then min
    else if x > max then max - 1
    else x
  }

  /** The clamp into `[min, max)` that pixel_data needs: `max - 1` from
      `max` on. */
  function IntendedClamp(x: int, min: int, max: int): (r: int)
    requires min < max
    ensures min <= r < max
    ensures min <= x < max <==> r == x
  {
    if x < min then min
    else if x >= max then max - 1
    else x
  }

  /** rt_image::float_to_byte: 0 up to 0, 255 from 1 on, and the integer
      part of `value * 256` in between. */
  function FloatToByte(value: real): (b: Byte)
    ensures value <= 0.0 ==> b == 0
    ensures value >= 1.0 ==> b == 255
    ensures 0.0 < value < 1.0 ==> b as real <= value * 256.0 < b as real + 1.0
  {
    if value <= 0.0 then 0
    else if value >= 1.0 then 255
    else (value * 256.0).Floor
  }

  /** A brighter value never gives a smaller byte. */
  lemma FloatToByteMonotone(a: real, b: real)
    requires a <= b
    ensures FloatToByte(a) <= FloatToByte(b)
  {
    if 0.0 < a && b < 1.0 {
      assert a * 256.0 <= b * 256.0;
    }
  }

  /** The byte image of float data, entry by entry. */
  function Bytes(pixels: seq<real>): (bs: seq<Byte>)
    ensures |bs| == |pixels| && forall i :: 0 <= i < |pixels| ==> bs[i] == FloatToByte(pixels[i])
  {
    seq(|pixels|, i requires 0 <= i < |pixels| => FloatToByte(pixels[i]))
  }

  /** The offset pixel_data adds to the byte data for `(x, y)`, as written. */
  function PixelOffset(x: int, y: int, width: int, height: int): int {
    Clamp(y, 0, height) * (width * BytesPerPixel) + Clamp(x, 0, width) * BytesPerPixel
  }

  /** The same offset with the intended clamp. */
  function IntendedPixelOffset(x: int, y: int, width: int, height: int): int
    requires width > 0 && height > 0
  {
    IntendedClamp(y, 0, height) * (width * BytesPerPixel) + IntendedClamp(x, 0, width) * BytesPerPixel
  }

  /** A pixel at column `cx < width` of row `cy < height` lies wholly inside
      a `width * height` image of three-byte pixels. */
  lemma PixelInside(cx: int, cy: int, width: int, height: int)
    requires 0 <= cx < width && 0 <= cy < height
    ensures 0 <= cy * (width * BytesPerPixel) + cx * BytesPerPixel
    ensures cy * (width * BytesPerPixel) + cx * BytesPerPixel + BytesPerPixel <= width * height * BytesPerPixel
  {
    var row := width * BytesPerPixel;
    assert 0 <= cy * row;
    assert (cy + 1) * row <= height * row by {
      MultiplyMonotone(cy + 1, height, row);
    }
    assert cx * BytesPerPixel + BytesPerPixel <= row;
    assert width * height * BytesPerPixel == height * row;
  }

  lemma MultiplyMonotone(a: int, b: int, k: int)
    requires a <= b && 0 <= k
    ensures a * k <= b * k
  {
    assert b * k - a * k == (b - a) * k;
  }

  /** For a pixel inside the image the as-written offset addresses three
      bytes within the data. */
  lemma PixelOffsetInRange(x: int, y: int, width: int, height: int)
    requires 0 <= x < width && 0 <= y < height
    ensures 0 <= PixelOffset(x, y, width, height)
    ensures PixelOffset(x, y, width, height) + BytesPerPixel <= width * height * BytesPerPixel
  {
    PixelInside(x, y, width, height);
  }

  /** As written, the pixel one past the right edge of the last row is
      clamped to column `width` and its three bytes start exactly at the end
      of the data. */
  lemma PixelOffsetPastEnd(width: int, height: int)
    requires width > 0 && height > 0
    ensures PixelOffset(width, height - 1, width, height) == width * height * BytesPerPixel
  {
    calc {
      PixelOffset(width, height - 1, width, height);
      (height - 1) * (width * BytesPerPixel) + width * BytesPerPixel;
      height * (width * BytesPerPixel);
    }
  }

  /** With the intended clamp every `(x, y)` addresses three bytes within
      the data, however far outside the image it lies. */
  lemma IntendedPixelOffsetInRange(x: int, y: int, width: int, height: int)
    requires width > 0 && height > 0
    ensures 0 <= IntendedPixelOffset(x, y, width, height)
    ensures IntendedPixelOffset(x, y, width, height) + BytesPerPixel <= width * height * BytesPerPixel
  {
    PixelInside(IntendedClamp(x, 0, width), IntendedClamp(y, 0, height), width, height);
  }

  /** What stbi_loadf yields: nothing, or the dimensions and three floats
      per pixel, row by row. */
  datatype LoadResult = Failed | Loaded(width: int, height: int, pixels: seq<real>)

  /** What pixel_data returns: the fixed magenta triple, or an offset into
      the byte data. */
  datatype Pixel = Fixed(rgb: seq<Byte>) | Offset(offset: int)

  /** rt_image. */
  class RtImage {
    var imgWidth: int
    var imgHeight: int
    var bytesPerScanline: int
    var fdata: array?<real>
    var bdata: array?<Byte>

    /** The dimensions are non-negative, a scanline holds three bytes per
        pixel, and each present buffer holds `width * height * 3` entries. */
    predicate Valid()
      reads this
    {
      && imgWidth >= 0 && imgHeight >= 0
      && bytesPerScanline == imgWidth * BytesPerPixel
      && (fdata != null ==> fdata.Length == imgWidth * imgHeight * BytesPerPixel)
      && (bdata != null ==> bdata.Length == imgWidth * imgHeight * BytesPerPixel)
    }

    /** rt_image(): no data and zero dimensions. */
    constructor ()
      ensures Valid() && fdata == null && bdata == null
      ensures imgWidth == 0 && imgHeight == 0
    {
      imgWidth, imgHeight, bytesPerScanline := 0, 0, 0;
      fdata, bdata := null, null;
    }

    /** rt_image::load with the result of stbi_loadf given: on success the
        float data and dimensions are stored, the scanline length set and
        the byte data rebuilt; on failure the float data becomes null and
        everything else stays. */
    method Load(result: LoadResult) returns (ok: bool)
      requires Valid()
      requires result.Loaded? ==> result.width > 0 && result.height > 0 &&
                                  |result.pixels| == result.width * result.height * BytesPerPixel
      modifies this
      ensures Valid()
      ensures ok == result.Loaded?
      ensures ok ==> && imgWidth == result.width && imgHeight == result.height
                     && bytesPerScanline == result.width * BytesPerPixel
                     && fdata != null && fresh(fdata) && fdata[..] == result.pixels
                     && bdata != null && fresh(bdata) && bdata[..] == Bytes(result.pixels)
      ensures !ok ==> && fdata == null && bdata == old(bdata)
                      && imgWidth == old(imgWidth) && imgHeight == old(imgHeight)
                      && bytesPerScanline == old(bytesPerScanline)
    {
      if result.Failed? {
        fdata := null;
        return false;
      }
      var pixels := new real[|result.pixels|](i requires 0 <= i < |result.pixels| => result.pixels[i]);
      fdata := pixels;
      imgWidth, imgHeight := result.width, result.height;
      bytesPerScanline := imgWidth * BytesPerPixel;
      ConvertToBytes();
      return true;
    }

    /** rt_image::convert_to_bytes: a fresh byte buffer of `width * height * 3`
        entries, each the float_to_byte of the float at the same index. */
    method ConvertToBytes()
      requires fdata != null && imgWidth >= 0 && imgHeight >= 0
      requires fdata.Length == imgWidth * imgHeight * BytesPerPixel
      modifies this
      ensures fdata == old(fdata) && imgWidth == old(imgWidth) && imgHeight == old(imgHeight)
      ensures bytesPerScanline == old(bytesPerScanline)
      ensures bdata != null && fresh(bdata)
      ensures bdata.Length == imgWidth * imgHeight * BytesPerPixel
      ensures bdata[..] == Bytes(fdata[..])
    {
      var totalBytes := imgWidth * imgHeight * BytesPerPixel;
      var floats := fdata;
      var bytes := new Byte[totalBytes];
      for i := 0 to totalBytes
        modifies bytes
        invariant forall k :: 0 <= k < i ==> bytes[k] == FloatToByte(floats[k])
      {
        bytes[i] := FloatToByte(floats[i]);
      }
      bdata := bytes;
    }

    /** rt_image::width: 0 while there is no float data. */
    function Width(): (w: int)
      reads this
      ensures fdata == null ==> w == 0
      ensures fdata != null ==> w == imgWidth
    {
      if fdata == null then 0 else imgWidth
    }

    /** rt_image::height: 0 while there is no float data. */
    function Height(): (h: int)
      reads this
      ensures fdata == null ==> h == 0
      ensures fdata != null ==> h == imgHeight
    {
      if fdata == null then 0 else imgHeight
    }

    /** rt_image::pixel_data: magenta without byte data, otherwise the
        offset of the clamped pixel. */
    function PixelData(x: int, y: int): (px: Pixel)
      reads this
      requires Valid()
      ensures bdata == null ==> px == Fixed(Magenta)
      ensures bdata != null ==> px == Offset(PixelOffset(x, y, imgWidth, imgHeight))
    {
      if bdata == null then Fixed(Magenta)
      else
        var cx := Clamp(x, 0, imgWidth);
        var cy := Clamp(y, 0, imgHeight);
        Offset(cy * bytesPerScanline + cx * BytesPerPixel)
    }
  }
}
