/**
 * The byte-level parts of ufo3000_core/src/texture.rs: the bits-per-pixel guard and the
 * RGB to BGRA widening in `create_from_bytes`, and the copy sizes and row pitches that
 * `create_from_bytes`, `to_vec` and `create_texture_array` hand to the graphics API.
 */
module Texture {
  import opened Common
  import Misc

  /** The panic of `create_from_bytes` for images that are neither RGB nor RGBA. */
  datatype TextureError = UnsupportedBitsPerPixel(bpp: nat)

  /** Width, height and depth (array layers) of a copy. */
  datatype Extent = Extent(width: nat, height: nat, depth: nat)

  /** How the bytes of a copy are laid out in a linear buffer. */
  datatype CopyLayout = CopyLayout(bytesPerRow: nat, rowsPerImage: nat)

  predicate SupportedBitsPerPixel(bpp: nat)
  {
    bpp == 3 || bpp == 4
  }

  /**
   * The first `n` pixels of `rgb` widened to four bytes each: blue, green, red, then an
   * opaque alpha of 255.
   */
  function Expanded(rgb: seq<byte>, n: nat): (r: seq<byte>)
    requires 3 * n <= |rgb|
    ensures |r| == 4 * n
    ensures forall i :: 0 <= i < n ==>
      r[4 * i] == rgb[3 * i + 2] && r[4 * i + 1] == rgb[3 * i + 1] && r[4 * i + 2] == rgb[3 * i] && r[4 * i + 3] == 255
    decreases n
  {
    if n == 0 then []
    else
      var p := 3 * (n - 1);
      Expanded(rgb, n - 1) + [rgb[p + 2], rgb[p + 1], rgb[p], 255]
  }

  /** The loop of `create_from_bytes` that pushes four bytes per three-byte pixel into `temp`. */
  method ExpandRgb(buffer: seq<byte>) returns (temp: seq<byte>)
    ensures temp == Expanded(buffer, |buffer| / 3)
    ensures |temp| == 4 * (|buffer| / 3)
  {
    temp := [];
    for i := 0 to |buffer| / 3
      invariant temp == Expanded(buffer, i)
    {
      var offset := i * 3;
      var red := buffer[offset];
      var green := buffer[offset + 1];
      var blue := buffer[offset + 2];
      temp := temp + [blue];
      temp := temp + [green];
      temp := temp + [red];
      temp := temp + [255];
    }
  }

  /** Undoes the widening: the first `n` four-byte pixels back to red, green, blue. */
  function StripAlpha(bgra: seq<byte>, n: nat): (r: seq<byte>)
    requires 4 * n <= |bgra|
    ensures |r| == 3 * n
    decreases n
  {
    if n == 0 then []
    else
      var p := 4 * (n - 1);
      StripAlpha(bgra, n - 1) + [bgra[p + 2], bgra[p + 1], bgra[p]]
  }

  /** Widening and then stripping gives back the RGB bytes of the widened pixels. */
  lemma {:induction false} StripAlphaUndoesExpansion(rgb: seq<byte>, n: nat)
    requires 3 * n <= |rgb|
    ensures StripAlpha(Expanded(rgb, n), n) == rgb[..3 * n]
    decreases n
  {
    if n > 0 {
      StripAlphaUndoesExpansion(rgb, n - 1);
      var e := Expanded(rgb, n);
      assert e[..4 * (n - 1)] == Expanded(rgb, n - 1);
      StripAlphaPrefix(e, n - 1);
      assert rgb[..3 * n] == rgb[..3 * (n - 1)] + [rgb[3 * (n - 1)], rgb[3 * (n - 1) + 1], rgb[3 * (n - 1) + 2]];
    }
  }

  /** Stripping only looks at the first `4 * n` bytes. */
  lemma {:induction false} StripAlphaPrefix(bgra: seq<byte>, n: nat)
    requires 4 * n <= |bgra|
    ensures StripAlpha(bgra[..4 * n], n) == StripAlpha(bgra, n)
    decreases n
  {
    if n > 0 {
      StripAlphaPrefix(bgra, n - 1);
      assert bgra[..4 * n][..4 * (n - 1)] == bgra[..4 * (n - 1)];
      StripAlphaPrefix(bgra[..4 * n], n - 1);
    }
  }

  /**
   * The part of `create_from_bytes` between decoding and upload: the bits-per-pixel guard,
   * the widening of RGB images and the choice of the bytes that are written to the texture.
   * `pixels` is the decoded frame, whose buffer the source sizes `width * bpp * height`.
   */
  method PrepareUpload(width: nat, height: nat, bpp: nat, pixels: seq<byte>) returns (r: Result<seq<byte>, TextureError>)
    requires SupportedBitsPerPixel(bpp) ==> |pixels| == width * bpp * height
    ensures r.Failure? <==> !SupportedBitsPerPixel(bpp)
    ensures r.Failure? ==> r.error == UnsupportedBitsPerPixel(bpp)
    ensures bpp == 3 ==> r == Success(Expanded(pixels, width * height))
    ensures bpp == 4 ==> r == Success(pixels)
    ensures r.Success? ==> |r.value| == UploadLayout(width, height).bytesPerRow * UploadLayout(width, height).rowsPerImage
  {
    if !(bpp == 3 || bpp == 4) {
      return Failure(UnsupportedBitsPerPixel(bpp));
    }
    assert width * bpp * height == bpp * (width * height);
    var temp: seq<byte> := [];
    if bpp == 3 {
      temp := ExpandRgb(pixels);
    }
    assert width * 4 * height == 4 * (width * height);
    if bpp == 3 {
      r := Success(temp);
    } else {
      r := Success(pixels);
    }
  }

  /** The layout `create_from_bytes` writes with: four bytes per texel, `height` rows. */
  function UploadLayout(width: nat, height: nat): (l: CopyLayout)
    ensures l.bytesPerRow == 4 * width && l.rowsPerImage == height
  {
    CopyLayout(width * 4, height)
  }

  /**
   * The bytes a buffer must hold for a copy of `e` with layout `l` and `texel` bytes per
   * texel: one whole image for every layer but the last, then, when the last layer has
   * rows, whole rows but the last and the last row's texels. (The required bytes in a copy
   * of the WebGPU specification, for uncompressed formats.)
   */
  function RequiredBytes(l: CopyLayout, e: Extent, texel: nat): nat
  {
    (if e.depth > 1 then l.bytesPerRow * l.rowsPerImage * (e.depth - 1) else 0)
    + (if e.depth > 0 && e.height > 0 then l.bytesPerRow * (e.height - 1) + e.width * texel else 0)
  }

  /**
   * A layout is usable for a copy of `e` into or out of a buffer of `size` bytes: rows hold
   * their texels, an image holds the copy's rows (every copy here gives `rows_per_image`,
   * and WebGPU then demands it be at least the height), and the buffer is big enough.
   */
  predicate LayoutFits(l: CopyLayout, e: Extent, size: nat, texel: nat)
  {
    && l.bytesPerRow >= e.width * texel
    && l.rowsPerImage >= e.height
    && RequiredBytes(l, e, texel) <= size
  }

  /** `create_from_bytes` writes one layer of `height` rows: the upload fits exactly. */
  lemma UploadFits(width: nat, height: nat)
    ensures var e := Extent(width, height, 1);
      LayoutFits(UploadLayout(width, height), e, 4 * (width * height), 4)
      && RequiredBytes(UploadLayout(width, height), e, 4) == 4 * (width * height)
  {
    if height > 0 {
      assert width * 4 * (height - 1) + width * 4 == 4 * (width * height);
    }
  }

  /** The staging buffer size of `to_vec`: four bytes per texel of the whole texture. */
  function ReadbackSize(e: Extent): (n: nat)
    ensures n == 4 * (e.width * e.height * e.depth)
  {
    e.width * e.height * e.depth * 4
  }

  /** The layout of `to_vec`'s copy as written: `rows_per_image` is set to the depth. */
  function ReadbackLayout(e: Extent): (l: CopyLayout)
    ensures l.bytesPerRow == 4 * e.width && l.rowsPerImage == e.depth
  {
    CopyLayout(e.width * 4, e.depth)
  }

  /** The layout of `to_vec`'s copy as evidently intended: one image is `height` rows. */
  function ReadbackLayoutIntended(e: Extent): (l: CopyLayout)
    ensures l.bytesPerRow == 4 * e.width && l.rowsPerImage == e.height
  {
    CopyLayout(e.width * 4, e.height)
  }

  /** `a * b * (c - 1) + a * (b - 1) + a == a * b * c` for positive `b` and `c`. */
  lemma PitchSum(a: nat, b: nat, c: nat)
    requires b > 0 && c > 0
    ensures a * b * (c - 1) + a * (b - 1) + a == a * b * c
  {
    assert a * b * (c - 1) == a * b * c - a * b;
    assert a * (b - 1) == a * b - a;
  }

  /** The bytes of `d` images of `h` rows of pitch `a`, the last image's last row cut to `a`. */
  lemma ImagesSum(a: nat, h: nat, d: nat)
    requires d > 0
    ensures (if d > 1 then a * h * (d - 1) else 0) + (if h > 0 then a * (h - 1) + a else 0) == a * h * d
  {
    if h > 0 {
      PitchSum(a, h, d);
    } else {
      assert a * h == 0;
    }
  }

  /** With the intended layout the copy always fits and needs exactly the staging buffer. */
  lemma ReadbackIntendedFits(e: Extent)
    ensures LayoutFits(ReadbackLayoutIntended(e), e, ReadbackSize(e), 4)
    ensures RequiredBytes(ReadbackLayoutIntended(e), e, 4) == ReadbackSize(e)
  {
    if e.depth > 0 {
      ImagesSum(e.width * 4, e.height, e.depth);
      assert e.width * 4 * e.height * e.depth == e.width * e.height * e.depth * 4;
    } else {
      assert e.width * e.height * e.depth == 0;
    }
  }

  /**
   * As written, a texture with more than one layer and a depth other than its height
   * overruns the staging buffer (depth above height) or has images shorter than their
   * rows (depth below height); a single layer more than one row high has images of one row.
   */
  lemma ReadbackLayoutMismatch()
    ensures var e := Extent(1, 2, 3);
      !LayoutFits(ReadbackLayout(e), e, ReadbackSize(e), 4) && RequiredBytes(ReadbackLayout(e), e, 4) == 32 && ReadbackSize(e) == 24
    ensures var e := Extent(1, 3, 2);
      !LayoutFits(ReadbackLayout(e), e, ReadbackSize(e), 4) && ReadbackLayout(e).rowsPerImage < e.height
    ensures var e := Extent(1, 2, 1);
      !LayoutFits(ReadbackLayout(e), e, ReadbackSize(e), 4) && ReadbackLayout(e).rowsPerImage < e.height
  {
  }

  /** `a * b > 0` for positive `a` and `b`. */
  lemma MulPositive(a: int, b: int)
    requires a > 0 && b > 0
    ensures a * b > 0
  {
    Misc.MulAtLeast(a, b);
  }

  /**
   * Exactly when the layout as written is usable: a texture at least one texel wide can be
   * read back only when its depth equals its height, or it is a single layer with no rows.
   * (With no columns nothing is copied and only the rows-per-image demand remains.)
   */
  lemma ReadbackAsWrittenFitsExactly(e: Extent)
    ensures LayoutFits(ReadbackLayout(e), e, ReadbackSize(e), 4) <==>
      if e.width == 0 then e.depth >= e.height else e.depth == e.height || (e.height == 0 && e.depth == 1)
  {
    var W := e.width * 4;
    var h, d := e.height, e.depth;
    var l := ReadbackLayout(e);
    if e.width == 0 {
      assert W == 0;
      assert RequiredBytes(l, e, 4) == 0;
    } else if d == h {
      ReadbackIntendedFits(e);
    } else if d < h {
      assert l.rowsPerImage < h;
    } else if h == 0 {
      if d > 1 {
        MulPositive(W, d);
        MulPositive(W * d, d - 1);
        assert RequiredBytes(l, e, 4) > 0;
        assert ReadbackSize(e) == 0;
      } else {
        assert RequiredBytes(l, e, 4) == 0;
      }
    } else {
      // 0 < h < d: the whole images alone pass the staging size.
      assert d > 1;
      var req := W * d * (d - 1) + W * (h - 1) + W;
      assert RequiredBytes(l, e, 4) == req;
      assert req == W * d * (d - 1) + W * h;
      assert ReadbackSize(e) == W * h * d;
      MulPositive(W, d - 1);
      MulPositive(W * (d - 1), d - h);
      assert W * d * (d - 1) + W * h - W * h * d == W * (d - 1) * (d - h);
    }
  }

  /**
   * `to_vec` reinterprets the staging buffer as elements of four bytes (`u32`, `f32`): it
   * gets one element per texel.
   */
  lemma ReadbackElementCount<T>(e: Extent, staging: seq<byte>, decode: seq<byte> -> T)
    requires |staging| == ReadbackSize(e)
    ensures |Misc.Convert(staging, 4, decode)| == e.width * e.height * e.depth
  {
    Misc.DivUnique(|staging|, 4, e.width * e.height * e.depth, 0);
  }

  /** The extent `create_texture_array` gives a list of `count` elements: one row of `count` texels. */
  function TextureArrayExtent(count: nat): (e: Extent)
    ensures e.width == count && e.height == 1 && e.depth == 1
  {
    Extent(count, 1, 1)
  }

  /** The layout `create_texture_array` writes with: one row of `elemSize * count` bytes. */
  function TextureArrayLayout(count: nat, elemSize: nat): (l: CopyLayout)
    ensures l.bytesPerRow == elemSize * count && l.rowsPerImage == 1
  {
    CopyLayout(elemSize * count, 1)
  }

  /**
   * The bytes of the element list, `count * elemSize` of them, are exactly what the copy of
   * the one-row texture reads when a texel is one element.
   */
  lemma TextureArrayCoversData(count: nat, elemSize: nat)
    ensures var e := TextureArrayExtent(count);
      var l := TextureArrayLayout(count, elemSize);
      LayoutFits(l, e, count * elemSize, elemSize) && RequiredBytes(l, e, elemSize) == count * elemSize
  {
  }
}
