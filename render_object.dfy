/**
 * `create_vb_descriptor` of ufo3000_core/src/render_object.rs: the attribute layout of one
 * interleaved vertex buffer. Each vertex format gets the next shader location and an offset
 * equal to the bytes taken by the formats before it; the stride is the bytes of all of them.
 * Half-precision formats are unimplemented and double-precision ones need a device feature
 * the code does not enable; both stop the computation.
 */
module RenderObject {
  import opened Common

  /** The vertex formats of the graphics API. */
  datatype VertexFormat =
    | Uint8x2 | Uint8x4 | Sint8x2 | Sint8x4 | Unorm8x2 | Unorm8x4 | Snorm8x2 | Snorm8x4
    | Uint16x2 | Uint16x4 | Sint16x2 | Sint16x4 | Unorm16x2 | Unorm16x4 | Snorm16x2 | Snorm16x4
    | Float16x2 | Float16x4
    | Float32 | Float32x2 | Float32x3 | Float32x4
    | Uint32 | Uint32x2 | Uint32x3 | Uint32x4
    | Sint32 | Sint32x2 | Sint32x3 | Sint32x4
    | Float64 | Float64x2 | Float64x3 | Float64x4

  /** One vertex attribute: its format, its byte offset in the vertex, and its shader location. */
  datatype VertexAttribute = VertexAttribute(format: VertexFormat, offset: nat, shaderLocation: nat)

  /** The result of `create_vb_descriptor`: the stride and the attributes. */
  datatype Layout = Layout(stride: nat, attributes: seq<VertexAttribute>)

  /** Why a format is rejected: `unimplemented!()`, or the panic about 64-bit attributes. */
  datatype LayoutError = Unimplemented(format: VertexFormat) | DoubleFormatsDisabled(format: VertexFormat)

  predicate IsHalf(f: VertexFormat)
  {
    f.Float16x2? || f.Float16x4?
  }

  predicate IsDouble(f: VertexFormat)
  {
    f.Float64? || f.Float64x2? || f.Float64x3? || f.Float64x4?
  }

  /** The byte size of one format: components times the size of one component. */
  function FormatSize(f: VertexFormat): (r: Result<nat, LayoutError>)
    ensures r.Failure? <==> IsHalf(f) || IsDouble(f)
    ensures IsHalf(f) ==> r == Failure(Unimplemented(f))
    ensures IsDouble(f) ==> r == Failure(DoubleFormatsDisabled(f))
    ensures r.Success? ==> 2 <= r.value <= 16 && r.value % 2 == 0
  {
    match f
    case Uint8x2 => Success(2 * 1)
    case Uint8x4 => Success(4 * 1)
    case Sint8x2 => Success(2 * 1)
    case Sint8x4 => Success(4 * 1)
    case Unorm8x2 => Success(2 * 1)
    case Unorm8x4 => Success(4 * 1)
    case Snorm8x2 => Success(2 * 1)
    case Snorm8x4 => Success(4 * 1)
    case Uint16x2 => Success(2 * 2)
    case Uint16x4 => Success(4 * 2)
    case Sint16x2 => Success(2 * 2)
    case Sint16x4 => Success(4 * 2)
    case Unorm16x2 => Success(2 * 2)
    case Unorm16x4 => Success(4 * 2)
    case Snorm16x2 => Success(2 * 2)
    case Snorm16x4 => Success(4 * 2)
    case Float16x2 => Failure(Unimplemented(f))
    case Float16x4 => Failure(Unimplemented(f))
    case Float32 => Success(4)
    case Float32x2 => Success(2 * 4)
    case Float32x3 => Success(3 * 4)
    case Float32x4 => Success(4 * 4)
    case Uint32 => Success(4)
    case Uint32x2 => Success(2 * 4)
    case Uint32x3 => Success(3 * 4)
    case Uint32x4 => Success(4 * 4)
    case Sint32 => Success(4)
    case Sint32x2 => Success(2 * 4)
    case Sint32x3 => Success(3 * 4)
    case Sint32x4 => Success(4 * 4)
    case Float64 => Failure(DoubleFormatsDisabled(f))
    case Float64x2 => Failure(DoubleFormatsDisabled(f))
    case Float64x3 => Failure(DoubleFormatsDisabled(f))
    case Float64x4 => Failure(DoubleFormatsDisabled(f))
  }

  predicate Supported(f: VertexFormat)
  {
    FormatSize(f).Success?
  }

  predicate AllSupported(fs: seq<VertexFormat>)
  {
    forall i :: 0 <= i < |fs| ==> Supported(fs[i])
  }

  /** The bytes taken by a list of supported formats. */
  function SizeSum(fs: seq<VertexFormat>): nat
    requires AllSupported(fs)
    decreases |fs|
  {
    if fs == [] then 0 else SizeSum(fs[..|fs| - 1]) + FormatSize(fs[|fs| - 1]).value
  }

  /**
   * The layout the loop builds, one format at a time from the front: the first rejected
   * format stops it with that format's error.
   */
  function VbLayout(fs: seq<VertexFormat>): Result<Layout, LayoutError>
    decreases |fs|
  {
    if fs == [] then Success(Layout(0, []))
    else
      match VbLayout(fs[..|fs| - 1])
      case Failure(e) => Failure(e)
      case Success(l) =>
        match FormatSize(fs[|fs| - 1])
        case Failure(e) => Failure(e)
        case Success(size) =>
          Success(Layout(l.stride + size, l.attributes + [VertexAttribute(fs[|fs| - 1], l.stride, |fs| - 1)]))
  }

  /** Once a prefix of the formats is rejected, the whole list is rejected with the same error. */
  lemma {:induction false} FailurePersists(fs: seq<VertexFormat>, n: nat)
    requires n <= |fs| && VbLayout(fs[..n]).Failure?
    ensures VbLayout(fs) == VbLayout(fs[..n])
    decreases |fs| - n
  {
    if n < |fs| {
      var p := fs[..n + 1];
      assert p[..|p| - 1] == fs[..n];
      assert VbLayout(p) == VbLayout(fs[..n]);
      FailurePersists(fs, n + 1);
    } else {
      assert fs[..n] == fs;
    }
  }

  /** `create_vb_descriptor`: the loop that pushes one attribute per format and advances the stride. */
  method CreateVbDescriptor(formats: seq<VertexFormat>) returns (r: Result<Layout, LayoutError>)
    ensures r == VbLayout(formats)
  {
    var attributeDescriptors: seq<VertexAttribute> := [];
    var stride: nat := 0;
    for i := 0 to |formats|
      invariant VbLayout(formats[..i]) == Success(Layout(stride, attributeDescriptors))
    {
      var prefix := formats[..i + 1];
      assert prefix[..|prefix| - 1] == formats[..i];
      var size := FormatSize(formats[i]);
      if size.Failure? {
        FailurePersists(formats, i + 1);
        return Failure(size.error);
      }
      attributeDescriptors := attributeDescriptors + [VertexAttribute(formats[i], stride, i)];
      stride := stride + size.value;
    }
    assert formats[..|formats|] == formats;
    return Success(Layout(stride, attributeDescriptors));
  }

  /**
   * The layout exists exactly when every format is supported; then there is one attribute
   * per format, attribute `i` has format `formats[i]`, shader location `i` and the size of
   * the formats before it as offset, and the stride is the size of them all.
   */
  lemma {:induction false} VbLayoutIsPrefixSums(fs: seq<VertexFormat>)
    ensures VbLayout(fs).Success? <==> AllSupported(fs)
    ensures VbLayout(fs).Success? ==>
      && VbLayout(fs).value.stride == SizeSum(fs)
      && |VbLayout(fs).value.attributes| == |fs|
      && forall i :: 0 <= i < |fs| ==>
           VbLayout(fs).value.attributes[i] == VertexAttribute(fs[i], SizeSum(fs[..i]), i)
    decreases |fs|
  {
    if fs != [] {
      var init := fs[..|fs| - 1];
      VbLayoutIsPrefixSums(init);
      assert forall i :: 0 <= i < |init| ==> init[i] == fs[i];
      if AllSupported(fs) {
        assert AllSupported(init) && Supported(fs[|fs| - 1]);
      }
      if VbLayout(fs).Success? {
        assert AllSupported(init);
        var attrs := VbLayout(fs).value.attributes;
        forall i | 0 <= i < |fs|
          ensures attrs[i] == VertexAttribute(fs[i], SizeSum(fs[..i]), i)
        {
          if i < |init| {
            assert fs[..i] == init[..i];
          } else {
            assert fs[..i] == init;
          }
        }
      }
    }
  }

  /** A rejected list is rejected with the error of its first unsupported format. */
  lemma {:induction false} VbLayoutReportsFirstRejected(fs: seq<VertexFormat>)
    requires VbLayout(fs).Failure?
    ensures exists i :: 0 <= i < |fs| && AllSupported(fs[..i]) && FormatSize(fs[i]) == Failure(VbLayout(fs).error)
    decreases |fs|
  {
    var init := fs[..|fs| - 1];
    assert forall i :: 0 <= i < |init| ==> init[i] == fs[i];
    if VbLayout(init).Failure? {
      VbLayoutReportsFirstRejected(init);
      var i :| 0 <= i < |init| && AllSupported(init[..i]) && FormatSize(init[i]) == Failure(VbLayout(init).error);
      assert init[..i] == fs[..i];
    } else {
      VbLayoutIsPrefixSums(init);
      assert init == fs[..|fs| - 1];
    }
  }

  /** The sum over a prefix grows by at least two bytes per format. */
  lemma {:induction false} SizeSumGrows(fs: seq<VertexFormat>, i: nat, j: nat)
    requires AllSupported(fs) && i <= j <= |fs|
    ensures SizeSum(fs[..i]) + 2 * (j - i) <= SizeSum(fs[..j])
    decreases j - i
  {
    if i < j {
      SizeSumGrows(fs, i, j - 1);
      var p := fs[..j];
      assert p[..|p| - 1] == fs[..j - 1];
    }
  }

  /** Offsets are strictly increasing, and every offset is below the stride. */
  lemma OffsetsIncrease(fs: seq<VertexFormat>, i: nat, j: nat)
    requires AllSupported(fs) && i < j < |fs|
    ensures var r := VbLayout(fs);
      && r.Success? && |r.value.attributes| == |fs|
      && r.value.attributes[i].offset < r.value.attributes[j].offset < r.value.stride
  {
    VbLayoutIsPrefixSums(fs);
    SizeSumGrows(fs, i, j);
    SizeSumGrows(fs, j, |fs|);
    assert fs[..|fs|] == fs;
  }

  /** Concrete sizes from the table. */
  lemma SizeTable()
    ensures FormatSize(Uint8x2) == Success(2) && FormatSize(Float32) == Success(4)
    ensures FormatSize(Float32x3) == Success(12) && FormatSize(Sint32x4) == Success(16)
    ensures VbLayout([]) == Success(Layout(0, []))
  {
  }
}
