/**
 * ufo3000_core/src/misc.rs: the second copy of `create_vb_descriptor`, `clamp`, and the
 * `convert` body that the `impl_convert!` macro gives to every plain-data type.
 */
module Misc {
  import opened Common
  import RenderObject

  /**
   * misc.rs's `create_vb_descriptor` has the same body, line for line, as the one in
   * render_object.rs, so the model runs the same loop and has the same specification.
   */
  method CreateVbDescriptor(formats: seq<RenderObject.VertexFormat>)
    returns (r: Result<RenderObject.Layout, RenderObject.LayoutError>)
    ensures r == RenderObject.VbLayout(formats)
  {
    r := RenderObject.CreateVbDescriptor(formats);
  }

  /**
   * `clamp` as written: the first step caps `val` at `max`, but the second step returns
   * `val` rather than the capped value, so only the lower bound takes effect. (The source
   * works on 32-bit floats; here on reals, so without NaN.)
   */
  function Clamp(val: real, min: real, max: real): (r: real)
    ensures val <= min ==> r == min
    ensures min < max && val > min ==> r == val
    ensures max <= min ==> r == min
    ensures r >= min
  {
    var result := if val >= max then max else val;
    if result <= min then min else val
  }

  /** The upper bound is ignored: clamping 5 to [0, 1] gives 5. */
  lemma ClampIgnoresUpperBound()
    ensures Clamp(5.0, 0.0, 1.0) == 5.0
    ensures exists v: real :: Clamp(v, 0.0, 1.0) > 1.0
  {
    assert Clamp(5.0, 0.0, 1.0) == 5.0;
  }

  /** `clamp` as evidently intended: the capped value is returned, so the result lies in `[min, max]`. */
  function ClampIntended(val: real, min: real, max: real): (r: real)
    requires min <= max
    ensures min <= r <= max
    ensures min <= val <= max ==> r == val
    ensures val < min ==> r == min
    ensures val > max ==> r == max
  {
    var result := if val >= max then max else val;
    if result <= min then min else result
  }

  /** The two agree wherever the upper bound is not exceeded. */
  lemma ClampAgreesBelowMax(val: real, min: real, max: real)
    requires min < max && val < max
    ensures Clamp(val, min, max) == ClampIntended(val, min, max)
  {
  }

  /**
   * `convert`: splits the bytes into chunks of `size` bytes (the size of the element type),
   * decodes each chunk with `decode`, and drops a trailing partial chunk.
   */
  function Convert<T>(data: seq<byte>, size: nat, decode: seq<byte> -> T): (r: seq<T>)
    requires size > 0
    ensures |r| == |data| / size
    decreases |data|
  {
    if |data| < size then
      DivUnique(|data|, size, 0, |data|);
      []
    else
      var rest := Convert(data[size..], size, decode);
      CountStep(|data|, size, |rest|);
      [decode(data[..size])] + rest
  }

  /** Element `k` of the result is the decoding of the `k`-th chunk of `size` bytes. */
  lemma {:induction false} ConvertAt<T>(data: seq<byte>, size: nat, decode: seq<byte> -> T, k: nat)
    requires size > 0 && k < |data| / size
    ensures k * size + size <= |data|
    ensures Convert(data, size, decode)[k] == decode(data[k * size..k * size + size])
    decreases |data|
  {
    MulAtLeast(|data| / size, size);
    assert |data| >= size;
    CountStep(|data|, size, (|data| - size) / size);
    if k > 0 {
      ConvertAt(data[size..], size, decode, k - 1);
      ShiftChunk(data, size, k);
    }
  }

  /** One more whole chunk in front adds one to the count. */
  lemma CountStep(n: nat, size: nat, count: nat)
    requires 0 < size <= n && count == (n - size) / size
    ensures n / size == count + 1
  {
    var m := (n - size) % size;
    assert n - size == count * size + m;
    assert n == (count + 1) * size + m;
    DivUnique(n, size, count + 1, m);
  }

  /** Chunk `k - 1` of the bytes after the first chunk is chunk `k` of all the bytes. */
  lemma ShiftChunk(data: seq<byte>, size: nat, k: nat)
    requires size > 0 && 1 <= k && size <= |data| && (k - 1) * size + size <= |data| - size
    ensures k * size + size <= |data|
    ensures data[size..][(k - 1) * size..(k - 1) * size + size] == data[k * size..k * size + size]
  {
    assert (k - 1) * size + size == k * size;
  }

  /** Quotient and remainder are unique. */
  lemma DivUnique(n: int, s: int, q: int, m: int)
    requires 0 < s && 0 <= m < s && n == q * s + m
    ensures n / s == q && n % s == m
  {
    var q', m' := n / s, n % s;
    assert n == q' * s + m';
    assert (q - q') * s == m' - m;
    MulSmall(q - q', s);
  }

  /** A multiple of `s` strictly between `-s` and `s` is zero. */
  lemma MulSmall(a: int, s: int)
    requires s > 0 && -s < a * s < s
    ensures a == 0
  {
    if a >= 1 {
      MulAtLeast(a, s);
    } else if a <= -1 {
      MulAtLeast(-a, s);
    }
  }

  lemma MulAtLeast(a: int, s: int)
    requires a >= 1 && s > 0
    ensures a * s >= s
  {
  }

  /** Bytes after the last whole chunk do not change the result. */
  lemma {:induction false} ConvertDropsPartialChunk<T>(data: seq<byte>, tail: seq<byte>, size: nat, decode: seq<byte> -> T)
    requires size > 0 && |data| % size == 0 && |tail| < size
    ensures Convert(data + tail, size, decode) == Convert(data, size, decode)
    decreases |data|
  {
    if |data| == 0 {
      assert data + tail == tail;
    } else {
      var q := |data| / size;
      assert |data| == q * size;
      MulAtLeast(q, size);
      assert |data| - size == (q - 1) * size;
      DivUnique(|data| - size, size, q - 1, 0);
      assert (data + tail)[size..] == data[size..] + tail;
      assert (data + tail)[..size] == data[..size];
      ConvertDropsPartialChunk(data[size..], tail, size, decode);
    }
  }

  /** The bytes of a list of values, each encoded in `size` bytes. */
  function Flatten<T>(xs: seq<T>, encode: T -> seq<byte>): seq<byte>
    decreases |xs|
  {
    if xs == [] then [] else encode(xs[0]) + Flatten(xs[1..], encode)
  }

  /** Decoding the bytes of encoded values gives the values back, in order. */
  lemma {:induction false} ConvertFlattenRoundTrip<T>(xs: seq<T>, size: nat, encode: T -> seq<byte>, decode: seq<byte> -> T)
    requires size > 0
    requires forall x :: |encode(x)| == size && decode(encode(x)) == x
    ensures Convert(Flatten(xs, encode), size, decode) == xs
    decreases |xs|
  {
    if xs != [] {
      var bytes := Flatten(xs, encode);
      assert |encode(xs[0])| == size;
      assert bytes[..size] == encode(xs[0]);
      assert bytes[size..] == Flatten(xs[1..], encode);
      ConvertFlattenRoundTrip(xs[1..], size, encode, decode);
    }
  }
}
