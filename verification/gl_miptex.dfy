/**
 * Turning a texture from a wad or BSP into an RGBA image (gl/GLMiptex.cpp):
 * the palette conversion, the power-of-two image size and the box-filtered
 * resampling `UploadMiptex` does before handing the image to OpenGL.
 *
 * A texture is the byte sequence that starts at its `miptex_t` header and runs
 * to the end of the buffer holding it. The OpenGL texture name that
 * `glGenTextures` yields is a parameter; the OpenGL calls themselves are not
 * modelled. Texel positions, which the source computes in `float`, are
 * computed exactly here.
 */
module GLMiptex {
  import opened Bytes
  import opened Wrappers
  import opened WadIO

  const PALETTE_ENTRIES: nat := 256

  /** `MAX_TEXTURE_DIMS`: the largest image side uploaded. */
  const MAX_TEXTURE_DIMS: nat := 512

  /** `TexFormat_t`; any other value is converted like `SPR_NORMAL`. */
  const SPR_NORMAL: int := 0
  const SPR_ADDITIVE: int := 1
  const SPR_INDEXALPHA: int := 2
  const SPR_ALPHTEST: int := 3

  // -------------------------------------------------------------- palette

  /** The alpha `Convert8To32Bit` gives palette entry `e`. */
  function Alpha(palette: seq<byte>, format: int, e: nat): (a: byte)
    requires |palette| == 3 * PALETTE_ENTRIES && e < PALETTE_ENTRIES
    ensures format == SPR_INDEXALPHA ==> a == e
    ensures format != SPR_INDEXALPHA ==> a == 255
  {
    if format == SPR_INDEXALPHA then e
    else if format == SPR_ALPHTEST then (if palette[e] == 255 then palette[e] else 255)
    else 255
  }

  /**
   * `Convert8To32Bit`: each of the 256 RGB entries becomes an RGBA entry with
   * the format's alpha; with `SPR_ALPHTEST` the last entry is the transparent
   * colour and is cleared entirely.
   */
  function Convert8To32Bit(palette: seq<byte>, format: int): (rgba: seq<byte>)
    requires |palette| == 3 * PALETTE_ENTRIES
    ensures |rgba| == 4 * PALETTE_ENTRIES
    ensures forall e, c :: 0 <= e < PALETTE_ENTRIES && 0 <= c < 3 ==>
      Channel(rgba, e, c) == if format == SPR_ALPHTEST && e == 255 then 0 else palette[3 * e + c]
    ensures forall e :: 0 <= e < PALETTE_ENTRIES ==>
      Channel(rgba, e, 3) == if format == SPR_ALPHTEST && e == 255 then 0
                             else if format == SPR_INDEXALPHA then e else 255
  {
    seq(4 * PALETTE_ENTRIES, n requires 0 <= n < 4 * PALETTE_ENTRIES =>
      var e := n / 4;
      var c := n % 4;
      if format == SPR_ALPHTEST && e == 255 then 0
      else if c < 3 then palette[3 * e + c]
      else Alpha(palette, format, e))
  }

  /** Channel `c` of entry `e` of an RGBA palette. */
  function Channel(rgba: seq<byte>, e: nat, c: nat): byte
    requires |rgba| == 4 * PALETTE_ENTRIES && e < PALETTE_ENTRIES && c < 4
  {
    rgba[4 * e + c]
  }

  /** The RGB part of an RGBA palette. */
  function Colours(rgba: seq<byte>): (palette: seq<byte>)
    requires |rgba| == 4 * PALETTE_ENTRIES
    ensures |palette| == 3 * PALETTE_ENTRIES
  {
    seq(3 * PALETTE_ENTRIES, n requires 0 <= n < 3 * PALETTE_ENTRIES => rgba[4 * (n / 3) + n % 3])
  }

  /**
   * The conversion keeps every colour: dropping the alpha again gives back the
   * palette, except the transparent colour under `SPR_ALPHTEST`.
   */
  lemma ColoursRoundTrip(palette: seq<byte>, format: int)
    requires |palette| == 3 * PALETTE_ENTRIES
    ensures format != SPR_ALPHTEST ==> Colours(Convert8To32Bit(palette, format)) == palette
    ensures Colours(Convert8To32Bit(palette, format))[..765] == palette[..765]
  {
    var rgba := Convert8To32Bit(palette, format);
    forall n | 0 <= n < 3 * PALETTE_ENTRIES
      ensures Colours(rgba)[n] == if format == SPR_ALPHTEST && n >= 765 then 0 else palette[n]
    {
      var e := n / 3;
      var c := n % 3;
      assert 3 * e + c == n;
      assert Channel(rgba, e, c) == if format == SPR_ALPHTEST && e == 255 then 0 else palette[3 * e + c];
    }
  }

  // ------------------------------------------------------------ image size

  /** `v` is a power of two. */
  predicate IsPowerOfTwo(v: nat)
    decreases v
  {
    v == 1 || (v >= 2 && v % 2 == 0 && IsPowerOfTwo(v / 2))
  }

  /**
   * The loop `for (out = 1; out < size; out <<= 1)` on a C `int`, from `out`:
   * the least power of two not below `size`, unless doubling passes the
   * largest `int` first.
   */
  function PowerAtLeastAsWritten(size: int32, out: nat): (r: Outcome<nat>)
    requires IsPowerOfTwo(out) && out < 0x8000_0000
    ensures r.Done? ==> IsPowerOfTwo(r.value) && size <= r.value && (r.value == out || r.value / 2 < size)
    ensures !r.Rejected?
    decreases 0x8000_0000 - out
  {
    if out >= size then Done(out)
    else if 2 * out >= 0x8000_0000 then Crashed
    else PowerAtLeastAsWritten(size, 2 * out)
  }

  /**
   * `CalculateImageDimensions` as written: no size for a non-positive side;
   * otherwise each side rounded up to a power of two, then capped at 512. A
   * side above 2^30 doubles the loop counter past the largest `int`.
   */
  function ImageDimensionsAsWritten(width: int32, height: int32): (r: Outcome<Option<(nat, nat)>>)
    ensures width <= 0 || height <= 0 ==> r == Done(None)
  {
    if width <= 0 || height <= 0 then Done(None)
    else
      var w :- PowerAtLeastAsWritten(width, 1);
      var h :- PowerAtLeastAsWritten(height, 1);
      Done(Some((Cap(w), Cap(h))))
  }

  /** The least power of two from `out` on that is not below `size`, or 512 when that is larger. */
  function PowerAtLeast(size: int, out: nat): (r: nat)
    requires IsPowerOfTwo(out) && out <= MAX_TEXTURE_DIMS
    ensures IsPowerOfTwo(r) && out <= r <= MAX_TEXTURE_DIMS
    ensures r == MAX_TEXTURE_DIMS || size <= r
    ensures r == out || r / 2 < size
    decreases MAX_TEXTURE_DIMS - out
  {
    if out >= size || out == MAX_TEXTURE_DIMS then out
    else
      PowersUsed();
      PowerOfTwoDoubles(out, MAX_TEXTURE_DIMS);
      PowerAtLeast(size, 2 * out)
  }

  /** A power of two below another power of two doubles to at most that one. */
  lemma {:induction false} PowerOfTwoDoubles(v: nat, b: nat)
    requires IsPowerOfTwo(v) && IsPowerOfTwo(b) && v < b
    ensures 2 * v <= b && IsPowerOfTwo(2 * v)
    decreases v
  {
    assert (2 * v) / 2 == v;
    if v > 1 {
      PowerOfTwoDoubles(v / 2, b / 2);
    }
  }

  /** The two powers of two the loops compare with: 2^9 and 2^30. */
  lemma PowersUsed()
    ensures IsPowerOfTwo(MAX_TEXTURE_DIMS) && IsPowerOfTwo(0x4000_0000)
  {
    assert IsPowerOfTwo(0x2);
    assert IsPowerOfTwo(0x4);
    assert IsPowerOfTwo(0x8);
    assert IsPowerOfTwo(0x10);
    assert IsPowerOfTwo(0x20);
    assert IsPowerOfTwo(0x40);
    assert IsPowerOfTwo(0x80);
    assert IsPowerOfTwo(0x100);
    assert IsPowerOfTwo(0x200);
    assert IsPowerOfTwo(0x400);
    assert IsPowerOfTwo(0x800);
    assert IsPowerOfTwo(0x1000);
    assert IsPowerOfTwo(0x2000);
    assert IsPowerOfTwo(0x4000);
    assert IsPowerOfTwo(0x8000);
    assert IsPowerOfTwo(0x10000);
    assert IsPowerOfTwo(0x20000);
    assert IsPowerOfTwo(0x40000);
    assert IsPowerOfTwo(0x80000);
    assert IsPowerOfTwo(0x100000);
    assert IsPowerOfTwo(0x200000);
    assert IsPowerOfTwo(0x400000);
    assert IsPowerOfTwo(0x800000);
    assert IsPowerOfTwo(0x1000000);
    assert IsPowerOfTwo(0x2000000);
    assert IsPowerOfTwo(0x4000000);
    assert IsPowerOfTwo(0x8000000);
    assert IsPowerOfTwo(0x10000000);
    assert IsPowerOfTwo(0x20000000);
    assert IsPowerOfTwo(0x40000000);
  }

  /** The side after capping at 512. */
  function Cap(v: nat): (r: nat)
    ensures r <= MAX_TEXTURE_DIMS && (r == v || r == MAX_TEXTURE_DIMS)
  {
    if v > MAX_TEXTURE_DIMS then MAX_TEXTURE_DIMS else v
  }

  /**
   * `CalculateImageDimensions` with the doubling stopped at 512: each positive
   * side becomes the least power of two not below it, capped at 512.
   */
  function ImageDimensions(width: int, height: int): (r: Option<(nat, nat)>)
    ensures r.None? <==> width <= 0 || height <= 0
    ensures r.Some? ==> 1 <= r.value.0 <= MAX_TEXTURE_DIMS && 1 <= r.value.1 <= MAX_TEXTURE_DIMS
    ensures r.Some? ==> IsPowerOfTwo(r.value.0) && IsPowerOfTwo(r.value.1)
    ensures r.Some? ==> ((r.value.0 == MAX_TEXTURE_DIMS || width <= r.value.0)
      && (r.value.1 == MAX_TEXTURE_DIMS || height <= r.value.1))
    ensures r.Some? ==> (r.value.0 == 1 || r.value.0 / 2 < width) && (r.value.1 == 1 || r.value.1 / 2 < height)
  {
    if width <= 0 || height <= 0 then None
    else Some((PowerAtLeast(width, 1), PowerAtLeast(height, 1)))
  }

  /** Up to 2^30 the loop stops on its own; capped, it gives what the bounded loop gives. */
  lemma {:induction false} PowerAtLeastAgrees(size: int32, out: nat)
    requires IsPowerOfTwo(out) && out <= MAX_TEXTURE_DIMS && size <= 0x4000_0000
    ensures PowerAtLeastAsWritten(size, out).Done?
    ensures Cap(PowerAtLeastAsWritten(size, out).value) == PowerAtLeast(size, out)
    decreases 0x4000_0000 - out
  {
    if out >= size {
    } else if out == MAX_TEXTURE_DIMS {
      AsWrittenAtLeastFrom(size, out);
    } else {
      PowersUsed();
      PowerOfTwoDoubles(out, MAX_TEXTURE_DIMS);
      PowerAtLeastAgrees(size, 2 * out);
    }
  }

  /** From a counter not below 512, the loop (when it stops) ends at or above 512. */
  lemma {:induction false} AsWrittenAtLeastFrom(size: int32, out: nat)
    requires IsPowerOfTwo(out) && MAX_TEXTURE_DIMS <= out < 0x8000_0000 && size <= 0x4000_0000
    requires out <= 0x4000_0000
    ensures PowerAtLeastAsWritten(size, out).Done?
    ensures PowerAtLeastAsWritten(size, out).value >= MAX_TEXTURE_DIMS
    decreases 0x4000_0000 - out
  {
    if out < size {
      PowersUsed();
      PowerOfTwoDoubles(out, 0x4000_0000);
      AsWrittenAtLeastFrom(size, 2 * out);
    }
  }

  /** Where no side is above 2^30, the loop as written and the bounded loop agree. */
  lemma DimensionsAgree(width: int32, height: int32)
    requires width <= 0x4000_0000 && height <= 0x4000_0000
    ensures ImageDimensionsAsWritten(width, height) == Done(ImageDimensions(width, height))
  {
    if width > 0 && height > 0 {
      PowerAtLeastAgrees(width, 1);
      PowerAtLeastAgrees(height, 1);
    }
  }

  /** A side of 2^30 + 1 overflows the loop as written; the bounded loop caps it at 512. */
  lemma OverflowingSide()
    ensures ImageDimensionsAsWritten(0x4000_0001, 1).Crashed?
    ensures ImageDimensions(0x4000_0001, 1) == Some((MAX_TEXTURE_DIMS, 1))
  {
    AsWrittenPassesTwoToThe30(0x4000_0001, 1);
  }

  /** Counting up to a size above 2^30 reaches 2^30 and then overflows. */
  lemma {:induction false} AsWrittenPassesTwoToThe30(size: int32, out: nat)
    requires IsPowerOfTwo(out) && out <= 0x4000_0000 && size > 0x4000_0000
    ensures PowerAtLeastAsWritten(size, out).Crashed?
    decreases 0x4000_0000 - out
  {
    if out < 0x4000_0000 {
      PowersUsed();
      PowerOfTwoDoubles(out, 0x4000_0000);
      AsWrittenPassesTwoToThe30(size, 2 * out);
    }
  }

  // ------------------------------------------------------------ resampling

  /** An RGBA image: `height` rows of `width` texels of four bytes each. */
  datatype Image = Image(width: nat, height: nat, rows: seq<seq<seq<byte>>>)

  /** `(a + b + c + d) >> 2`. */
  function Average4(a: byte, b: byte, c: byte, d: byte): (r: byte)
    ensures 4 * r <= a + b + c + d < 4 * r + 4
  {
    (a + b + c + d) / 4
  }

  /** The average lies between the smallest and the largest of the four. */
  lemma AverageBetween(a: byte, b: byte, c: byte, d: byte)
    ensures var r := Average4(a, b, c, d);
      (r >= a || r >= b || r >= c || r >= d) && (r <= a || r <= b || r <= c || r <= d)
  {
  }

  lemma MulStrict(a: nat, b: nat, k: nat)
    requires a < b && k >= 1
    ensures a * k < b * k
  {
  }

  lemma DivBelow(x: nat, d: nat, k: nat)
    requires d >= 1 && x < d * k
    ensures x / d < k
  {
    var q := x / d;
    assert d * q <= x;
    if q >= k {
      MulMono(k, q, d);
    }
  }

  /**
   * The source position a target coordinate samples: `(int)((i + q / 4) *
   * (size / (float)out))` for `q` 1 or 3, computed exactly.
   */
  function SamplePos(i: nat, q: nat, size: nat, out: nat): (p: nat)
    requires out >= 1 && i < out && (q == 1 || q == 3)
    ensures size >= 1 ==> p < size
  {
    if size >= 1 then
      ScaledBelow(4 * i + q, 4 * out, size);
      Scaled(4 * i + q, 4 * out, size)
    else 0
  }

  /** `a * k / b`, truncated. */
  function Scaled(a: nat, b: nat, k: nat): nat
    requires b >= 1
  {
    (a * k) / b
  }

  /** `a * k / b` stays below `k` when `a < b`. */
  lemma ScaledBelow(a: nat, b: nat, k: nat)
    requires a < b && k >= 1
    ensures Scaled(a, b, k) < k
  {
    MulStrict(a, b, k);
    DivBelow(a * k, b, k);
  }

  /** The index, in level 0, of the texel that target row `i` and column `j` sample with offsets `qi`, `qj`. */
  function SampleIndex(width: nat, height: nat, out: (nat, nat), i: nat, j: nat, qi: nat, qj: nat): nat
    requires out.0 >= 1 && out.1 >= 1 && i < out.1 && j < out.0
    requires (qi == 1 || qi == 3) && (qj == 1 || qj == 3)
  {
    SamplePos(i, qi, height, out.1) * width + SamplePos(j, qj, width, out.0)
  }

  /** Every texel the filter samples lies inside mip level 0 (`width * height` bytes). */
  lemma SamplesInLevelZero(width: nat, height: nat, out: (nat, nat), i: nat, j: nat, qi: nat, qj: nat)
    requires width >= 1 && height >= 1
    requires out.0 >= 1 && out.1 >= 1 && i < out.1 && j < out.0
    requires (qi == 1 || qi == 3) && (qj == 1 || qj == 3)
    ensures SampleIndex(width, height, out, i, j, qi, qj) < width * height
  {
    var r := SamplePos(i, qi, height, out.1);
    var c := SamplePos(j, qj, width, out.0);
    MulMono(r, height - 1, width);
    assert (height - 1) * width + width == height * width;
  }

  /** Every sampled texel of the image lies inside the buffer. */
  predicate SamplesInData(data: seq<byte>, base: nat, width: nat, height: nat, out: (nat, nat))
    requires out.0 >= 1 && out.1 >= 1
  {
    forall i, j, qi, qj :: 0 <= i < out.1 && 0 <= j < out.0 && 1 <= qi <= 3 && qi != 2 && 1 <= qj <= 3 && qj != 2 ==>
      base + SampleIndex(width, height, out, i, j, qi, qj) < |data|
  }

  /** Channel `c` of target texel (`i`, `j`): the average of the four sampled palette colours. */
  function Texel(data: seq<byte>, base: nat, width: nat, height: nat, out: (nat, nat), rgba: seq<byte>,
                 i: nat, j: nat, c: nat): byte
    requires out.0 >= 1 && out.1 >= 1 && i < out.1 && j < out.0 && c < 4
    requires |rgba| == 4 * PALETTE_ENTRIES && SamplesInData(data, base, width, height, out)
  {
    var p1 := data[base + SampleIndex(width, height, out, i, j, 1, 1)];
    var p2 := data[base + SampleIndex(width, height, out, i, j, 1, 3)];
    var p3 := data[base + SampleIndex(width, height, out, i, j, 3, 1)];
    var p4 := data[base + SampleIndex(width, height, out, i, j, 3, 3)];
    Average4(Channel(rgba, p1, c), Channel(rgba, p2, c), Channel(rgba, p3, c), Channel(rgba, p4, c))
  }

  /** The resampled image: `out.1` rows of `out.0` texels. */
  function Resample(data: seq<byte>, base: nat, width: nat, height: nat, out: (nat, nat), rgba: seq<byte>)
    : (img: Image)
    requires out.0 >= 1 && out.1 >= 1
    requires |rgba| == 4 * PALETTE_ENTRIES && SamplesInData(data, base, width, height, out)
    ensures img.width == out.0 && img.height == out.1 && |img.rows| == out.1
    ensures forall i :: 0 <= i < out.1 ==> (|img.rows[i]| == out.0
      && forall j :: 0 <= j < out.0 ==> |img.rows[i][j]| == 4)
  {
    Image(out.0, out.1,
      seq(out.1, i requires 0 <= i < out.1 =>
        seq(out.0, j requires 0 <= j < out.0 =>
          seq(4, c requires 0 <= c < 4 => Texel(data, base, width, height, out, rgba, i, j, c)))))
  }

  /** Where the palette starts: after the pixels of all four mip levels and the two-byte colour count. */
  function PaletteOffset(m: Miptex): (o: nat)
    requires |m.offsets| == MIPLEVELS && m.width < U32 && m.height < U32
  {
    m.offsets[0] + MiptexPixelSize(m.width, m.height)
  }

  /**
   * `UploadMiptex` on a texture's bytes and the name `glGenTextures` gave:
   * the image it uploads, or none when the size is unusable (the source then
   * returns 0). A palette colour count other than 256 is reported but does not
   * stop the upload.
   */
  function UploadMiptex(data: seq<byte>): (r: Outcome<Option<Image>>)
    ensures |data| < MIPTEX_SIZE ==> r.Crashed?
    ensures !r.Rejected?
    ensures |data| >= MIPTEX_SIZE ==> var m := DecodeMiptex(data[..MIPTEX_SIZE]);
      && (PaletteOffset(m) + 2 + 3 * PALETTE_ENTRIES > |data| ==> r.Crashed?)
      && (r.Done? && r.value.None? <==> (PaletteOffset(m) + 2 + 3 * PALETTE_ENTRIES <= |data|
            && ImageDimensions(Signed32(m.width), Signed32(m.height)).None?))
    ensures r.Done? && r.value.Some? ==> var m := DecodeMiptex(data[..MIPTEX_SIZE]);
      var out := ImageDimensions(Signed32(m.width), Signed32(m.height));
      && out.Some? && r.value.value.width == out.value.0 && r.value.value.height == out.value.1
      && |r.value.value.rows| == out.value.1
  {
    if |data| < MIPTEX_SIZE then Crashed
    else
      var m := DecodeMiptex(data[..MIPTEX_SIZE]);
      var pal := PaletteOffset(m) + 2;
      if pal + 3 * PALETTE_ENTRIES > |data| then Crashed
      else
        var rgba := Convert8To32Bit(data[pal..pal + 3 * PALETTE_ENTRIES], SPR_NORMAL);
        match ImageDimensions(Signed32(m.width), Signed32(m.height))
        case None => Done(None)
        case Some(out) =>
          if !SamplesInData(data, m.offsets[0], m.width, m.height, out) then Crashed
          else Done(Some(Resample(data, m.offsets[0], m.width, m.height, out, rgba)))
  }

  /** The image always has at least one texel, so the `uiSize < 4` guard never fires. */
  lemma ImageNeverEmpty(width: int, height: int)
    requires ImageDimensions(width, height).Some?
    ensures var out := ImageDimensions(width, height).value; out.0 * out.1 * 4 >= 4
  {
  }

  /** A texture whose level 0 lies in the buffer and whose palette follows is uploaded without fault. */
  lemma UploadInBounds(data: seq<byte>)
    requires |data| >= MIPTEX_SIZE
    requires var m := DecodeMiptex(data[..MIPTEX_SIZE]);
      m.offsets[0] + m.width * m.height <= |data| && PaletteOffset(m) + 2 + 3 * PALETTE_ENTRIES <= |data|
    ensures UploadMiptex(data).Done?
  {
    var m := DecodeMiptex(data[..MIPTEX_SIZE]);
    match ImageDimensions(Signed32(m.width), Signed32(m.height))
    case None =>
    case Some(out) =>
      assert m.width >= 1 && m.height >= 1 by {
        assert Signed32(m.width) > 0 && Signed32(m.height) > 0;
      }
      forall i, j, qi, qj | 0 <= i < out.1 && 0 <= j < out.0 && 1 <= qi <= 3 && qi != 2 && 1 <= qj <= 3 && qj != 2
        ensures m.offsets[0] + SampleIndex(m.width, m.height, out, i, j, qi, qj) < |data|
      {
        SamplesInLevelZero(m.width, m.height, out, i, j, qi, qj);
      }
  }

  /** Two buffers that agree on level 0 resample to the same image. */
  lemma ResampleReadsLevelZero(data: seq<byte>, data2: seq<byte>, base: nat, width: nat, height: nat,
                               out: (nat, nat), rgba: seq<byte>)
    requires width >= 1 && height >= 1 && out.0 >= 1 && out.1 >= 1 && |rgba| == 4 * PALETTE_ENTRIES
    requires |data2| == |data| && SamplesInData(data, base, width, height, out)
    requires forall k :: base <= k < base + width * height && k < |data| ==> data2[k] == data[k]
    ensures SamplesInData(data2, base, width, height, out)
    ensures Resample(data2, base, width, height, out, rgba) == Resample(data, base, width, height, out, rgba)
  {
    forall i, j, c | 0 <= i < out.1 && 0 <= j < out.0 && 0 <= c < 4
      ensures Texel(data2, base, width, height, out, rgba, i, j, c) == Texel(data, base, width, height, out, rgba, i, j, c)
    {
      SamplesInLevelZero(width, height, out, i, j, 1, 1);
      SamplesInLevelZero(width, height, out, i, j, 1, 3);
      SamplesInLevelZero(width, height, out, i, j, 3, 1);
      SamplesInLevelZero(width, height, out, i, j, 3, 3);
    }
    var img := Resample(data, base, width, height, out, rgba);
    var img2 := Resample(data2, base, width, height, out, rgba);
    forall i | 0 <= i < out.1 ensures img2.rows[i] == img.rows[i] {
      forall j | 0 <= j < out.0 ensures img2.rows[i][j] == img.rows[i][j] {
        assert forall c :: 0 <= c < 4 ==> img2.rows[i][j][c] == img.rows[i][j][c];
      }
    }
  }

  /** The texture's bytes with the two colour-count bytes before the palette set to `x` and `y`. */
  function WithCount(data: seq<byte>, x: byte, y: byte): (d: seq<byte>)
    requires |data| >= MIPTEX_SIZE
    requires var p := PaletteOffset(DecodeMiptex(data[..MIPTEX_SIZE])); p + 2 <= |data|
    ensures |d| == |data|
  {
    var p := PaletteOffset(DecodeMiptex(data[..MIPTEX_SIZE]));
    data[p := x][p + 1 := y]
  }

  /**
   * The two colour-count bytes before the palette are never checked: whatever
   * they hold, the same image is uploaded.
   */
  lemma CountIgnored(data: seq<byte>, x: byte, y: byte)
    requires |data| >= MIPTEX_SIZE
    requires var m := DecodeMiptex(data[..MIPTEX_SIZE]);
      m.width * m.height * 85 < U32 && MIPTEX_SIZE <= PaletteOffset(m) && PaletteOffset(m) + 2 <= |data|
    ensures UploadMiptex(WithCount(data, x, y)) == UploadMiptex(data)
  {
    var m := DecodeMiptex(data[..MIPTEX_SIZE]);
    var p := PaletteOffset(m);
    var data2 := WithCount(data, x, y);
    assert data2 == data[p := x][p + 1 := y];
    assert data2[..MIPTEX_SIZE] == data[..MIPTEX_SIZE];
    var pal := p + 2;
    if pal + 3 * PALETTE_ENTRIES <= |data| {
      assert data2[pal..pal + 3 * PALETTE_ENTRIES] == data[pal..pal + 3 * PALETTE_ENTRIES];
    }
    var end := m.offsets[0] + m.width * m.height;
    assert end <= p by {
      assert m.width * m.height <= MiptexPixelSize(m.width, m.height);
    }
    forall k | m.offsets[0] <= k < end && k < |data| ensures data2[k] == data[k] {
      assert k != p && k != p + 1;
    }
    UploadReadsOnly(data, data2);
  }

  /**
   * The upload reads only the header, level zero's texels and the palette:
   * bytes elsewhere may change without changing the image.
   */
  lemma UploadReadsOnly(data: seq<byte>, data2: seq<byte>)
    requires |data| >= MIPTEX_SIZE && |data2| == |data| && data2[..MIPTEX_SIZE] == data[..MIPTEX_SIZE]
    requires var m := DecodeMiptex(data[..MIPTEX_SIZE]); var pal := PaletteOffset(m) + 2;
      && (pal + 3 * PALETTE_ENTRIES <= |data| ==> data2[pal..pal + 3 * PALETTE_ENTRIES] == data[pal..pal + 3 * PALETTE_ENTRIES])
      && forall k :: m.offsets[0] <= k < m.offsets[0] + m.width * m.height && k < |data| ==> data2[k] == data[k]
    ensures UploadMiptex(data2) == UploadMiptex(data)
  {
    var m := DecodeMiptex(data[..MIPTEX_SIZE]);
    var pal := PaletteOffset(m) + 2;
    if pal + 3 * PALETTE_ENTRIES <= |data| {
      var rgba := Convert8To32Bit(data[pal..pal + 3 * PALETTE_ENTRIES], SPR_NORMAL);
      match ImageDimensions(Signed32(m.width), Signed32(m.height))
      case None =>
      case Some(out) =>
        assert m.width >= 1 && m.height >= 1 by {
          assert Signed32(m.width) > 0 && Signed32(m.height) > 0;
        }
        if SamplesInData(data, m.offsets[0], m.width, m.height, out) {
          ResampleReadsLevelZero(data, data2, m.offsets[0], m.width, m.height, out, rgba);
        }
    }
  }

}
