/** `sixel_strip_alpha`: turns a 4-byte RGBA8888 or ARGB8888 buffer into
    packed RGB888 in place, either dropping the alpha byte or blending each
    pixel over a background colour in 8-bit fixed point. */
module AlphaStrip {
  import opened Buffers
  import opened PixelFormats
  import opened Frames
  import opened Arith

  /** How many pixels the `for y < height, for x < width` loop visits. */
  function PixelCount(width: int, height: int): (n: nat)
    ensures n > 0 <==> width > 0 && height > 0
    ensures n > 0 ==> n == width * height
  {
    if width <= 0 || height <= 0 then 0 else width * height
  }

  lemma BlendBounds(s: byte, bg: byte, a: byte)
    ensures 0 <= s * a + bg * (255 - a) <= 255 * 255
  {
    MulMonoLeft(0, s, a);
    MulMonoLeft(s, 255, a);
    MulMonoLeft(0, bg, 255 - a);
    MulMonoLeft(bg, 255, 255 - a);
    Distribute(255, a, 255 - a);
  }

  /** One channel blended as `(src * alpha + bg * (0xff - alpha)) >> 8`. The
      shift divides by 256, not 255, so the result never reaches 255. */
  function Blend(s: byte, bg: byte, a: byte): (c: byte)
    ensures c <= 254
  {
    BlendBounds(s, bg, a);
    (s * a + bg * (255 - a)) / 256
  }

  /** A blended channel never exceeds the larger of its two inputs and falls at
      most one below the smaller. */
  lemma BlendBetween(s: byte, bg: byte, a: byte)
    ensures Blend(s, bg, a) <= if s < bg then bg else s
    ensures Blend(s, bg, a) >= (if s < bg then s else bg) - 1
  {
    var lo := if s < bg then s else bg;
    var hi := if s < bg then bg else s;
    MulMonoLeft(s, hi, a);
    MulMonoLeft(bg, hi, 255 - a);
    MulMonoLeft(lo, s, a);
    MulMonoLeft(lo, bg, 255 - a);
    Distribute(hi, a, 255 - a);
    Distribute(lo, a, 255 - a);
  }

  /** With alpha 255 the source channel comes out one lower (0 stays 0); with
      alpha 0 the background comes out one lower: the background colour itself
      is reproduced only where it is 0. */
  lemma BlendExtremes(s: byte, bg: byte)
    ensures Blend(s, bg, 255) == if s == 0 then 0 else s - 1
    ensures Blend(s, bg, 0) == if bg == 0 then 0 else bg - 1
  {
  }

  /** Byte `i` of the stripped output: channel `i % 3` of pixel `i / 3`,
      read from the 4-byte source pixel `i / 3`. With a background, alpha is
      byte 3 of the source pixel and bytes 0..2 are blended, for both channel
      orders. */
  function StrippedByte(src: Buffer, format: PixelFormat, bg: Option<Buffer>, i: nat): byte
    requires bg.Some? ==> |bg.value| >= 3
    requires (i / 3) * 4 + 4 <= |src|
  {
    Channel(src, format, bg, i / 3, i % 3)
  }

  /** Output channel `k` of source pixel `q`. */
  function Channel(src: Buffer, format: PixelFormat, bg: Option<Buffer>, q: nat, k: nat): byte
    requires bg.Some? ==> |bg.value| >= 3
    requires q * 4 + 4 <= |src| && k < 3
  {
    if bg.Some? then Blend(src[q * 4 + k], bg.value[k], src[q * 4 + 3])
    else if format == ARGB8888 then src[q * 4 + 1 + k]
    else src[q * 4 + k]
  }

  /** Out-of-place reference: the first `n` pixels of `src`, stripped and
      packed three bytes each into a fresh buffer. */
  function StripReference(src: Buffer, format: PixelFormat, bg: Option<Buffer>, n: nat): (out: Buffer)
    requires bg.Some? ==> |bg.value| >= 3
    requires n * 4 <= |src|
    ensures |out| == n * 3
  {
    seq(n * 3, i requires 0 <= i < n * 3 => StrippedByte(src, format, bg, i))
  }

  /** Channel `k` of pixel `q` of the reference output, read off the source
      bytes. */
  lemma ReferenceChannel(src: Buffer, format: PixelFormat, bg: Option<Buffer>, n: nat, q: nat, k: nat)
    requires bg.Some? ==> |bg.value| >= 3
    requires n * 4 <= |src| && q < n && k < 3
    ensures Chunk(StripReference(src, format, bg, n), 3, q)[k]
         == if bg.Some? then Blend(src[q * 4 + k], bg.value[k], src[q * 4 + 3])
            else if format == ARGB8888 then src[q * 4 + 1 + k]
            else src[q * 4 + k]
  {
    var out := StripReference(src, format, bg, n);
    var i := q * 3 + k;
    assert i / 3 == q && i % 3 == k;
    assert Chunk(out, 3, q)[k] == out[i] == StrippedByte(src, format, bg, i);
  }

  /** Without a background, pixel `q` of the result is bytes 0..2 of source
      pixel `q` for RGBA8888 and bytes 1..3 for ARGB8888. */
  lemma StripWithoutBackground(src: Buffer, format: PixelFormat, n: nat)
    requires HasAlphaByte(format)
    requires n * 4 <= |src|
    ensures var out := StripReference(src, format, None, n);
      forall q | 0 <= q < n ::
        Chunk(out, 3, q) == if format == RGBA8888 then Chunk(src, 4, q)[..3] else Chunk(src, 4, q)[1..]
  {
    var out := StripReference(src, format, None, n);
    forall q | 0 <= q < n
      ensures Chunk(out, 3, q) == if format == RGBA8888 then Chunk(src, 4, q)[..3] else Chunk(src, 4, q)[1..]
    {
      forall k | 0 <= k < 3
        ensures Chunk(out, 3, q)[k] == Chunk(src, 4, q)[k + if format == RGBA8888 then 0 else 1]
      {
        ReferenceChannel(src, format, None, n, q, k);
      }
    }
  }

  /** With background `bg`, channel `k` of output pixel `q` blends byte `k` of
      source pixel `q` with `bg[k]` under byte 3 of that pixel, for either
      channel order, and no output byte exceeds 254. */
  lemma StripWithBackground(src: Buffer, format: PixelFormat, bg: Buffer, n: nat)
    requires HasAlphaByte(format)
    requires |bg| >= 3
    requires n * 4 <= |src|
    ensures var out := StripReference(src, format, Some(bg), n);
      && (forall q, k | 0 <= q < n && 0 <= k < 3 ::
            Chunk(out, 3, q)[k] == Blend(Chunk(src, 4, q)[k], bg[k], Chunk(src, 4, q)[3]))
      && (forall i | 0 <= i < |out| :: out[i] <= 254)
  {
    var out := StripReference(src, format, Some(bg), n);
    forall q, k | 0 <= q < n && 0 <= k < 3
      ensures Chunk(out, 3, q)[k] == Blend(Chunk(src, 4, q)[k], bg[k], Chunk(src, 4, q)[3])
    {
      ReferenceChannel(src, format, Some(bg), n, q, k);
    }
  }

  /** The C loop nest over one buffer: the write position `dst` trails the
      read position `src`, so every byte is read before it can be
      overwritten. The first `n` pixels come out as the out-of-place reference
      computes them and the bytes past `3 * n` are left as they were. */
  method StripInPlace(buf: Buffer, width: int, height: int, format: PixelFormat, bg: Option<Buffer>)
    returns (out: Buffer)
    requires HasAlphaByte(format)
    requires bg.Some? ==> |bg.value| >= 3
    requires PixelCount(width, height) * 4 <= |buf|
    ensures |out| == |buf|
    ensures out[..PixelCount(width, height) * 3] == StripReference(buf, format, bg, PixelCount(width, height))
    ensures out[PixelCount(width, height) * 3..] == buf[PixelCount(width, height) * 3..]
  {
    ghost var n := PixelCount(width, height);
    ghost var p := 0;
    out := buf;
    var src, dst := 0, 0;
    var y := 0;
    while y < height
      invariant 0 <= y && (y <= height || y == 0)
      invariant p == if width > 0 then y * width else 0
      invariant p <= n && src == p * 4 && dst == p * 3
      invariant |out| == |buf|
      invariant forall i | 0 <= i < dst :: out[i] == StrippedByte(buf, format, bg, i)
      invariant forall i | dst <= i < |out| :: out[i] == buf[i]
    {
      NextRowFits(width, height, y);
      out, src, dst := StripRowInPlace(out, buf, format, bg, src, dst, width, p);
      if width > 0 {
        p := p + width;
      }
      y := y + 1;
    }
    AllRowsDone(width, height, y);
    PointwiseReference(out, buf, format, bg, n);
  }

  /** Arithmetic of the row loop: row `y` of `height` ends within the pixel
      count. */
  lemma NextRowFits(width: int, height: int, y: nat)
    requires y < height
    ensures width > 0 ==>
      y * width + width == (y + 1) * width <= PixelCount(width, height)
  {
    if width > 0 {
      MulMonoLeft(y + 1, height, width);
      Distribute(width, y, 1);
    }
  }

  /** Arithmetic of the row loop: once it exits, it has passed all pixels. */
  lemma AllRowsDone(width: int, height: int, y: nat)
    requires !(y < height) && (y <= height || y == 0)
    ensures (if width > 0 then y * width else 0) == PixelCount(width, height)
  {
  }

  /** A buffer that agrees byte by byte with the reference on its first `3 * n`
      bytes starts with the reference. */
  lemma PointwiseReference(out: Buffer, buf: Buffer, format: PixelFormat, bg: Option<Buffer>, n: nat)
    requires HasAlphaByte(format)
    requires bg.Some? ==> |bg.value| >= 3
    requires n * 4 <= |buf| && n * 3 <= |out|
    requires forall i | 0 <= i < n * 3 :: out[i] == StrippedByte(buf, format, bg, i)
    ensures out[..n * 3] == StripReference(buf, format, bg, n)
  {
  }

  /** The inner loop: the `width` pixels from pixel `p` on, one at a time. */
  method StripRowInPlace(out: Buffer, ghost buf: Buffer, format: PixelFormat, bg: Option<Buffer>,
                         src: nat, dst: nat, width: int, ghost p: nat)
    returns (next: Buffer, src': nat, dst': nat)
    requires HasAlphaByte(format)
    requires bg.Some? ==> |bg.value| >= 3
    requires src == p * 4 && dst == p * 3
    requires |out| == |buf| && (p + if width > 0 then width else 0) * 4 <= |buf|
    requires forall i | 0 <= i < dst :: out[i] == StrippedByte(buf, format, bg, i)
    requires forall i | dst <= i < |out| :: out[i] == buf[i]
    ensures src' == src + (if width > 0 then width else 0) * 4
    ensures dst' == dst + (if width > 0 then width else 0) * 3
    ensures |next| == |buf|
    ensures forall i | 0 <= i < dst' :: next[i] == StrippedByte(buf, format, bg, i)
    ensures forall i | dst' <= i < |next| :: next[i] == buf[i]
  {
    next, src', dst' := out, src, dst;
    var x := 0;
    while x < width
      invariant 0 <= x && (x <= width || x == 0)
      invariant src' == src + x * 4 && dst' == dst + x * 3
      invariant |next| == |buf|
      invariant forall i | 0 <= i < dst' :: next[i] == StrippedByte(buf, format, bg, i)
      invariant forall i | dst' <= i < |next| :: next[i] == buf[i]
    {
      next := StripPixelInPlace(next, buf, format, bg, src', dst');
      src', dst' := src' + 4, dst' + 3;
      x := x + 1;
    }
  }

  /** One iteration of the inner loop: the pixel is read from bytes
      `src..src+3` and written to bytes `dst..dst+2` of the same buffer.
      Every byte written lies before every byte still to be read, except that
      the first write of pixel 0 lands on the byte it has just read. */
  method StripPixelInPlace(out: Buffer, ghost buf: Buffer, format: PixelFormat, bg: Option<Buffer>,
                           src: nat, dst: nat)
    returns (next: Buffer)
    requires HasAlphaByte(format)
    requires bg.Some? ==> |bg.value| >= 3
    requires src % 4 == 0 && dst == src / 4 * 3
    requires |out| == |buf| && src + 4 <= |buf|
    requires forall i | dst <= i < |out| :: out[i] == buf[i]
    ensures |next| == |out|
    ensures forall i | 0 <= i < dst :: next[i] == out[i]
    ensures forall i | dst <= i < dst + 3 :: next[i] == StrippedByte(buf, format, bg, i)
    ensures forall i | dst + 3 <= i < |next| :: next[i] == buf[i]
  {
    if bg.Some? {
      next := BlendBytes(out, buf, bg.value, src, dst);
    } else if format == ARGB8888 {
      next := CopyBytes(out, buf, src + 1, dst);
    } else {
      next := CopyBytes(out, buf, src, dst);
    }
    ghost var q := src / 4;
    assert dst == q * 3 && src == q * 4;
    PixelBytes(buf, format, bg, q);
  }

  /** The no-background branch, byte by byte as the C code does it: three
      bytes from `s` on are copied down to `d`, each read before it could be
      overwritten. */
  method CopyBytes(out: Buffer, ghost buf: Buffer, s: nat, d: nat) returns (next: Buffer)
    requires d <= s && |out| == |buf| && s + 3 <= |buf|
    requires forall i | d <= i < |out| :: out[i] == buf[i]
    ensures |next| == |out|
    ensures forall i | 0 <= i < d :: next[i] == out[i]
    ensures next[d] == buf[s] && next[d + 1] == buf[s + 1] && next[d + 2] == buf[s + 2]
    ensures forall i | d + 3 <= i < |next| :: next[i] == buf[i]
  {
    next := out;
    next := next[d := next[s]];
    next := next[d + 1 := next[s + 1]];
    next := next[d + 2 := next[s + 2]];
  }

  /** The background branch, byte by byte as the C code does it: alpha is
      read from byte `s + 3` first, then each of the three channels is
      blended with `bg` and written down to `d`. */
  method BlendBytes(out: Buffer, ghost buf: Buffer, bg: Buffer, s: nat, d: nat) returns (next: Buffer)
    requires |bg| >= 3
    requires d <= s && |out| == |buf| && s + 4 <= |buf|
    requires forall i | d <= i < |out| :: out[i] == buf[i]
    ensures |next| == |out|
    ensures forall i | 0 <= i < d :: next[i] == out[i]
    ensures next[d] == Blend(buf[s], bg[0], buf[s + 3])
    ensures next[d + 1] == Blend(buf[s + 1], bg[1], buf[s + 3])
    ensures next[d + 2] == Blend(buf[s + 2], bg[2], buf[s + 3])
    ensures forall i | d + 3 <= i < |next| :: next[i] == buf[i]
  {
    next := out;
    var alpha := next[s + 3];
    next := next[d := Blend(next[s], bg[0], alpha)];
    next := next[d + 1 := Blend(next[s + 1], bg[1], alpha)];
    next := next[d + 2 := Blend(next[s + 2], bg[2], alpha)];
  }

  /** The three output bytes of pixel `q` are channels 0, 1 and 2 of that
      pixel. */
  lemma PixelBytes(src: Buffer, format: PixelFormat, bg: Option<Buffer>, q: nat)
    requires bg.Some? ==> |bg.value| >= 3
    requires q * 4 + 4 <= |src|
    ensures StrippedByte(src, format, bg, q * 3) == Channel(src, format, bg, q, 0)
    ensures StrippedByte(src, format, bg, q * 3 + 1) == Channel(src, format, bg, q, 1)
    ensures StrippedByte(src, format, bg, q * 3 + 2) == Channel(src, format, bg, q, 2)
  {
    assert (q * 3) / 3 == q && (q * 3) % 3 == 0;
    assert (q * 3 + 1) / 3 == q && (q * 3 + 1) % 3 == 1;
    assert (q * 3 + 2) / 3 == q && (q * 3 + 2) % 3 == 2;
  }

  /** `sixel_strip_alpha`: RGBA8888 and ARGB8888 frames become RGB888 with the
      same geometry, their first `width * height` pixels stripped in place and
      the rest of the buffer untouched; every other encoding is left exactly
      as it was. The return code is always 0. */
  method StripAlpha(f: Frame, bg: Option<Buffer>) returns (r: Outcome)
    requires bg.Some? ==> |bg.value| >= 3
    requires HasAlphaByte(f.format) ==> Covers(f.pixels, PixelCount(f.width, f.height) * 4)
    ensures r.status == 0
    ensures !HasAlphaByte(f.format) ==> r.frame == f
    ensures HasAlphaByte(f.format) ==>
      && r.frame.format == RGB888
      && r.frame.width == f.width && r.frame.height == f.height
      && SameMetadata(r.frame, f)
      && r.frame.pixels.Some? == f.pixels.Some?
    ensures HasAlphaByte(f.format) && f.pixels.Some? ==>
      var n, before, after := PixelCount(f.width, f.height), f.pixels.value, r.frame.pixels.value;
      && n * 4 <= |before|
      && |after| == |before|
      && after[..n * 3] == StripReference(before, f.format, bg, n)
      && after[n * 3..] == before[n * 3..]
  {
    if !HasAlphaByte(f.format) {
      return Outcome(f, 0);
    }
    var pixels := f.pixels;
    if pixels.Some? {
      var out := StripInPlace(pixels.value, f.width, f.height, f.format, bg);
      pixels := Some(out);
    }
    return Outcome(f.(pixels := pixels, format := RGB888), 0);
  }

  /** Pixel (10, 20, 30) with opaque alpha, stored as RGBA8888 and as ARGB8888, comes out as
      (10, 20, 30) when no background is given. */
  lemma StripOpaqueExamples()
    ensures StripReference([10, 20, 30, 255], RGBA8888, None, 1) == [10, 20, 30]
    ensures StripReference([255, 10, 20, 30], ARGB8888, None, 1) == [10, 20, 30]
  {
    StripWithoutBackground([10, 20, 30, 255], RGBA8888, 1);
    StripWithoutBackground([255, 10, 20, 30], ARGB8888, 1);
    assert Chunk(StripReference([10, 20, 30, 255], RGBA8888, None, 1), 3, 0)
      == StripReference([10, 20, 30, 255], RGBA8888, None, 1);
    assert Chunk(StripReference([255, 10, 20, 30], ARGB8888, None, 1), 3, 0)
      == StripReference([255, 10, 20, 30], ARGB8888, None, 1);
  }
}
