/** `sixel_frame_clip` and the static `clip` behind it: a crop that moves the
    rows of the wanted rectangle, one `memmove` each, to the front of the same
    buffer. */
module Cropping {
  import opened Buffers
  import opened PixelFormats
  import opened Frames
  import opened Arith
  import opened Conversion

  /** The bounds every row move needs: each of the `rows` rows, read from
      `first`, `first + stride`, ..., lies inside a buffer of `size` bytes,
      and a row is no longer than the stride between rows. */
  predicate RowsFit(size: int, first: nat, stride: nat, rowLen: nat, rows: nat)
    decreases rows
  {
    && rowLen <= stride
    && (rows > 0 ==> first + rowLen <= size && RowsFit(size, first + stride, stride, rowLen, rows - 1))
  }

  /** The last row ending inside the buffer is enough for all of them. */
  lemma {:induction false} RowsFitByLastRow(size: int, first: nat, stride: nat, rowLen: nat, rows: nat)
    requires rowLen <= stride
    requires rows > 0 ==> first + (rows - 1) * stride + rowLen <= size
    ensures RowsFit(size, first, stride, rowLen, rows)
    decreases rows
  {
    if rows > 0 {
      Distribute(stride, rows - 2, 1);
      MulMonoLeft(0, rows - 1, stride);
      RowsFitByLastRow(size, first + stride, stride, rowLen, rows - 1);
    }
  }

  /** Out-of-place reference: `rows` rows of `rowLen` bytes, the first taken
      from offset `first` of `src` and each next one `stride` bytes further,
      packed one after another into a fresh buffer. */
  function CropReference(src: Buffer, first: nat, stride: nat, rowLen: nat, rows: nat): (out: Buffer)
    requires RowsFit(|src|, first, stride, rowLen, rows)
    ensures |out| == rows * rowLen
    decreases rows
  {
    if rows == 0 then []
    else
      Distribute(rowLen, rows - 1, 1);
      src[first..first + rowLen] + CropReference(src, first + stride, stride, rowLen, rows - 1)
  }

  /** Row `r` of the reference output is the `rowLen` bytes of `src` at
      `first + r * stride`. */
  lemma {:induction false} CropReferenceRow(src: Buffer, first: nat, stride: nat, rowLen: nat, rows: nat, r: nat)
    requires RowsFit(|src|, first, stride, rowLen, rows)
    requires r < rows
    ensures r * rowLen + rowLen <= rows * rowLen
    ensures first + r * stride + rowLen <= |src|
    ensures Chunk(CropReference(src, first, stride, rowLen, rows), rowLen, r)
         == src[first + r * stride..first + r * stride + rowLen]
    decreases r
  {
    RowArith(rows, rowLen, stride, r);
    if r > 0 {
      CropReferenceRow(src, first + stride, stride, rowLen, rows - 1, r - 1);
      var rest := CropReference(src, first + stride, stride, rowLen, rows - 1);
      var out := CropReference(src, first, stride, rowLen, rows);
      var k := (r - 1) * rowLen;
      assert out == src[first..first + rowLen] + rest;
      assert Chunk(rest, rowLen, r - 1) == rest[k..k + rowLen];
      assert Chunk(out, rowLen, r) == out[rowLen + k..rowLen + k + rowLen];
    }
  }

  /** The index arithmetic of one row, stated linearly for the solver. */
  lemma RowArith(rows: nat, rowLen: nat, stride: nat, r: nat)
    requires r < rows
    ensures r * rowLen + rowLen <= rows * rowLen
    ensures rows * rowLen == rowLen + (rows - 1) * rowLen
    ensures r > 0 ==> r * rowLen == rowLen + (r - 1) * rowLen
    ensures r > 0 ==> r * stride == stride + (r - 1) * stride
  {
    MulMonoLeft(r + 1, rows, rowLen);
    Distribute(rowLen, r, 1);
    Distribute(rowLen, rows - 1, 1);
    if r > 0 {
      Distribute(rowLen, r - 1, 1);
      Distribute(stride, r - 1, 1);
    }
  }

  /** Cropping whole rows from offset 0 copies the first `rows` rows
      unchanged. */
  lemma {:induction false} CropWholeRows(src: Buffer, first: nat, stride: nat, rows: nat)
    requires first + rows * stride <= |src|
    ensures RowsFit(|src|, first, stride, stride, rows)
    ensures CropReference(src, first, stride, stride, rows) == src[first..first + rows * stride]
    decreases rows
  {
    if rows > 0 {
      Distribute(stride, rows - 1, 1);
      CropWholeRows(src, first + stride, stride, rows - 1);
    }
  }

  /** The `clip` loop over one buffer: each row goes to the end of the rows
      already moved, with `memmove`. Rows are written in increasing order and
      never past the start of the row being read, so no byte is overwritten
      before it is read: the result holds the reference rows in front and the
      original bytes after them. */
  method MoveRows(buf: Buffer, first: nat, stride: nat, rowLen: nat, rows: nat) returns (out: Buffer)
    requires RowsFit(|buf|, first, stride, rowLen, rows)
    ensures |out| == |buf|
    ensures var crop := CropReference(buf, first, stride, rowLen, rows);
      && |crop| <= |buf|
      && out[..|crop|] == crop
      && out[|crop|..] == buf[|crop|..]
  {
    ghost var whole := CropReference(buf, first, stride, rowLen, rows);
    out := buf;
    var dst: nat, src: nat := 0, first;
    var y: nat := 0;
    while y < rows
      invariant 0 <= y <= rows
      invariant RowsFit(|buf|, src, stride, rowLen, rows - y)
      invariant dst <= src && dst <= |buf|
      invariant |out| == |buf|
      invariant out[..dst] + CropReference(buf, src, stride, rowLen, rows - y) == whole
      invariant out[dst..] == buf[dst..]
    {
      MoveRowStep(buf, out, whole, stride, rowLen, rows - y, dst, src);
      out := MemMove(out, dst, src, rowLen);
      dst, src := dst + rowLen, src + stride;
      y := y + 1;
    }
    assert CropReference(buf, src, stride, rowLen, 0) == [];
    assert out[..dst] == whole;
  }

  /** One iteration of the `clip` loop keeps its invariant: the rows moved so
      far followed by the reference rows still to move make up the whole
      reference crop, and the bytes from the write position on are the
      original ones. */
  lemma MoveRowStep(buf: Buffer, out: Buffer, whole: Buffer, stride: nat, rowLen: nat,
                    remaining: nat, dst: nat, src: nat)
    requires remaining > 0 && RowsFit(|buf|, src, stride, rowLen, remaining)
    requires dst <= src && |out| == |buf|
    requires out[..dst] + CropReference(buf, src, stride, rowLen, remaining) == whole
    requires out[dst..] == buf[dst..]
    ensures src + rowLen <= |buf| && dst + rowLen <= src + stride
    ensures RowsFit(|buf|, src + stride, stride, rowLen, remaining - 1)
    ensures var next := MemMove(out, dst, src, rowLen);
      && next[..dst + rowLen] + CropReference(buf, src + stride, stride, rowLen, remaining - 1) == whole
      && next[dst + rowLen..] == buf[dst + rowLen..]
  {
    var rest := CropReference(buf, src + stride, stride, rowLen, remaining - 1);
    assert CropReference(buf, src, stride, rowLen, remaining) == buf[src..src + rowLen] + rest;
    MemMoveForward(out, buf, dst, src, rowLen);
    assert (out[..dst] + buf[src..src + rowLen]) + rest == out[..dst] + (buf[src..src + rowLen] + rest);
  }

  /** One row's `memmove` towards the front of a buffer whose bytes from
      `dst` on are still the original ones: the row lands at `dst` with its
      original content, and the bytes after it are still the original ones. */
  lemma MemMoveForward(out: Buffer, buf: Buffer, dst: nat, src: nat, len: nat)
    requires |out| == |buf| && dst <= src && src + len <= |buf|
    requires out[dst..] == buf[dst..]
    ensures var next := MemMove(out, dst, src, len);
      && next[..dst + len] == out[..dst] + buf[src..src + len]
      && next[dst + len..] == buf[dst + len..]
  {
    var next := MemMove(out, dst, src, len);
    forall j | src <= j < src + len
      ensures out[j] == buf[j]
    {
      assert out[dst..][j - dst] == buf[dst..][j - dst];
    }
    assert next[dst..dst + len] == buf[src..src + len];
    assert next[..dst + len] == next[..dst] + next[dst..dst + len];
  }

  /** The caller's obligations for a crop of `cw` x `ch` pixels at (`cx`,
      `cy`) from a `sx` x `sy` image; `clip` does not check them. A row
      width is only used, as a `memmove` length, when there are rows. */
  predicate CropWithin(sx: int, sy: int, cx: int, cy: int, cw: int, ch: int) {
    && 0 <= cx && 0 <= cy
    && cx + cw <= sx && cy + ch <= sy
    && (ch > 0 ==> 0 <= cw)
  }

  /** Where the rows of a crop of a `sx`-pixel-wide image of `d`-byte pixels
      lie: the first row starts at `cy * sx * d + cx * d`, rows are `sx * d`
      bytes apart and `cw * d` bytes long. */
  datatype RowLayout = RowLayout(first: nat, stride: nat, rowLen: nat)

  function CropLayout(sx: int, d: nat, cx: int, cy: int, cw: int): (l: RowLayout)
    requires 0 <= cx && 0 <= cy && 0 <= cw && cx + cw <= sx
    ensures l.first == cy * sx * d + cx * d
    ensures l.stride == sx * d && l.rowLen == cw * d
  {
    MulMonoLeft(0, sx, d);
    MulMonoLeft(0, cx, d);
    MulMonoLeft(0, cw, d);
    MulMonoLeft(0, cy, sx * d);
    Associate(cy, sx, d);
    RowLayout(cy * (sx * d) + cx * d, sx * d, cw * d)
  }

  /** All `ch` rows of a crop fit in any buffer holding the `sx * sy` pixels. */
  lemma CropFits(size: int, sx: int, sy: int, d: nat, cx: int, cy: int, cw: int, ch: int)
    requires CropWithin(sx, sy, cx, cy, cw, ch) && ch > 0
    requires 0 <= size && (sx * sy * d <= 0 || sx * sy * d <= size)
    ensures var l := CropLayout(sx, d, cx, cy, cw);
      RowsFit(size, l.first, l.stride, l.rowLen, ch)
  {
    var l := CropLayout(sx, d, cx, cy, cw);
    var stride := sx * d;
    Associate(cy, sx, d);
    assert l.first == cy * stride + cx * d;
    MulMonoLeft(cw, sx, d);
    // the last row ends at (cy + ch - 1) * stride + (cx + cw) * d
    Distribute(d, cx, cw);
    Commute(d, cx);
    Commute(d, cw);
    Commute(d, cx + cw);
    MulMonoLeft(cx + cw, sx, d);
    Distribute(stride, cy, ch - 1);
    Commute(stride, cy);
    Commute(stride, ch - 1);
    Commute(stride, cy + ch - 1);
    assert l.first + (ch - 1) * stride + l.rowLen <= (cy + ch - 1) * stride + stride;
    Distribute(stride, cy + ch - 1, 1);
    Commute(stride, cy + ch);
    MulMonoLeft(cy + ch, sy, stride);
    Associate(sy, sx, d);
    Commute(sy, sx);
    assert sy * stride == sx * sy * d;
    RowsFitByLastRow(size, l.first, l.stride, l.rowLen, ch);
  }

  /** The static `clip`: for PAL8, G8 and RGB888 the `ch` rows of the crop are
      moved to the front of the buffer, row `r` read from byte
      `(cy + r) * sx * d + cx * d`; every other encoding is refused with -1 and
      the buffer left alone. */
  method ClipPixels(pixels: Option<Buffer>, sx: int, sy: int, format: PixelFormat,
                    cx: int, cy: int, cw: int, ch: int)
    returns (status: int, out: Option<Buffer>)
    requires CropWithin(sx, sy, cx, cy, cw, ch)
    requires IsCroppable(format) ==> Covers(pixels, sx * sy * Depth(format))
    ensures status == 0 <==> IsCroppable(format)
    ensures status != 0 ==> status == -1 && out == pixels
    ensures out.Some? == pixels.Some?
    ensures status == 0 && ch <= 0 ==> out == pixels
    ensures status == 0 && ch > 0 && pixels.Some? ==>
      var buf, l := pixels.value, CropLayout(sx, Depth(format), cx, cy, cw);
      && RowsFit(|buf|, l.first, l.stride, l.rowLen, ch)
      && var crop := CropReference(buf, l.first, l.stride, l.rowLen, ch);
      && |out.value| == |buf|
      && |crop| <= |buf|
      && out.value[..|crop|] == crop
      && out.value[|crop|..] == buf[|crop|..]
  {
    if !IsCroppable(format) {
      return -1, pixels;
    }
    if ch <= 0 || pixels.None? {
      return 0, pixels;
    }
    var l := CropLayout(sx, Depth(format), cx, cy, cw);
    CropFits(|pixels.value|, sx, sy, Depth(format), cx, cy, cw, ch);
    var moved := MoveRows(pixels.value, l.first, l.stride, l.rowLen, ch);
    return 0, Some(moved);
  }

  /** Lines 404-424 of `sixel_frame_clip`: PAL1, PAL2 and PAL4 frames get a
      fresh `width * height` byte buffer filled by the normaliser; a normaliser
      failure is returned as it is. Other encodings pass through. */
  function ExpandPackedPalette(f: Frame, normalized: Normalized): (r: Outcome)
    requires IsPackedPalette(f.format) ==> FillsDestination(normalized, f.width * f.height)
    ensures !IsPackedPalette(f.format) ==> r == Outcome(f, 0)
    ensures IsPackedPalette(f.format) ==>
      && r.status == normalized.status
      && r.frame.format == normalized.format
      && r.frame.pixels == (if normalized.status == 0 then Some(normalized.pixels) else f.pixels)
    ensures r.status == 0 && IsPackedPalette(f.format) ==> |r.frame.pixels.value| == f.width * f.height
    ensures r.frame.width == f.width && r.frame.height == f.height
    ensures SameMetadata(r.frame, f)
  {
    if !IsPackedPalette(f.format) then Outcome(f, 0)
    else if normalized.status != 0 then Outcome(f.(format := normalized.format), normalized.status)
    else Outcome(f.(pixels := Some(normalized.pixels), format := normalized.format), 0)
  }

  /** `sixel_frame_clip`: after the packed-palette expansion, a croppable
      frame gets the crop's rows packed at the front of its buffer and the
      crop's size as its geometry; any failure leaves the geometry as it
      was. Cropping the whole frame changes nothing. */
  method Clip(f: Frame, x: int, y: int, width: int, height: int, normalized: Normalized)
    returns (r: Outcome)
    requires CropWithin(f.width, f.height, x, y, width, height)
    requires IsPackedPalette(f.format) ==> FillsDestination(normalized, f.width * f.height)
    requires var g := ExpandPackedPalette(f, normalized).frame;
      IsCroppable(g.format) ==> Covers(g.pixels, f.width * f.height * Depth(g.format))
    ensures var e := ExpandPackedPalette(f, normalized);
      && (r.status == 0 <==> e.status == 0 && IsCroppable(e.frame.format))
      && (e.status != 0 ==> r == e)
      && (e.status == 0 && !IsCroppable(e.frame.format) ==> r == Outcome(e.frame, -1))
      && (r.status == 0 ==>
            && r.frame.format == e.frame.format
            && r.frame.width == width && r.frame.height == height
            && r.frame.pixels.Some? == e.frame.pixels.Some?)
      && (r.status == 0 && height <= 0 ==> r.frame.pixels == e.frame.pixels)
      && (r.status == 0 && height > 0 && e.frame.pixels.Some? ==>
            var buf, out := e.frame.pixels.value, r.frame.pixels.value;
            var l := CropLayout(f.width, Depth(e.frame.format), x, y, width);
            && RowsFit(|buf|, l.first, l.stride, l.rowLen, height)
            && var crop := CropReference(buf, l.first, l.stride, l.rowLen, height);
            && |out| == |buf|
            && |crop| <= |buf|
            && out[..|crop|] == crop
            && out[|crop|..] == buf[|crop|..])
      && (r.status == 0 && x == 0 && y == 0 && width == f.width && height == f.height ==>
            r.frame == e.frame)
    ensures r.status != 0 ==> r.frame.width == f.width && r.frame.height == f.height
    ensures !IsPackedPalette(f.format) && !IsCroppable(f.format) ==> r == Outcome(f, -1)
    ensures SameMetadata(r.frame, f)
  {
    var e := ExpandPackedPalette(f, normalized);
    if e.status != 0 {
      return e;
    }
    var g := e.frame;
    var status, out := ClipPixels(g.pixels, g.width, g.height, g.format, x, y, width, height);
    if status != 0 {
      return Outcome(g, status);
    }
    if x == 0 && y == 0 && width == f.width && height == f.height && height > 0 && g.pixels.Some? {
      WholeFrameClip(g.pixels.value, width, height, Depth(g.format), out.value);
    }
    return Outcome(g.(pixels := out, width := width, height := height), 0);
  }

  /** Row `r` of a crop at (`cx`, `cy`) is the `cw * d` bytes of the image
      at `(cy + r) * sx * d + cx * d`, so byte `j` of that row is image byte
      `(cy + r) * sx * d + cx * d + j`. */
  lemma CropRow(src: Buffer, sx: int, sy: int, d: nat, cx: int, cy: int, cw: int, ch: int, r: nat)
    requires CropWithin(sx, sy, cx, cy, cw, ch) && r < ch
    requires sx * sy * d <= |src|
    ensures var l := CropLayout(sx, d, cx, cy, cw); RowsFit(|src|, l.first, l.stride, l.rowLen, ch)
    ensures var l := CropLayout(sx, d, cx, cy, cw);
      var at := (cy + r) * sx * d + cx * d;
      && 0 <= at && at + cw * d <= |src|
      && Chunk(CropReference(src, l.first, l.stride, l.rowLen, ch), cw * d, r) == src[at..at + cw * d]
  {
    var l := CropLayout(sx, d, cx, cy, cw);
    CropFits(|src|, sx, sy, d, cx, cy, cw, ch);
    CropReferenceRow(src, l.first, l.stride, l.rowLen, ch, r);
    Associate(cy, sx, d);
    Associate(cy + r, sx, d);
    Distribute(sx * d, cy, r);
    Commute(sx * d, cy);
    Commute(sx * d, r);
    Commute(sx * d, cy + r);
  }

  /** Cropping the 2 x 2 centre of a 4 x 4 RGB888
      image takes bytes 15..20 (row 1, pixels 1 and 2) and bytes 27..32
      (row 2, pixels 1 and 2). */
  lemma CentreOfFourByFour(src: Buffer)
    requires |src| == 4 * 4 * 3
    ensures var l := CropLayout(4, 3, 1, 1, 2);
      && RowsFit(|src|, l.first, l.stride, l.rowLen, 2)
      && CropReference(src, l.first, l.stride, l.rowLen, 2) == src[15..21] + src[27..33]
  {
    var l := CropLayout(4, 3, 1, 1, 2);
    assert l == RowLayout(15, 12, 6);
    assert RowsFit(|src|, 15, 12, 6, 2);
    assert CropReference(src, 27, 12, 6, 1) == src[27..33] + CropReference(src, 39, 12, 6, 0);
  }

  /** Moving the rows of a crop that covers the whole image gives the buffer
      back unchanged. */
  lemma WholeFrameClip(buf: Buffer, width: int, height: int, d: nat, out: Buffer)
    requires 0 <= width && 0 < height && width * height * d <= |buf|
    requires var l := CropLayout(width, d, 0, 0, width);
      && RowsFit(|buf|, l.first, l.stride, l.rowLen, height)
      && var crop := CropReference(buf, l.first, l.stride, l.rowLen, height);
      && |out| == |buf|
      && |crop| <= |buf|
      && out[..|crop|] == crop
      && out[|crop|..] == buf[|crop|..]
    ensures out == buf
  {
    var l := CropLayout(width, d, 0, 0, width);
    assert l == RowLayout(0, width * d, width * d);
    MulMonoLeft(0, width, d);
    Associate(height, width, d);
    Commute(height, width);
    CropWholeRows(buf, 0, width * d, height);
    var crop := CropReference(buf, l.first, l.stride, l.rowLen, height);
    assert out == out[..|crop|] + out[|crop|..];
  }
}
