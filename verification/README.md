# libsixel frame object, modelled in Dafny

libsixel's frame object (`src/frame.c`) holds one image on its way to the
sixel encoder. It carries:

- a pixel buffer in one of the library's pixel formats
- an optional palette
- the geometry
- animation metadata
- a reference count

This project models the frame's lifecycle (create, ref, unref, init,
set_palette and the getters) and its four pixel operations:

- alpha stripping (`sixel_strip_alpha`)
- conversion to RGB888 (`sixel_frame_convert_to_rgb888`)
- resizing (`sixel_frame_resize`)
- cropping (`sixel_frame_clip` and the static `clip` behind it)

The model is functional. A frame is an immutable datatype and a buffer is a
`seq` of bytes, with `None` for a NULL pointer. Each operation returns the
frame afterwards together with the C return code. The two in-place loops
are methods that update a local sequence. They write byte by byte in strip
alpha, and use one `memmove` per row in clip. Both are proved equal to an
out-of-place reference definition.

Three collaborators live outside `frame.c`:

- the pixel-format normaliser
- the scaler
- `malloc`

Each is a value parameter holding the result it gives for the one call the
core makes:

- `Normalized`: the normaliser's return code, the value it wrote into the
  frame's pixel-format field and the content of the destination buffer. The
  format field is written even when the normaliser fails, as in the C code.
- `Scaled`: the scaler's return code and output.
- `allocOk`: whether an allocation succeeded.

`Resize` also returns the request it passed to the scaler, if it made one.
This shows that the scaler is called with depth 3, and that it is not called
at all after a failed conversion or a failed allocation.

Modules, one per concern:

- `Buffers`: bytes, buffers, NULL, `memmove`
- `Arith`: linear facts about products, for the solver
- `PixelFormats`: the encodings and the groups the operations dispatch on
- `Frames`: the record and its lifecycle
- `AlphaStrip`
- `Conversion`: conversion and resize
- `Cropping`

Two behaviours of the code a reader might not expect:

- The blend shifts right by 8, which divides by 256 rather than 255. So with
  alpha 0 a channel comes out as the background value minus one (0 stays 0),
  not as the background itself. With alpha 255 it comes out as the source
  value minus one.
- With a background colour, the alpha byte is always byte 3 of the source
  pixel, and the channels are always bytes 0..2. That holds for ARGB8888
  too. There, byte 3 is blue and byte 0 is alpha.

## Model

| member | source | states |
|---|---|---|
| Buffers.MemMove | src/frame.c:379 | `memmove` within one buffer: the `len` bytes from `src` land at `dst` with their old content, even when the ranges overlap, and every byte outside the destination range is unchanged |
| PixelFormats.Depth | src/frame.c:366-377 | a croppable encoding has 3 bytes per pixel for RGB888 and 1 for PAL8 and G8 |
| Frames.Create | src/frame.c:41-64 | creation fails exactly when the allocation fails; otherwise the frame has count 1, no pixels, no palette, size 0 x 0, ncolors -1, transparent -1, RGB888 and zero animation fields |
| Frames.Ref | src/frame.c:78-83 | the count goes up by one and no other field changes |
| Frames.Unref | src/frame.c:86-93 | NULL is left alone; a count of 1 destroys the frame; any other count is decremented with no other field changed (both directions) |
| Frames.Init | src/frame.c:96-115 | pixels, palette, size, format and ncolors are replaced by the arguments; the count and animation fields are kept; the result is 0 |
| Frames.SetPalette | src/frame.c:206-215 | only the palette and ncolors change, and they take the arguments |
| Frames.SetPaletteRestores | src/frame.c:206-215 | setting the old palette back restores the frame, and a second palette set replaces the first entirely |
| Frames.InitThenSetPalette | src/frame.c:96-115 | init followed by set_palette equals init with that palette, and a palette set before init is overwritten by it |
| Frames.RefTimes | src/frame.c:78-83 | `k` refs raise the count by `k` and change nothing else |
| Frames.UnrefAllDestroysOnLast | src/frame.c:86-93 | dropping all `c` references of a frame with count `c` decrements it `c - 1` times and destroys it on the last drop |
| Frames.RefsThenUnrefsDestroyOnce | src/frame.c:78-93 | a fresh frame given `n` refs survives `n` unrefs and is destroyed by unref number `n + 1` |
| Frames.CreateRefUnrefTwice | src/frame.c:41-93 | create, ref, unref, unref: the first unref keeps the frame and the second destroys it |
| Frames.RefThenUnref | src/frame.c:78-93 | Unref after Ref returns `Decremented(f)` when the count of `f` is not 0, and `Destroyed` when it is 0 |
| AlphaStrip.Blend | src/frame.c:238-241 | a blended channel is a byte of at most 254: the shift by 8 never yields 255 |
| AlphaStrip.BlendBetween | src/frame.c:239-241 | a blended channel lies between the smaller input minus one and the larger input |
| AlphaStrip.BlendExtremes | src/frame.c:239-241 | alpha 255 gives the source channel minus one and alpha 0 gives the background minus one, with 0 staying 0 |
| AlphaStrip.ReferenceChannel | src/frame.c:237-253 | channel `k` of output pixel `q` is the blend of source byte `4q+k` under byte `4q+3` with a background, otherwise byte `4q+1+k` for ARGB8888 and `4q+k` for RGBA8888 |
| AlphaStrip.StripWithoutBackground | src/frame.c:243-253 | without a background, output pixel `q` is bytes 0..2 of source pixel `q` for RGBA8888 and bytes 1..3 for ARGB8888 |
| AlphaStrip.StripWithBackground | src/frame.c:237-242 | with a background, each channel is blended with the background under byte 3 of its source pixel, for both channel orders, and no output byte exceeds 254 |
| AlphaStrip.StripInPlace | src/frame.c:230-255 | after the loops over `height` rows of `width` pixels, the first `3n` bytes are the out-of-place reference and the bytes from `3n` on are the original ones, where `n` is `width * height` when both are positive and 0 otherwise |
| AlphaStrip.StripRowInPlace | src/frame.c:236-254 | one row of the inner loop advances the read position by 4 per pixel and the write position by 3, and keeps the reference-prefix and untouched-suffix invariant |
| AlphaStrip.StripPixelInPlace | src/frame.c:237-253 | one pixel written at `3q` from source bytes at `4q` produces the reference bytes `3q..3q+2`, leaves earlier bytes alone and later bytes original |
| AlphaStrip.CopyBytes | src/frame.c:244-252 | three bytes copied forward one by one, each read before it could be overwritten, equal the original source bytes |
| AlphaStrip.BlendBytes | src/frame.c:238-242 | alpha is read before any write, and the three written bytes are the blends of the original source bytes |
| AlphaStrip.StripAlpha | src/frame.c:218-263 | the result is always 0; RGBA8888 and ARGB8888 become RGB888 with the same geometry and metadata and the stripped buffer; every other format is left exactly as it was |
| AlphaStrip.StripOpaqueExamples | src/frame.c:243-253 | (10,20,30,255) as RGBA8888 and (255,10,20,30) as ARGB8888 both strip to (10,20,30) |
| Conversion.ConvertToRgb888 | src/frame.c:266-308 | RGB888 passes with 0; the ten normalisable formats succeed exactly when the normaliser does, adopt its format even on failure, and take its `width*height*3`-byte buffer only on success; all others give -1 with the frame unchanged; geometry, palette and metadata never change |
| Conversion.ConvertIdempotent | src/frame.c:273-275 | once a conversion has produced RGB888, converting again returns 0 and changes nothing |
| Conversion.ConvertSizesBuffer | src/frame.c:287-300 | after a successful conversion the buffer holds exactly `width * height * 3` bytes |
| Conversion.Resize | src/frame.c:311-350 | a failed conversion is returned first with no scaler call; a failed allocation gives -1 with no scaler call; otherwise the scaler gets the converted buffer, the old size, depth 3 and the new size; on scaler success the converted frame takes the scaled buffer and the new size and nothing else, and on any failure the frame is exactly the converted one |
| Conversion.ResizeThenConvert | src/frame.c:311-350 | a successful resize keeps the format the conversion produced, and when that is RGB888 a further conversion returns 0 and changes nothing |
| Conversion.ResizeAllocFailureSkipsScaler | src/frame.c:328-333 | after a failed allocation the result fails and does not depend on the scaler |
| Cropping.RowsFitByLastRow | src/frame.c:376-382 | if the last row of the crop ends inside the buffer, every row does |
| Cropping.CropReferenceRow | src/frame.c:377-381 | row `r` of the reference crop is the `rowLen` bytes at `first + r * stride` |
| Cropping.CropWholeRows | src/frame.c:376-382 | when rows are as long as the stride, the crop is the contiguous run of `rows * stride` bytes |
| Cropping.MoveRows | src/frame.c:376-382 | the in-place `memmove` loop leaves the reference crop at the front of the buffer and the original bytes after it |
| Cropping.MoveRowStep | src/frame.c:379-381 | one `memmove` row keeps the loop invariant: the moved rows plus the rows still to move are the whole crop, and bytes from the write position on are original |
| Cropping.MemMoveForward | src/frame.c:379 | a row moved towards the front over still-original bytes lands with its original content and leaves the later bytes original |
| Cropping.CropFits | src/frame.c:376-382 | every row of an in-bounds crop lies inside a buffer of the image's `sx*sy*d` bytes |
| Cropping.ClipPixels | src/frame.c:353-389 | PAL8, G8 and RGB888 give 0 and every other format gives -1 with the buffer untouched; no rows leaves the buffer as it was; otherwise the buffer starts with the `ch` rows of `cw*d` bytes read from byte `cy*sx*d + cx*d` on, `sx*d` bytes apart, and keeps its original bytes after them |
| Cropping.ExpandPackedPalette | src/frame.c:404-424 | PAL1, PAL2 and PAL4 take the normaliser's format and its status, and its `width*height`-byte buffer only on success; other formats pass with 0 unchanged |
| Cropping.Clip | src/frame.c:392-441 | a normaliser failure is returned as it is; a non-croppable format gives -1; on success the crop is at the front and the crop size is the geometry; any failure keeps the geometry; metadata never changes; cropping the whole frame changes only what the expansion did |
| Cropping.CropRow | src/frame.c:377-381 | for an in-bounds crop of an image held in full, every row fits and row `r` of a crop at (`cx`, `cy`) is the `cw*d` image bytes at `(cy+r)*sx*d + cx*d` |
| Cropping.CentreOfFourByFour | src/frame.c:376-382 | the 2 x 2 centre of a 4 x 4 RGB888 image is bytes 15..20 followed by bytes 27..32 |
| Cropping.WholeFrameClip | src/frame.c:426-438 | moving the rows of a crop that covers the whole image gives the buffer back unchanged |

## Left out

- `sixel_frame_destroy` (lines 67-75): freeing memory is not modelled. The `Destroyed` outcome of `Frames.Unref` stands for the frame, pixels and palette being freed.
- The getters (lines 118-203) are the field destructors of `Frames.Frame`, with nothing further to state.
- The normaliser, the scaler and `sixel_helper_compute_depth` are not part of this model. Their results are parameters. `Depth` gives the depth only for the three encodings the crop accepts.
- The resampling method is passed to the scaler unchanged and has no meaning here.
- The `fprintf` to standard error at line 303 is I/O. Only the -1 it accompanies is modelled.
- The unchecked `malloc` calls at lines 288 and 408 are not modelled. A NULL destination there is a NULL dereference in the normaliser, not a frame-level error.
- The scaler's buffer leaks when the scaler fails (lines 341-343). There is no memory in this model.
- Thread safety of the reference count (the TODO at lines 81 and 89) is not modelled.
- Frames.Ref: does not model `int` overflow of the count. Counts are unbounded integers.
- C `int` overflow of `width * height * 3` and of the crop offsets is not modelled. The model's products are exact.
- Conversion.ConvertToRgb888: takes as given that a successful normaliser fills the whole `width * height * 3` bytes it was given. That buffer's size is part of the normaliser's contract, which is not part of this model.
- Cropping.Clip: requires the crop rectangle to lie inside the image (`CropWithin`), the obligation a caller of `sixel_frame_clip` has, which `clip` does not check. Rectangles that stick out to the right but whose rows still fall inside the buffer (a 4 x 4 PAL8 frame cropped at x = 2 to width 4, say) are defined C, where each row wraps into the next image row; they are not modelled. It also requires the buffer to hold the image's `width * height * depth` bytes.
- AlphaStrip.StripAlpha: requires the buffer to hold `width * height` 4-byte pixels and the background to have three bytes. The C code reads those bytes without checking.
- The numeric values of the `PIXELFORMAT_*` constants are not modelled. Encodings that the operations do not name are `Other(code)`.
