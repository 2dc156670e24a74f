/** The pixel encodings a frame can declare, and the groups of them that each
    frame operation dispatches on. */
module PixelFormats {

  /** The encodings the frame operations name. `Other(code)` stands for every
      other value the C `int pixelformat` field can hold (BGR888, G1, a value
      that names no encoding at all, ...): no frame operation treats those
      specially. A `code` is never the C value of one of the encodings named
      here, so every C value has exactly one representation. */
  datatype PixelFormat =
    | RGB555 | RGB565 | RGB888 | BGR555 | BGR565
    | ARGB8888 | RGBA8888
    | G8 | GA88 | AG88
    | PAL1 | PAL2 | PAL4 | PAL8
    | Other(code: int)

  /** The two 4-byte truecolor encodings whose alpha byte strip-alpha removes. */
  predicate HasAlphaByte(f: PixelFormat) {
    f == RGBA8888 || f == ARGB8888
  }

  /** The encodings conversion to RGB888 hands to the format normaliser. */
  predicate IsNormalizable(f: PixelFormat) {
    f in {PAL8, G8, GA88, AG88, RGB555, RGB565, BGR555, BGR565, RGBA8888, ARGB8888}
  }

  /** Palette encodings with less than one byte per pixel; clip expands them
      to one byte per pixel before cropping. */
  predicate IsPackedPalette(f: PixelFormat) {
    f == PAL1 || f == PAL2 || f == PAL4
  }

  /** The encodings clip can crop: whole bytes per pixel. */
  predicate IsCroppable(f: PixelFormat) {
    f == PAL8 || f == G8 || f == RGB888
  }

  /** Bytes per pixel of a croppable encoding, as the depth helper reports it. */
  function Depth(f: PixelFormat): (d: nat)
    requires IsCroppable(f)
    ensures d == 1 <==> f != RGB888
    ensures d == 3 <==> f == RGB888
  {
    if f == RGB888 then 3 else 1
  }
}
