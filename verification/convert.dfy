/** `sixel_frame_convert_to_rgb888` and `sixel_frame_resize`: a dispatch on the
    pixel encoding around the format normaliser, and a resize that normalises
    first and then hands the buffer to the scaler.

    Neither collaborator is part of this model. Each is represented by the
    result it produces for the one call the core makes: */
module Conversion {
  import opened Buffers
  import opened PixelFormats
  import opened Frames

  /** The normaliser's result: its return code, the value it left in the
      pixel-format out-parameter (which points at the frame's own field), and
      the content of the destination buffer the core allocated for it. */
  datatype Normalized = Normalized(status: int, format: PixelFormat, pixels: Buffer)

  /** The normaliser fills the whole destination buffer of `capacity` bytes
      when it succeeds. */
  predicate FillsDestination(n: Normalized, capacity: int) {
    n.status == 0 ==> |n.pixels| == capacity
  }

  /** The arguments the core passes to the scaler. */
  datatype ScaleRequest = ScaleRequest(
    source: Option<Buffer>, sourceWidth: int, sourceHeight: int, depth: int,
    width: int, height: int, resampling: int, capacity: int)

  /** The scaler's result: its return code and the content of the destination
      buffer. */
  datatype Scaled = Scaled(status: int, pixels: Buffer)

  /** Result of a resize, with the scaler call it made, if any. */
  datatype Resized = Resized(frame: Frame, status: int, scaleCall: Option<ScaleRequest>)

  /** `sixel_frame_convert_to_rgb888`. RGB888 is kept as it is; the ten
      encodings the normaliser handles get a fresh `width * height * 3` byte
      buffer filled by `normalized`; anything else is refused with -1. The
      palette, geometry and metadata never change, and the pixel buffer is
      replaced only on success. */
  function ConvertToRgb888(f: Frame, normalized: Normalized): (r: Outcome)
    requires IsNormalizable(f.format) ==> FillsDestination(normalized, f.width * f.height * 3)
    ensures r.status == 0 <==> f.format == RGB888 || (IsNormalizable(f.format) && normalized.status == 0)
    ensures SameMetadata(r.frame, f)
    ensures r.frame.width == f.width && r.frame.height == f.height
    ensures r.frame.pixels != f.pixels ==> r.status == 0 && r.frame.pixels == Some(normalized.pixels)
    ensures r.status == 0 && f.format != RGB888 ==>
      && r.frame.pixels == Some(normalized.pixels)
      && |normalized.pixels| == f.width * f.height * 3
    ensures !IsNormalizable(f.format) ==> r.frame == f
    ensures !IsNormalizable(f.format) && f.format != RGB888 ==> r.status == -1
    ensures IsNormalizable(f.format) ==> r.frame.format == normalized.format
    ensures IsNormalizable(f.format) && normalized.status != 0 ==>
      r.status == normalized.status && r.frame.pixels == f.pixels
  {
    match f.format
    case RGB888 => Outcome(f, 0)
    case _ =>
      if IsNormalizable(f.format) then
        if normalized.status != 0 then
          Outcome(f.(format := normalized.format), normalized.status)
        else
          Outcome(f.(pixels := Some(normalized.pixels), format := normalized.format), 0)
      else
        Outcome(f, -1)
  }

  /** Converting twice: once the first conversion has produced RGB888, the
      second returns 0 and changes nothing, whatever the normaliser would
      have done. */
  lemma ConvertIdempotent(f: Frame, first: Normalized, second: Normalized)
    requires IsNormalizable(f.format) ==> FillsDestination(first, f.width * f.height * 3)
    requires ConvertToRgb888(f, first).frame.format == RGB888
    ensures var g := ConvertToRgb888(f, first).frame;
      ConvertToRgb888(g, second) == Outcome(g, 0)
  {
  }

  /** After a successful conversion the buffer holds exactly
      `width * height * 3` bytes, whatever format the normaliser reports, as
      long as an RGB888 frame's buffer did before. */
  lemma ConvertSizesBuffer(f: Frame, normalized: Normalized)
    requires IsNormalizable(f.format) ==> FillsDestination(normalized, f.width * f.height * 3)
    requires f.format == RGB888 ==> f.pixels.Some? && |f.pixels.value| == f.width * f.height * 3
    requires ConvertToRgb888(f, normalized).status == 0
    ensures var g := ConvertToRgb888(f, normalized).frame;
      g.pixels.Some? && |g.pixels.value| == g.width * g.height * 3
  {
  }

  /** `sixel_frame_resize`: normalise, allocate `width * height * 3` bytes,
      scale into them with depth 3, and only on success adopt the new buffer
      and geometry. `allocOk` is whether that allocation succeeded. */
  function Resize(f: Frame, width: int, height: int, resampling: int,
                  normalized: Normalized, allocOk: bool, scaled: Scaled): (r: Resized)
    requires IsNormalizable(f.format) ==> FillsDestination(normalized, f.width * f.height * 3)
    requires scaled.status == 0 ==> |scaled.pixels| == width * height * 3
    ensures var c := ConvertToRgb888(f, normalized);
      && (c.status != 0 ==> r == Resized(c.frame, c.status, None))
      && (c.status == 0 && !allocOk ==> r == Resized(c.frame, -1, None))
      && (r.scaleCall.Some? <==> c.status == 0 && allocOk)
      && (r.scaleCall.Some? ==>
            r.scaleCall.value == ScaleRequest(c.frame.pixels, f.width, f.height, 3,
                                              width, height, resampling, width * height * 3))
    ensures r.status != 0 ==> r.frame.width == f.width && r.frame.height == f.height
    ensures r.status == 0 <==> r.scaleCall.Some? && scaled.status == 0
    ensures r.status == 0 ==>
      && r.frame.width == width && r.frame.height == height
      && r.frame.pixels == Some(scaled.pixels)
      && |scaled.pixels| == width * height * 3
    ensures r.scaleCall.Some? && scaled.status != 0 ==> r.status == scaled.status
    ensures var c := ConvertToRgb888(f, normalized);
      && (r.status != 0 ==> r.frame == c.frame)
      && (r.status == 0 ==>
            r.frame == c.frame.(pixels := Some(scaled.pixels), width := width, height := height))
    ensures SameMetadata(r.frame, f)
  {
    var c := ConvertToRgb888(f, normalized);
    if c.status != 0 then
      Resized(c.frame, c.status, None)
    else if !allocOk then
      Resized(c.frame, -1, None)
    else
      var g := c.frame;
      var call := ScaleRequest(g.pixels, g.width, g.height, 3, width, height, resampling, width * height * 3);
      if scaled.status != 0 then
        Resized(g, scaled.status, Some(call))
      else
        Resized(g.(pixels := Some(scaled.pixels), width := width, height := height), 0, Some(call))
  }

  /** When the destination allocation fails, the scaler's behaviour has no
      influence on the result: it is never called. */
  lemma ResizeAllocFailureSkipsScaler(f: Frame, width: int, height: int, resampling: int,
                                      normalized: Normalized, s1: Scaled, s2: Scaled)
    requires IsNormalizable(f.format) ==> FillsDestination(normalized, f.width * f.height * 3)
    requires s1.status == 0 ==> |s1.pixels| == width * height * 3
    requires s2.status == 0 ==> |s2.pixels| == width * height * 3
    ensures Resize(f, width, height, resampling, normalized, false, s1)
         == Resize(f, width, height, resampling, normalized, false, s2)
    ensures Resize(f, width, height, resampling, normalized, false, s1).status != 0
  {
  }

  /** A successful resize leaves the converted format in place and does not
      undo the conversion: when that format is RGB888, converting the resized
      frame again returns 0 and changes nothing. */
  lemma ResizeThenConvert(f: Frame, width: int, height: int, resampling: int,
                          normalized: Normalized, scaled: Scaled, again: Normalized)
    requires IsNormalizable(f.format) ==> FillsDestination(normalized, f.width * f.height * 3)
    requires scaled.status == 0 ==> |scaled.pixels| == width * height * 3
    requires var r := Resize(f, width, height, resampling, normalized, true, scaled);
      r.status == 0 && r.frame.format == RGB888
    ensures var g := Resize(f, width, height, resampling, normalized, true, scaled).frame;
      && g.format == ConvertToRgb888(f, normalized).frame.format
      && ConvertToRgb888(g, again) == Outcome(g, 0)
  {
  }
}
