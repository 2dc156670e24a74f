/** The frame container: a pixel buffer, an optional palette and the fields
    that describe them, with a reference-counted lifecycle. The getters of the
    C API are this datatype's field destructors. */
module Frames {
  import opened Buffers
  import opened PixelFormats

  datatype Frame = Frame(
    refCount: int,
    pixels: Option<Buffer>,
    palette: Option<Buffer>,
    width: int,
    height: int,
    ncolors: int,
    format: PixelFormat,
    delay: int,
    frameNo: int,
    loopCount: int,
    multiframe: int,
    transparent: int)

  /** A frame operation's effect: the frame afterwards and the C return code
      (0 for success). */
  datatype Outcome = Outcome(frame: Frame, status: int)

  /** The fields no pixel operation touches: the reference count, the palette
      and its colour count, and the animation metadata. */
  predicate SameMetadata(a: Frame, b: Frame) {
    && a.refCount == b.refCount
    && a.palette == b.palette
    && a.ncolors == b.ncolors
    && a.transparent == b.transparent
    && a.delay == b.delay
    && a.frameNo == b.frameNo
    && a.loopCount == b.loopCount
    && a.multiframe == b.multiframe
  }

  /** The empty frame `sixel_frame_create` returns; `allocOk` is whether the
      allocation of the frame succeeded, the only way creation can fail. */
  function Create(allocOk: bool): (r: Option<Frame>)
    ensures r.None? <==> !allocOk
    ensures r.Some? ==>
      && r.value.refCount == 1
      && r.value.pixels.None? && r.value.palette.None?
      && r.value.width == 0 && r.value.height == 0
      && r.value.ncolors == -1 && r.value.transparent == -1
      && r.value.format == RGB888
      && r.value.delay == 0 && r.value.frameNo == 0
      && r.value.loopCount == 0 && r.value.multiframe == 0
  {
    if allocOk then
      Some(Frame(1, None, None, 0, 0, -1, RGB888, 0, 0, 0, 0, -1))
    else
      None
  }

  /** Takes one more reference. */
  function Ref(f: Frame): (r: Frame)
    ensures r.refCount == f.refCount + 1
    ensures r.(refCount := f.refCount) == f
  {
    f.(refCount := f.refCount + 1)
  }

  /** What dropping a reference did to the pointer it was given. */
  datatype Released =
    | Untouched              // the pointer was NULL
    | Decremented(frame: Frame)
    | Destroyed              // pixels, palette and the frame were freed

  /** Drops one reference; the frame is destroyed exactly when the count
      reaches zero. */
  function Unref(p: Option<Frame>): (r: Released)
    ensures r.Untouched? <==> p.None?
    ensures r.Destroyed? <==> p.Some? && p.value.refCount == 1
    ensures r.Decremented? ==>
      && r.frame.refCount == p.value.refCount - 1
      && r.frame.(refCount := p.value.refCount) == p.value
  {
    match p
    case None => Untouched
    case Some(f) =>
      if f.refCount - 1 == 0 then Destroyed else Decremented(f.(refCount := f.refCount - 1))
  }

  /** `sixel_frame_init`: installs the given buffers and descriptive fields and
      reports success; the count and the animation fields are kept. */
  function Init(f: Frame, pixels: Option<Buffer>, width: int, height: int,
                format: PixelFormat, palette: Option<Buffer>, ncolors: int): (r: Outcome)
    ensures r.status == 0
    ensures r.frame.pixels == pixels && r.frame.palette == palette
    ensures r.frame.width == width && r.frame.height == height
    ensures r.frame.format == format && r.frame.ncolors == ncolors
    ensures r.frame.refCount == f.refCount && r.frame.transparent == f.transparent
    ensures r.frame.delay == f.delay && r.frame.frameNo == f.frameNo
    ensures r.frame.loopCount == f.loopCount && r.frame.multiframe == f.multiframe
  {
    Outcome(f.(pixels := pixels, width := width, height := height, format := format,
               palette := palette, ncolors := ncolors), 0)
  }

  /** `sixel_frame_set_palette`: replaces the palette and its colour count and
      nothing else. */
  function SetPalette(f: Frame, palette: Option<Buffer>, ncolors: int): (r: Frame)
    ensures r.palette == palette && r.ncolors == ncolors
    ensures r.(palette := f.palette, ncolors := f.ncolors) == f
  {
    f.(palette := palette, ncolors := ncolors)
  }

  /** `k` references taken one after another. */
  function RefTimes(f: Frame, k: nat): (r: Frame)
    ensures r.refCount == f.refCount + k
    ensures r.(refCount := f.refCount) == f
    decreases k
  {
    if k == 0 then f else Ref(RefTimes(f, k - 1))
  }

  /** The outcomes of `k` references dropped one after another from a live
      frame, none after the one that destroys it. */
  function UnrefTimes(f: Frame, k: nat): (trace: seq<Released>)
    requires k <= f.refCount
    ensures |trace| == k
    decreases k
  {
    if k == 0 then []
    else
      match Unref(Some(f))
      case Decremented(g) => [Decremented(g)] + UnrefTimes(g, k - 1)
      case other => [other]
  }

  /** Dropping every reference of a live frame keeps it alive until the last
      drop, which destroys it. */
  lemma {:induction false} UnrefAllDestroysOnLast(f: Frame)
    requires f.refCount >= 1
    ensures var trace := UnrefTimes(f, f.refCount);
      && (forall i | 0 <= i < |trace| - 1 :: trace[i].Decremented?)
      && trace[|trace| - 1] == Destroyed
    decreases f.refCount
  {
    if f.refCount > 1 {
      var g := f.(refCount := f.refCount - 1);
      UnrefAllDestroysOnLast(g);
      assert UnrefTimes(f, f.refCount) == [Decremented(g)] + UnrefTimes(g, g.refCount);
    }
  }

  /** A fresh frame given `n` more references survives `n` unrefs and is
      destroyed by the next one, exactly once. */
  lemma RefsThenUnrefsDestroyOnce(f: Frame, n: nat)
    requires f.refCount == 1
    ensures var trace := UnrefTimes(RefTimes(f, n), n + 1);
      && (forall i | 0 <= i < n :: trace[i].Decremented?)
      && trace[n] == Destroyed
  {
    UnrefAllDestroysOnLast(RefTimes(f, n));
  }

  /** Creating a frame, taking one reference and dropping two destroys it on
      the second drop and not before. */
  lemma CreateRefUnrefTwice()
    ensures var f := Create(true).value;
      && Unref(Some(Ref(f))).Decremented?
      && Unref(Some(Unref(Some(Ref(f))).frame)) == Destroyed
  {
  }

  /** Taking a reference and dropping it again restores the frame, unless the
      count was zero, where the C code's increment reaches 1 and the drop
      destroys it. */
  lemma RefThenUnref(f: Frame)
    ensures f.refCount != 0 ==> Unref(Some(Ref(f))) == Decremented(f)
    ensures f.refCount == 0 ==> Unref(Some(Ref(f))) == Destroyed
  {
  }

  /** Putting back the palette a frame had undoes `sixel_frame_set_palette`,
      and of two palettes set one after the other only the second remains. */
  lemma SetPaletteRestores(f: Frame, p1: Option<Buffer>, n1: int, p2: Option<Buffer>, n2: int)
    ensures SetPalette(SetPalette(f, p1, n1), f.palette, f.ncolors) == f
    ensures SetPalette(SetPalette(f, p1, n1), p2, n2) == SetPalette(f, p2, n2)
  {
  }

  /** `sixel_frame_init` followed by `sixel_frame_set_palette` is the same as
      initialising with that palette; and initialising depends on the frame
      only through its count and animation fields. */
  lemma InitThenSetPalette(f: Frame, pixels: Option<Buffer>, width: int, height: int,
                           format: PixelFormat, palette: Option<Buffer>, ncolors: int,
                           p: Option<Buffer>, n: int)
    ensures SetPalette(Init(f, pixels, width, height, format, palette, ncolors).frame, p, n)
         == Init(f, pixels, width, height, format, p, n).frame
    ensures Init(SetPalette(f, p, n), pixels, width, height, format, palette, ncolors)
         == Init(f, pixels, width, height, format, palette, ncolors)
  {
  }
}
