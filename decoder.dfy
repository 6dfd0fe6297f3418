/**
 * Gif.readGif: the frame compositor. The ImageIO reader is replaced by its
 * output: the Logical Screen Descriptor's size when the stream metadata has
 * one, and one FrameRecord per image the reader yields, in reader order.
 *
 * The specification is DecodePrefix, which runs the compositor's state
 * machine over the first n records one Step at a time; ReadGif is the
 * imperative loop over the in-place Canvas, proved to compute Decode.
 */
module GifDecoder {
  import opened Wrappers
  import opened Raster
  import opened Graphics

  /**
   * The disposalMethod attribute of a Graphic Control Extension: one of the
   * names the GIF image metadata format allows. The compositor acts on
   * restoreToPrevious and restoreToBackgroundColor; any other leaves the
   * canvas alone.
   */
  datatype Disposal =
    | NoDisposal                      // "none"
    | DoNotDispose                    // "doNotDispose"
    | RestoreToBackgroundColor        // "restoreToBackgroundColor"
    | RestoreToPrevious               // "restoreToPrevious"
    | UndefinedDisposalMethod(code: UndefinedCode)  // "undefinedDisposalMethod4" .. "undefinedDisposalMethod7"

  /** The disposal codes 4 .. 7 that GIF89a leaves undefined. */
  type UndefinedCode = c: int | 4 <= c <= 7 witness 4

  /** logicalScreenWidth / logicalScreenHeight of the Logical Screen Descriptor. */
  datatype ScreenSize = ScreenSize(width: nat, height: nat)

  /** delayTime and disposalMethod of a Graphic Control Extension. */
  datatype Control = Control(delay: nat, disposal: Disposal)

  /**
   * What the reader yields for one frame: the decoded sub-image, the Image
   * Descriptor's imageLeftPosition / imageTopPosition, and the Graphic Control
   * Extension if the frame has one.
   */
  datatype FrameRecord = FrameRecord(image: Image, left: nat, top: nat, control: Option<Control>)

  /** ImageFrame: a snapshot of the canvas with its frame's delay and disposal. */
  datatype ImageFrame = ImageFrame(image: Image, delay: nat, disposal: Disposal)

  /** The ways loading a Gif fails. */
  datatype GifError =
    | NotGifFile                      // isGif: the path does not end in ".gif"
    | MissingControlExtension(frame: nat)  // gce is null for this frame
    | EmptyScreen                     // the canvas would have a zero width or height
    | CanvasTooLarge                  // the canvas would have MaxRasterPixels pixels or more
    | NoRestorePoint(frame: nat)      // restoreToPrevious with no earlier frame to restore
    | NoFrames                        // objectize reads frame 0 of an empty result

  /** Every image from the reader is a well-formed raster (possibly empty). */
  predicate AllValid(records: seq<FrameRecord>) {
    forall k :: 0 <= k < |records| ==> records[k].image.Valid()
  }

  /** The compositor's state between frames: the resolved size (-1 while unknown), `master`, and the frames so far. */
  datatype Session = Session(width: int, height: int, master: Option<Image>, frames: seq<ImageFrame>)

  /** Before the first frame: the header's size, or -1 x -1 without one; no canvas yet; no frames. */
  function Initial(header: Option<ScreenSize>): Session {
    match header
    case Some(size) => Session(size.width, size.height, None, [])
    case None => Session(-1, -1, None, [])
  }

  /** The logical screen width: the header's, or else the first image's. */
  function ScreenWidth(header: Option<ScreenSize>, records: seq<FrameRecord>): nat
    requires |records| > 0
  {
    if header.Some? then header.value.width else records[0].image.width
  }

  function ScreenHeight(header: Option<ScreenSize>, records: seq<FrameRecord>): nat
    requires |records| > 0
  {
    if header.Some? then header.value.height else records[0].image.height
  }

  /** Where frame k is drawn: frame 0 always at (0, 0), later frames at their Image Descriptor offsets. */
  function OffsetX(records: seq<FrameRecord>, k: nat): int
    requires k < |records|
  {
    if k == 0 then 0 else records[k].left
  }

  function OffsetY(records: seq<FrameRecord>, k: nat): int
    requires k < |records|
  {
    if k == 0 then 0 else records[k].top
  }

  /**
   * The backward search of a restoreToPrevious at frame k: the largest index
   * below k whose disposal is not restoreToPrevious, or None when every
   * earlier frame (possibly none) is restoreToPrevious.
   */
  function NearestRestorable(frames: seq<ImageFrame>, k: nat): (r: Option<nat>)
    requires k <= |frames|
    ensures r.Some? ==> r.value < k && frames[r.value].disposal != RestoreToPrevious
    ensures r.Some? ==> forall j :: r.value < j < k ==> frames[j].disposal == RestoreToPrevious
    ensures r.None? <==> forall j :: 0 <= j < k ==> frames[j].disposal == RestoreToPrevious
  {
    if k == 0 then None
    else if frames[k - 1].disposal != RestoreToPrevious then Some(k - 1)
    else NearestRestorable(frames, k - 1)
  }

  /** What the compositor has done after the first k frames: the facts every reachable state satisfies. */
  predicate Consistent(header: Option<ScreenSize>, records: seq<FrameRecord>, k: nat, s: Session)
    requires k <= |records| && AllValid(records)
  {
    && |s.frames| == k
    && (k == 0 ==> s == Initial(header))
    && (k > 0 ==>
      && s.width == ScreenWidth(header, records) && s.width > 0
      && s.height == ScreenHeight(header, records) && s.height > 0
      && s.width * s.height < MaxRasterPixels
      && s.master.Some? && s.master.value.Valid()
      && s.master.value.width == s.width && s.master.value.height == s.height)
    && forall i :: 0 <= i < k ==>
      && records[i].control.Some?
      && s.frames[i].delay == records[i].control.value.delay
      && s.frames[i].disposal == records[i].control.value.disposal
      && s.frames[i].image.Valid()
      && s.frames[i].image.width == s.width && s.frames[i].image.height == s.height
  }

  /**
   * One pass of readGif's frame loop on record `rec`: resolve the size, read
   * the control extension, create or reuse the canvas, draw, snapshot, and
   * then apply this frame's disposal to the canvas.
   */
  function Step(s: Session, rec: FrameRecord): Result<Session, GifError>
    requires rec.image.Valid()
    requires s.master.Some? ==> s.master.value.Valid()
  {
    var k := |s.frames|;
    var unknown := s.width == -1 || s.height == -1;
    var w := if unknown then rec.image.width else s.width;
    var h := if unknown then rec.image.height else s.height;
    if rec.control.None? then Err(MissingControlExtension(k))
    else if s.master.None? && (w <= 0 || h <= 0) then Err(EmptyScreen)
    else if s.master.None? && w * h >= MaxRasterPixels then Err(CanvasTooLarge)
    else
      var x := if s.master.None? then 0 else rec.left;
      var y := if s.master.None? then 0 else rec.top;
      var canvas := if s.master.None? then BlankImage(w, h) else s.master.value;
      var drawn := Draw(canvas, rec.image, x, y);
      var frames := s.frames + [ImageFrame(drawn, rec.control.value.delay, rec.control.value.disposal)];
      match AfterDisposal(frames, k, drawn, x, y, rec.image.width, rec.image.height, rec.control.value.disposal)
      case Err(e) => Err(e)
      case Ok(m) => Ok(Session(w, h, Some(m), frames))
  }

  /**
   * The canvas once frame k's disposal has run on `drawn`, the canvas frame k
   * was drawn on: restoreToPrevious takes the snapshot of the nearest earlier
   * frame that is not itself restoreToPrevious, restoreToBackgroundColor
   * clears the frame's rectangle, and any other method keeps the canvas.
   */
  function AfterDisposal(frames: seq<ImageFrame>, k: nat, drawn: Image, x: int, y: int, w: nat, h: nat, disposal: Disposal): Result<Image, GifError>
    requires k <= |frames| && drawn.Valid()
  {
    if disposal == RestoreToPrevious then
      match NearestRestorable(frames, k)
      case None => Err(NoRestorePoint(k))
      case Some(i) => Ok(frames[i].image)
    else if disposal == RestoreToBackgroundColor then
      Ok(Clear(drawn, x, y, w, h))
    else
      Ok(drawn)
  }

  /** One Step from a state consistent with the first k records leaves a state consistent with the first k + 1. */
  lemma StepKeepsConsistent(header: Option<ScreenSize>, records: seq<FrameRecord>, k: nat, s: Session)
    requires k < |records| && AllValid(records) && Consistent(header, records, k, s)
    ensures s.master.Some? ==> s.master.value.Valid()
    ensures Step(s, records[k]).Ok? ==> Consistent(header, records, k + 1, Step(s, records[k]).value)
  {
    var rec := records[k];
    if Step(s, rec).Ok? {
      var t := Step(s, rec).value;
      assert t.frames[..k] == s.frames;
      assert t.width == ScreenWidth(header, records) && t.height == ScreenHeight(header, records);
    }
  }

  /** The compositor's state after the first n records, or the error that stopped it. */
  function DecodePrefix(header: Option<ScreenSize>, records: seq<FrameRecord>, n: nat): (r: Result<Session, GifError>)
    requires n <= |records| && AllValid(records)
    ensures r.Ok? ==> Consistent(header, records, n, r.value)
    decreases n
  {
    if n == 0 then Ok(Initial(header))
    else
      match DecodePrefix(header, records, n - 1)
      case Err(e) => Err(e)
      case Ok(s) =>
        StepKeepsConsistent(header, records, n - 1, s);
        Step(s, records[n - 1])
  }

  /** readGif's result: every frame's snapshot with its delay and disposal, in reader order. */
  function Decode(header: Option<ScreenSize>, records: seq<FrameRecord>): (r: Result<seq<ImageFrame>, GifError>)
    requires AllValid(records)
    ensures r.Ok? ==> |r.value| == |records|
    ensures r.Ok? ==> forall k :: 0 <= k < |records| ==>
      && r.value[k].image.Valid()
      && r.value[k].image.width == ScreenWidth(header, records)
      && r.value[k].image.height == ScreenHeight(header, records)
  {
    match DecodePrefix(header, records, |records|)
    case Ok(s) => Ok(s.frames)
    case Err(e) => Err(e)
  }

  /** One more record: the state after n records is one Step from the state after n - 1. */
  lemma NextPrefix(header: Option<ScreenSize>, records: seq<FrameRecord>, n: nat, s: Session)
    requires 0 < n <= |records| && AllValid(records)
    requires DecodePrefix(header, records, n - 1) == Ok(s)
    ensures s.master.Some? ==> s.master.value.Valid()
    ensures DecodePrefix(header, records, n) == Step(s, records[n - 1])
  {
  }

  /** Once a prefix fails, the whole decode fails with the same error. */
  lemma {:induction false} ErrorPersists(header: Option<ScreenSize>, records: seq<FrameRecord>, k: nat, n: nat)
    requires k <= n <= |records| && AllValid(records)
    requires DecodePrefix(header, records, k).Err?
    ensures DecodePrefix(header, records, n) == DecodePrefix(header, records, k)
    decreases n - k
  {
    if k < n {
      ErrorPersists(header, records, k + 1, n);
    }
  }

  /**
   * The backward scan of readGif: from frame k - 1 down to frame 0, stop at
   * the first frame whose disposal is not restoreToPrevious and return its
   * snapshot; None where the source leaves `from` null.
   */
  method FindRestorePoint(frames: seq<ImageFrame>, k: nat) returns (from: Option<Image>)
    requires k < |frames|
    ensures from.None? <==> NearestRestorable(frames, k).None?
    ensures from.Some? ==> from.value == frames[NearestRestorable(frames, k).value].image
  {
    from := None;
    var i := k;
    while i > 0
      invariant 0 <= i <= k
      invariant NearestRestorable(frames, k) == NearestRestorable(frames, i)
      invariant from.None?
    {
      if frames[i - 1].disposal != RestoreToPrevious || k == 0 {
        from := Some(frames[i - 1].image);
        return;
      }
      i := i - 1;
    }
  }

  /**
   * The disposal step of readGif's loop on the canvas that frame k was just
   * drawn on: a new canvas holding the restored snapshot, the same canvas
   * with the frame's rectangle cleared, or the same canvas untouched.
   */
  method Dispose(master: Canvas, frames: seq<ImageFrame>, k: nat, x: int, y: int, w: nat, h: nat, disposal: Disposal)
    returns (r: Result<Canvas, GifError>)
    requires k < |frames| && forall i :: 0 <= i < k ==> frames[i].image.Valid()
    modifies master.pixels
    ensures var after := AfterDisposal(frames, k, old(master.Contents()), x, y, w, h, disposal);
      && r.Ok? == after.Ok?
      && (r.Err? ==> r.error == after.error)
      && (r.Ok? ==> (r.value == master || fresh(r.value.pixels)) && r.value.Contents() == after.value)
  {
    if disposal == RestoreToPrevious {
      var from := FindRestorePoint(frames, k);
      if from.None? {
        return Err(NoRestorePoint(k));
      }
      var restored := new Canvas.Copy(from.value);
      return Ok(restored);
    } else if disposal == RestoreToBackgroundColor {
      master.ClearRect(x, y, w, h);
    }
    return Ok(master);
  }

  /**
   * One pass of readGif's frame loop on record `rec`, from the size so far
   * (-1 while unknown), `master` (null before the first frame) and the
   * snapshots so far. It yields the canvas to carry on with, the new size
   * and snapshots, or the error that ends the loop: exactly what Step says.
   */
  method CompositeFrame(rec: FrameRecord, master: Canvas?, width: int, height: int, frames: seq<ImageFrame>)
    returns (r: Result<Canvas, GifError>, newWidth: int, newHeight: int, newFrames: seq<ImageFrame>)
    requires rec.image.Valid() && forall i :: 0 <= i < |frames| ==> frames[i].image.Valid()
    modifies if master == null then {} else {master.pixels}
    ensures var s := Session(width, height, if master == null then None else Some(old(master.Contents())), frames);
      && (r.Err? ==> Step(s, rec) == Err(r.error))
      && (r.Ok? ==> Step(s, rec) == Ok(Session(newWidth, newHeight, Some(r.value.Contents()), newFrames)))
    ensures r.Ok? ==> (r.value == master || fresh(r.value.pixels))
  {
    ghost var s := Session(width, height, if master == null then None else Some(master.Contents()), frames);
    var k := |frames|;
    newWidth, newHeight, newFrames := width, height, frames;
    var image := rec.image;
    if width == -1 || height == -1 {
      newWidth, newHeight := image.width, image.height;
    }
    if rec.control.None? {
      return Err(MissingControlExtension(k)), newWidth, newHeight, newFrames;
    }
    var delay, disposal := rec.control.value.delay, rec.control.value.disposal;
    var x, y := 0, 0;
    var canvas: Canvas;
    if master == null {
      if newWidth <= 0 || newHeight <= 0 {
        return Err(EmptyScreen), newWidth, newHeight, newFrames;
      }
      if newWidth * newHeight >= MaxRasterPixels {
        return Err(CanvasTooLarge), newWidth, newHeight, newFrames;
      }
      canvas := new Canvas(newWidth, newHeight);
    } else {
      canvas := master;
      x, y := rec.left, rec.top;
    }
    ghost var before := canvas.Contents();
    assert before == if s.master.None? then BlankImage(newWidth, newHeight) else s.master.value;
    canvas.DrawImage(image, x, y);
    var copy := canvas.Contents();
    assert copy == Draw(before, image, x, y);
    newFrames := frames + [ImageFrame(copy, delay, disposal)];
    r := Dispose(canvas, newFrames, k, x, y, image.width, image.height, disposal);
  }

  /** Frame k of readGif's loop: CompositeFrame on record k carries the state after k records to the state after k + 1. */
  method NextFrame(ghost header: Option<ScreenSize>, records: seq<FrameRecord>, k: nat,
                   master: Canvas?, width: int, height: int, frames: seq<ImageFrame>)
    returns (r: Result<Canvas, GifError>, newWidth: int, newHeight: int, newFrames: seq<ImageFrame>)
    requires k < |records| && AllValid(records)
    requires DecodePrefix(header, records, k)
      == Ok(Session(width, height, if master == null then None else Some(master.Contents()), frames))
    modifies if master == null then {} else {master.pixels}
    ensures r.Err? ==> DecodePrefix(header, records, k + 1) == Err(r.error)
    ensures r.Ok? ==> (r.value == master || fresh(r.value.pixels))
    ensures r.Ok? ==>
      DecodePrefix(header, records, k + 1) == Ok(Session(newWidth, newHeight, Some(r.value.Contents()), newFrames))
  {
    NextPrefix(header, records, k + 1, Session(width, height, if master == null then None else Some(master.Contents()), frames));
    r, newWidth, newHeight, newFrames := CompositeFrame(records[k], master, width, height, frames);
  }

  /** readGif: composite every record onto the in-place canvas and collect the snapshots. */
  method ReadGif(header: Option<ScreenSize>, records: seq<FrameRecord>) returns (r: Result<seq<ImageFrame>, GifError>)
    requires AllValid(records)
    ensures r == Decode(header, records)
  {
    var width: int, height: int := -1, -1;
    if header.Some? {
      width, height := header.value.width, header.value.height;
    }
    var master: Canvas? := null;
    var frames: seq<ImageFrame> := [];
    var frameIndex := 0;
    while frameIndex < |records|
      invariant 0 <= frameIndex <= |records|
      invariant master != null ==> fresh(master.pixels)
      invariant DecodePrefix(header, records, frameIndex)
        == Ok(Session(width, height, if master == null then None else Some(master.Contents()), frames))
    {
      var step;
      step, width, height, frames := NextFrame(header, records, frameIndex, master, width, height, frames);
      if step.Err? {
        ErrorPersists(header, records, frameIndex + 1, |records|);
        return Err(step.error);
      }
      master := step.value;
      frameIndex := frameIndex + 1;
    }
    return Ok(frames);
  }
}
