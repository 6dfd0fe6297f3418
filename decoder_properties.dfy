/**
 * What readGif promises about its output, proved of the specification
 * GifDecoder.Decode. Frames are never changed once taken. The output is the
 * one frame sequence that satisfies Composites, a closed form of the
 * compositor: frame k is the sub-image of record k drawn over the canvas
 * that the previous frame's disposal left. Decoding fails exactly when a
 * frame has no control extension, the screen is empty, the screen has
 * Integer.MAX_VALUE pixels or more, or a restoreToPrevious has nothing to
 * restore.
 */
module GifDecoderProperties {
  import opened Wrappers
  import opened Raster
  import opened GifDecoder

  /** The backward search only looks at the disposals of frames below k. */
  lemma {:induction false} NearestRestorableDependsOnPrefix(fs: seq<ImageFrame>, gs: seq<ImageFrame>, k: nat)
    requires k <= |fs| && k <= |gs|
    requires forall j :: 0 <= j < k ==> fs[j].disposal == gs[j].disposal
    ensures NearestRestorable(fs, k) == NearestRestorable(gs, k)
  {
    if k > 0 {
      NearestRestorableDependsOnPrefix(fs, gs, k - 1);
    }
  }

  /** One Step appends exactly one snapshot and leaves the earlier ones alone. */
  lemma StepAppends(s: Session, rec: FrameRecord)
    requires rec.image.Valid() && (s.master.Some? ==> s.master.value.Valid())
    requires Step(s, rec).Ok?
    ensures |Step(s, rec).value.frames| == |s.frames| + 1
    ensures Step(s, rec).value.frames[..|s.frames|] == s.frames
  {
  }

  /** A successful prefix of n > 0 records extends the prefix of n - 1 records by one frame. */
  lemma PrefixExtends(header: Option<ScreenSize>, records: seq<FrameRecord>, n: nat)
    requires 0 < n <= |records| && AllValid(records)
    requires DecodePrefix(header, records, n).Ok?
    ensures DecodePrefix(header, records, n - 1).Ok?
    ensures DecodePrefix(header, records, n).value.frames[..n - 1] == DecodePrefix(header, records, n - 1).value.frames
  {
    var s := DecodePrefix(header, records, n - 1).value;
    NextPrefix(header, records, n, s);
    StepAppends(s, records[n - 1]);
  }

  /** A successful prefix of n > 0 records has a successful prefix of n - 1 records. */
  lemma PrefixOk(header: Option<ScreenSize>, records: seq<FrameRecord>, n: nat)
    requires 0 < n <= |records| && AllValid(records)
    requires DecodePrefix(header, records, n).Ok?
    ensures DecodePrefix(header, records, n - 1).Ok?
  {
  }

  /** Taking the first j of the first m elements takes the first j. */
  lemma PrefixOfPrefix<T>(all: seq<T>, m: nat, j: nat)
    requires j <= m <= |all|
    ensures all[..m][..j] == all[..j]
  {
  }

  /**
   * The frame history is append-only: the frames after j records are
   * exactly the first j frames after n records, for every j <= n.
   */
  lemma {:induction false} HistoryAppendOnly(header: Option<ScreenSize>, records: seq<FrameRecord>, j: nat, n: nat)
    requires j <= n <= |records| && AllValid(records)
    requires DecodePrefix(header, records, n).Ok?
    ensures DecodePrefix(header, records, j).Ok?
    ensures DecodePrefix(header, records, j).value.frames == DecodePrefix(header, records, n).value.frames[..j]
  {
    var all := DecodePrefix(header, records, n).value.frames;
    if j < n {
      PrefixExtends(header, records, n);
      HistoryAppendOnly(header, records, j, n - 1);
      PrefixOfPrefix(all, n - 1, j);
    } else {
      assert all[..n] == all;
    }
  }

  /** Every frame is a valid raster. */
  predicate FramesValid(frames: seq<ImageFrame>) {
    forall i :: 0 <= i < |frames| ==> frames[i].image.Valid()
  }

  /**
   * The canvas right after frame i's disposal, written in terms of the
   * output frames alone. None of the three branches depends on a frame at
   * or after i + 1. The None case of restoreToPrevious never arises in
   * frames that satisfy Composites.
   */
  function Disposed(records: seq<FrameRecord>, frames: seq<ImageFrame>, i: nat): (r: Image)
    requires i < |frames| && i < |records| && FramesValid(frames)
    ensures r.Valid()
  {
    if frames[i].disposal == RestoreToPrevious then
      match NearestRestorable(frames, i)
      case Some(j) => frames[j].image
      case None => frames[i].image
    else if frames[i].disposal == RestoreToBackgroundColor then
      Clear(frames[i].image, OffsetX(records, i), OffsetY(records, i), records[i].image.width, records[i].image.height)
    else
      frames[i].image
  }

  /** The canvas that frame k is drawn on: a blank logical screen for frame 0, else what frame k - 1's disposal left. */
  function CanvasBefore(header: Option<ScreenSize>, records: seq<FrameRecord>, frames: seq<ImageFrame>, k: nat): (r: Image)
    requires k < |records| && k <= |frames| && FramesValid(frames)
    ensures r.Valid()
  {
    if k == 0 then BlankImage(ScreenWidth(header, records), ScreenHeight(header, records))
    else Disposed(records, frames, k - 1)
  }

  /**
   * Frame k of `frames` is what the compositor makes of record k: record k
   * has a control extension whose delay and disposal the frame carries, a
   * restoreToPrevious frame has an earlier frame to restore, and the image
   * is record k's sub-image drawn over CanvasBefore(k), at (0, 0) for frame 0
   * and at the record's offsets afterwards.
   */
  predicate FrameComposited(header: Option<ScreenSize>, records: seq<FrameRecord>, frames: seq<ImageFrame>, k: nat)
    requires AllValid(records) && FramesValid(frames) && k < |records| && k < |frames|
  {
    && records[k].control.Some?
    && frames[k].delay == records[k].control.value.delay
    && frames[k].disposal == records[k].control.value.disposal
    && (frames[k].disposal == RestoreToPrevious ==> NearestRestorable(frames, k).Some?)
    && frames[k].image == Draw(CanvasBefore(header, records, frames, k), records[k].image, OffsetX(records, k), OffsetY(records, k))
  }

  /** The compositor in closed form: one frame per record, each of the logical screen size and each composited. */
  predicate Composites(header: Option<ScreenSize>, records: seq<FrameRecord>, frames: seq<ImageFrame>)
    requires AllValid(records)
  {
    && |frames| == |records|
    && FramesValid(frames)
    && (forall k :: 0 <= k < |frames| ==>
          frames[k].image.width == ScreenWidth(header, records) && frames[k].image.height == ScreenHeight(header, records))
    && forall k :: 0 <= k < |frames| ==> FrameComposited(header, records, frames, k)
  }

  lemma CanvasBeforeDependsOnPrefix(header: Option<ScreenSize>, records: seq<FrameRecord>,
                                    fs: seq<ImageFrame>, gs: seq<ImageFrame>, k: nat)
    requires k < |records| && k <= |fs| <= |gs| && fs == gs[..|fs|] && FramesValid(gs)
    ensures FramesValid(fs)
    ensures CanvasBefore(header, records, fs, k) == CanvasBefore(header, records, gs, k)
  {
    assert forall i :: 0 <= i < |fs| ==> fs[i] == gs[i];
    if k > 0 {
      NearestRestorableDependsOnPrefix(fs, gs, k - 1);
    }
  }

  /** One Step leaves as `master` what Disposed says of the frame it appends. */
  lemma StepDisposes(header: Option<ScreenSize>, records: seq<FrameRecord>, k: nat, s0: Session)
    requires k < |records| && AllValid(records) && Consistent(header, records, k, s0)
    requires Step(s0, records[k]).Ok?
    ensures var s := Step(s0, records[k]).value;
      && |s.frames| == k + 1 && FramesValid(s.frames)
      && (s.frames[k].disposal == RestoreToPrevious ==> NearestRestorable(s.frames, k).Some?)
      && s.master == Some(Disposed(records, s.frames, k))
  {
    StepKeepsConsistent(header, records, k, s0);
  }

  /** One Step from a master that Disposed describes draws record k over CanvasBefore(k). */
  lemma StepDraws(header: Option<ScreenSize>, records: seq<FrameRecord>, k: nat, s0: Session)
    requires k < |records| && AllValid(records) && Consistent(header, records, k, s0)
    requires k > 0 ==> s0.master == Some(Disposed(records, s0.frames, k - 1))
    requires Step(s0, records[k]).Ok?
    ensures var s := Step(s0, records[k]).value;
      && |s.frames| == k + 1 && FramesValid(s.frames)
      && s.frames[k].image == Draw(CanvasBefore(header, records, s.frames, k), records[k].image, OffsetX(records, k), OffsetY(records, k))
  {
    StepKeepsConsistent(header, records, k, s0);
    StepAppends(s0, records[k]);
    if k > 0 {
      CanvasBeforeDependsOnPrefix(header, records, s0.frames, Step(s0, records[k]).value.frames, k);
    }
  }

  /** One Step from a master that Disposed describes appends a frame that satisfies FrameComposited. */
  lemma StepComposites(header: Option<ScreenSize>, records: seq<FrameRecord>, k: nat, s0: Session)
    requires k < |records| && AllValid(records) && Consistent(header, records, k, s0)
    requires k > 0 ==> s0.master == Some(Disposed(records, s0.frames, k - 1))
    requires Step(s0, records[k]).Ok?
    ensures var fs := Step(s0, records[k]).value.frames;
      && |fs| == k + 1 && FramesValid(fs)
      && FrameComposited(header, records, fs, k)
  {
    StepDraws(header, records, k, s0);
    StepDisposes(header, records, k, s0);
  }

  /** After n > 0 records, `master` is what frame n - 1's disposal left. */
  lemma MasterIsDisposed(header: Option<ScreenSize>, records: seq<FrameRecord>, n: nat)
    requires 0 < n <= |records| && AllValid(records)
    requires DecodePrefix(header, records, n).Ok?
    ensures var s := DecodePrefix(header, records, n).value;
      && |s.frames| == n && FramesValid(s.frames)
      && (s.frames[n - 1].disposal == RestoreToPrevious ==> NearestRestorable(s.frames, n - 1).Some?)
      && s.master == Some(Disposed(records, s.frames, n - 1))
  {
    var s0 := DecodePrefix(header, records, n - 1).value;
    NextPrefix(header, records, n, s0);
    StepDisposes(header, records, n - 1, s0);
  }

  /**
   * After n > 0 records, the newest frame n - 1 is composited: it carries its
   * record's delay and disposal, a restoreToPrevious has a restore point, and
   * its image is record n - 1's sub-image drawn over CanvasBefore(n - 1), at
   * (0, 0) for frame 0 and at the record's offsets afterwards.
   */
  lemma LastFrameComposited(header: Option<ScreenSize>, records: seq<FrameRecord>, n: nat)
    requires 0 < n <= |records| && AllValid(records)
    requires DecodePrefix(header, records, n).Ok?
    ensures var fs := DecodePrefix(header, records, n).value.frames;
      && |fs| == n && FramesValid(fs)
      && FrameComposited(header, records, fs, n - 1)
  {
    PrefixOk(header, records, n);
    var s0 := DecodePrefix(header, records, n - 1).value;
    NextPrefix(header, records, n, s0);
    if n > 1 {
      MasterIsDisposed(header, records, n - 1);
    }
    StepComposites(header, records, n - 1, s0);
  }

  /** FrameComposited at k depends only on the frames up to k: it carries over to any extension. */
  lemma FrameCompositedInExtension(header: Option<ScreenSize>, records: seq<FrameRecord>,
                                   fs: seq<ImageFrame>, gs: seq<ImageFrame>, k: nat)
    requires AllValid(records) && k < |fs| <= |gs| && k < |records| && fs == gs[..|fs|] && FramesValid(gs)
    requires FramesValid(fs) && FrameComposited(header, records, fs, k)
    ensures FrameComposited(header, records, gs, k)
  {
    assert fs[k] == gs[k];
    NearestRestorableDependsOnPrefix(fs, gs, k);
    CanvasBeforeDependsOnPrefix(header, records, fs, gs, k);
  }

  /** Frame k of readGif's output satisfies FrameComposited. */
  lemma DecodedFrame(header: Option<ScreenSize>, records: seq<FrameRecord>, k: nat)
    requires AllValid(records) && Decode(header, records).Ok? && k < |records|
    ensures FramesValid(Decode(header, records).value)
    ensures FrameComposited(header, records, Decode(header, records).value, k)
  {
    HistoryAppendOnly(header, records, k + 1, |records|);
    LastFrameComposited(header, records, k + 1);
    FrameCompositedInExtension(header, records, DecodePrefix(header, records, k + 1).value.frames,
                               Decode(header, records).value, k);
  }

  /**
   * The compositor, stated on readGif's output: one frame per record, in
   * record order, each carrying its record's delay and disposal; every
   * restoreToPrevious frame has a restore point; and frame k is the sub-image
   * of record k drawn over the canvas left by frame k - 1's disposal (a blank
   * logical screen for k = 0), so frame k's own disposal shows only from
   * frame k + 1 on.
   */
  lemma DecodeComposites(header: Option<ScreenSize>, records: seq<FrameRecord>)
    requires AllValid(records) && Decode(header, records).Ok?
    ensures Composites(header, records, Decode(header, records).value)
  {
    var frames := Decode(header, records).value;
    forall k | 0 <= k < |records|
      ensures FrameComposited(header, records, frames, k)
    {
      DecodedFrame(header, records, k);
    }
  }

  /** CanvasBefore(j) depends only on the records' images and offsets and on the frames and disposals below j. */
  lemma CanvasBeforeAgree(header: Option<ScreenSize>, records: seq<FrameRecord>, other: seq<FrameRecord>,
                          fs: seq<ImageFrame>, gs: seq<ImageFrame>, j: nat)
    requires j < |records| == |other| && j <= |fs| && j <= |gs| && FramesValid(fs) && FramesValid(gs)
    requires forall i :: 0 <= i < |records| ==>
      other[i].image == records[i].image && other[i].left == records[i].left && other[i].top == records[i].top
    requires forall i :: 0 <= i < j ==> fs[i].image == gs[i].image && fs[i].disposal == gs[i].disposal
    ensures CanvasBefore(header, other, gs, j) == CanvasBefore(header, records, fs, j)
  {
    if j > 0 {
      NearestRestorableDependsOnPrefix(fs, gs, j - 1);
      assert OffsetX(other, j - 1) == OffsetX(records, j - 1) && OffsetY(other, j - 1) == OffsetY(records, j - 1);
    }
  }

  /**
   * Two frame sequences composited from records that differ at most in the
   * control extension of record k agree on every frame up to and including
   * k, and on the delay and disposal of every frame below k.
   */
  lemma {:induction false} CompositesAgreeUpTo(header: Option<ScreenSize>, records: seq<FrameRecord>, other: seq<FrameRecord>,
                                               k: nat, fs: seq<ImageFrame>, gs: seq<ImageFrame>, j: nat)
    requires AllValid(records) && AllValid(other) && j <= k < |records| == |other|
    requires forall i :: 0 <= i < |records| ==>
      other[i].image == records[i].image && other[i].left == records[i].left && other[i].top == records[i].top
    requires forall i :: 0 <= i < k ==> other[i] == records[i]
    requires Composites(header, records, fs) && Composites(header, other, gs)
    ensures forall i :: 0 <= i <= j ==> gs[i].image == fs[i].image
    ensures forall i :: 0 <= i < j ==> gs[i].disposal == fs[i].disposal
  {
    if j > 0 {
      CompositesAgreeUpTo(header, records, other, k, fs, gs, j - 1);
      assert FrameComposited(header, records, fs, j - 1) && FrameComposited(header, other, gs, j - 1);
    }
    assert FrameComposited(header, records, fs, j) && FrameComposited(header, other, gs, j);
    CanvasBeforeAgree(header, records, other, fs, gs, j);
  }

  /** Composites has at most one solution: readGif's output is fully determined by it. */
  lemma CompositesUnique(header: Option<ScreenSize>, records: seq<FrameRecord>, fs: seq<ImageFrame>, gs: seq<ImageFrame>)
    requires AllValid(records) && Composites(header, records, fs) && Composites(header, records, gs)
    ensures fs == gs
  {
    if |records| > 0 {
      CompositesAgreeUpTo(header, records, records, |records| - 1, fs, gs, |records| - 1);
      forall i | 0 <= i < |records|
        ensures fs[i] == gs[i]
      {
        assert FrameComposited(header, records, fs, i) && FrameComposited(header, records, gs, i);
      }
    }
  }

  /** Frame 0 is the first sub-image drawn at (0, 0) on a transparent canvas of the logical screen size. */
  lemma FirstFrameOnBlankScreen(header: Option<ScreenSize>, records: seq<FrameRecord>, frames: seq<ImageFrame>)
    requires AllValid(records) && Composites(header, records, frames) && |records| > 0
    ensures frames[0].image == Draw(BlankImage(ScreenWidth(header, records), ScreenHeight(header, records)), records[0].image, 0, 0)
  {
    assert FrameComposited(header, records, frames, 0);
  }

  /** Whether frame k's sub-image sets screen pixel (px, py): inside its placed rectangle and not transparent. */
  predicate Painted(records: seq<FrameRecord>, k: nat, px: int, py: int)
    requires k < |records| && AllValid(records)
  {
    var x, y := OffsetX(records, k), OffsetY(records, k);
    InRect(x, y, records[k].image.width, records[k].image.height, px, py)
    && records[k].image.At(px - x, py - y).a != 0
  }

  /**
   * Pixel (px, py) of frame k: the sub-image's pixel where frame k paints it,
   * and otherwise the pixel of the canvas frame k was drawn on.
   */
  lemma FramePixel(header: Option<ScreenSize>, records: seq<FrameRecord>, frames: seq<ImageFrame>, k: nat, px: int, py: int)
    requires AllValid(records) && Composites(header, records, frames) && k < |records|
    requires 0 <= px < ScreenWidth(header, records) && 0 <= py < ScreenHeight(header, records)
    ensures frames[k].image.At(px, py) == if Painted(records, k, px, py)
      then records[k].image.At(px - OffsetX(records, k), py - OffsetY(records, k))
      else CanvasBefore(header, records, frames, k).At(px, py)
  {
    assert FrameComposited(header, records, frames, k);
    var canvas := CanvasBefore(header, records, frames, k);
    if k > 0 {
      assert canvas.width == frames[k].image.width && canvas.height == frames[k].image.height;
    }
    DrawPixel(canvas, records[k].image, OffsetX(records, k), OffsetY(records, k), px, py);
  }

  /** Every pixel frame k's sub-image paints shows that sub-image's pixel, whatever the canvas held. */
  lemma PaintedPixelsShowSubImage(header: Option<ScreenSize>, records: seq<FrameRecord>, frames: seq<ImageFrame>, k: nat)
    requires AllValid(records) && Composites(header, records, frames) && k < |records|
    ensures forall px, py :: 0 <= px < ScreenWidth(header, records) && 0 <= py < ScreenHeight(header, records) && Painted(records, k, px, py) ==>
      frames[k].image.At(px, py) == records[k].image.At(px - OffsetX(records, k), py - OffsetY(records, k))
  {
    forall px, py | 0 <= px < ScreenWidth(header, records) && 0 <= py < ScreenHeight(header, records) && Painted(records, k, px, py)
      ensures frames[k].image.At(px, py) == records[k].image.At(px - OffsetX(records, k), py - OffsetY(records, k))
    {
      FramePixel(header, records, frames, k, px, py);
    }
  }

  /**
   * restoreToBackgroundColor at frame k, seen in frame k + 1: wherever frame
   * k + 1 paints nothing, a pixel inside frame k's rectangle (its sub-image's
   * size at its offsets) is transparent and a pixel outside it is as frame k
   * showed it.
   */
  lemma RestoreToBackgroundClearsRectangle(header: Option<ScreenSize>, records: seq<FrameRecord>, frames: seq<ImageFrame>, k: nat)
    requires AllValid(records) && Composites(header, records, frames) && k + 1 < |records|
    requires frames[k].disposal == RestoreToBackgroundColor
    ensures forall px, py :: 0 <= px < ScreenWidth(header, records) && 0 <= py < ScreenHeight(header, records) && !Painted(records, k + 1, px, py) ==>
      frames[k + 1].image.At(px, py) ==
        if InRect(OffsetX(records, k), OffsetY(records, k), records[k].image.width, records[k].image.height, px, py)
        then Transparent
        else frames[k].image.At(px, py)
  {
    var x, y := OffsetX(records, k), OffsetY(records, k);
    forall px, py | 0 <= px < ScreenWidth(header, records) && 0 <= py < ScreenHeight(header, records) && !Painted(records, k + 1, px, py)
      ensures frames[k + 1].image.At(px, py) ==
        if InRect(x, y, records[k].image.width, records[k].image.height, px, py) then Transparent else frames[k].image.At(px, py)
    {
      FramePixel(header, records, frames, k + 1, px, py);
      ClearPixel(frames[k].image, x, y, records[k].image.width, records[k].image.height, px, py);
    }
  }

  /**
   * restoreToPrevious at frame k, seen in frame k + 1: there is a frame i < k
   * whose disposal is not restoreToPrevious, every frame strictly between is
   * restoreToPrevious, and wherever frame k + 1 paints nothing it shows
   * frame i's snapshot.
   */
  lemma RestoreToPreviousRestoresSnapshot(header: Option<ScreenSize>, records: seq<FrameRecord>, frames: seq<ImageFrame>, k: nat)
    requires AllValid(records) && Composites(header, records, frames) && k + 1 < |records|
    requires frames[k].disposal == RestoreToPrevious
    ensures exists i ::
      && 0 <= i < k
      && frames[i].disposal != RestoreToPrevious
      && (forall j :: i < j < k ==> frames[j].disposal == RestoreToPrevious)
      && forall px, py :: 0 <= px < ScreenWidth(header, records) && 0 <= py < ScreenHeight(header, records) && !Painted(records, k + 1, px, py) ==>
           frames[k + 1].image.At(px, py) == frames[i].image.At(px, py)
  {
    assert FrameComposited(header, records, frames, k);
    var i := NearestRestorable(frames, k).value;
    forall px, py | 0 <= px < ScreenWidth(header, records) && 0 <= py < ScreenHeight(header, records) && !Painted(records, k + 1, px, py)
      ensures frames[k + 1].image.At(px, py) == frames[i].image.At(px, py)
    {
      FramePixel(header, records, frames, k + 1, px, py);
    }
  }

  /** Any other disposal (none, doNotDispose, undefined) at frame k: wherever frame k + 1 paints nothing it shows frame k. */
  lemma OtherDisposalKeepsCanvas(header: Option<ScreenSize>, records: seq<FrameRecord>, frames: seq<ImageFrame>, k: nat)
    requires AllValid(records) && Composites(header, records, frames) && k + 1 < |records|
    requires frames[k].disposal != RestoreToPrevious && frames[k].disposal != RestoreToBackgroundColor
    ensures forall px, py :: 0 <= px < ScreenWidth(header, records) && 0 <= py < ScreenHeight(header, records) && !Painted(records, k + 1, px, py) ==>
      frames[k + 1].image.At(px, py) == frames[k].image.At(px, py)
  {
    forall px, py | 0 <= px < ScreenWidth(header, records) && 0 <= py < ScreenHeight(header, records) && !Painted(records, k + 1, px, py)
      ensures frames[k + 1].image.At(px, py) == frames[k].image.At(px, py)
    {
      FramePixel(header, records, frames, k + 1, px, py);
    }
  }

  /** Record k with its disposal method replaced by `disposal`. */
  function WithDisposal(records: seq<FrameRecord>, k: nat, disposal: Disposal): (r: seq<FrameRecord>)
    requires k < |records| && records[k].control.Some?
    ensures |r| == |records| && r[k].control == Some(records[k].control.value.(disposal := disposal))
    ensures forall i :: 0 <= i < |records| ==>
      r[i].image == records[i].image && r[i].left == records[i].left && r[i].top == records[i].top
    ensures forall i :: 0 <= i < |records| && i != k ==> r[i] == records[i]
  {
    records[k := records[k].(control := Some(records[k].control.value.(disposal := disposal)))]
  }

  /**
   * A frame's disposal is applied only after its snapshot: changing the
   * disposal method of frame k alone changes none of frames 0 .. k.
   */
  lemma DisposalShowsOnlyInLaterFrames(header: Option<ScreenSize>, records: seq<FrameRecord>, k: nat, disposal: Disposal)
    requires AllValid(records) && k < |records| && records[k].control.Some?
    requires Decode(header, records).Ok? && Decode(header, WithDisposal(records, k, disposal)).Ok?
    ensures forall i :: 0 <= i <= k ==>
      Decode(header, WithDisposal(records, k, disposal)).value[i].image == Decode(header, records).value[i].image
  {
    var other := WithDisposal(records, k, disposal);
    DecodeComposites(header, records);
    DecodeComposites(header, other);
    CompositesAgreeUpTo(header, records, other, k, Decode(header, records).value, Decode(header, other).value, k);
  }

  /** Whether record k is tagged restoreToPrevious. */
  predicate IsRestoreToPrevious(rec: FrameRecord) {
    rec.control.Some? && rec.control.value.disposal == RestoreToPrevious
  }

  /** The conditions under which the first n records composite without error. */
  predicate DecodableUpTo(header: Option<ScreenSize>, records: seq<FrameRecord>, n: nat)
    requires n <= |records|
  {
    && (n > 0 ==> ScreenWidth(header, records) > 0 && ScreenHeight(header, records) > 0)
    && (n > 0 ==> ScreenWidth(header, records) * ScreenHeight(header, records) < MaxRasterPixels)
    && (forall k :: 0 <= k < n ==> records[k].control.Some?)
    && (forall k :: 0 <= k < n && IsRestoreToPrevious(records[k]) ==>
          exists j :: 0 <= j < k && !IsRestoreToPrevious(records[j]))
  }

  /** The conditions DecodableUpTo places on record k. */
  predicate DecodableAt(header: Option<ScreenSize>, records: seq<FrameRecord>, k: nat)
    requires k < |records|
  {
    && ScreenWidth(header, records) > 0 && ScreenHeight(header, records) > 0
    && ScreenWidth(header, records) * ScreenHeight(header, records) < MaxRasterPixels
    && records[k].control.Some?
    && (IsRestoreToPrevious(records[k]) ==> exists j :: 0 <= j < k && !IsRestoreToPrevious(records[j]))
  }

  /** DecodableUpTo grows one record at a time. */
  lemma DecodableStep(header: Option<ScreenSize>, records: seq<FrameRecord>, n: nat)
    requires 0 < n <= |records|
    ensures DecodableUpTo(header, records, n) <==> DecodableUpTo(header, records, n - 1) && DecodableAt(header, records, n - 1)
  {
    if DecodableUpTo(header, records, n - 1) && DecodableAt(header, records, n - 1) {
      forall k | 0 <= k < n && IsRestoreToPrevious(records[k])
        ensures exists j :: 0 <= j < k && !IsRestoreToPrevious(records[j])
      {
        if k < n - 1 {
          assert records[k].control.Some?;
        }
      }
    }
  }

  /** Record n - 1 composites onto a successful prefix exactly when DecodableAt holds for it. */
  lemma StepSucceedsIff(header: Option<ScreenSize>, records: seq<FrameRecord>, n: nat)
    requires 0 < n <= |records| && AllValid(records)
    requires DecodePrefix(header, records, n - 1).Ok?
    ensures DecodePrefix(header, records, n).Ok? <==> DecodableAt(header, records, n - 1)
  {
    var k := n - 1;
    var s := DecodePrefix(header, records, k).value;
    NextPrefix(header, records, n, s);
    var rec := records[k];
    if IsRestoreToPrevious(rec) {
      var w := if s.width == -1 || s.height == -1 then rec.image.width else s.width;
      var h := if s.width == -1 || s.height == -1 then rec.image.height else s.height;
      if !(s.master.None? && (w <= 0 || h <= 0)) {
        var x := if s.master.None? then 0 else rec.left;
        var y := if s.master.None? then 0 else rec.top;
        var canvas := if s.master.None? then BlankImage(w, h) else s.master.value;
        var frames := s.frames + [ImageFrame(Draw(canvas, rec.image, x, y), rec.control.value.delay, rec.control.value.disposal)];
        if NearestRestorable(frames, k).None? {
          forall j | 0 <= j < k
            ensures IsRestoreToPrevious(records[j])
          {
            assert frames[j] == s.frames[j];
          }
        } else {
          var i := NearestRestorable(frames, k).value;
          assert frames[i] == s.frames[i];
          assert !IsRestoreToPrevious(records[i]);
        }
      }
    }
  }

  lemma {:induction false} PrefixSucceedsIff(header: Option<ScreenSize>, records: seq<FrameRecord>, n: nat)
    requires n <= |records| && AllValid(records)
    ensures DecodePrefix(header, records, n).Ok? <==> DecodableUpTo(header, records, n)
  {
    if n > 0 {
      PrefixSucceedsIff(header, records, n - 1);
      DecodableStep(header, records, n);
      if DecodePrefix(header, records, n - 1).Ok? {
        StepSucceedsIff(header, records, n);
      } else {
        ErrorPersists(header, records, n - 1, n);
      }
    }
  }

  /**
   * readGif succeeds exactly when the screen resolves to a non-empty size
   * with fewer than MaxRasterPixels pixels (when there is a frame at all),
   * every frame has a Graphic Control
   * Extension, and every restoreToPrevious frame has an earlier frame that is
   * not restoreToPrevious; restoreToPrevious on frame 0 always fails.
   */
  lemma DecodeSucceedsIff(header: Option<ScreenSize>, records: seq<FrameRecord>)
    requires AllValid(records)
    ensures Decode(header, records).Ok? <==> DecodableUpTo(header, records, |records|)
  {
    PrefixSucceedsIff(header, records, |records|);
  }

  /**
   * A logical screen the JDK cannot allocate (65535 x 65535 is a legal GIF
   * header) makes readGif fail at frame 0, as soon as that frame has a
   * control extension.
   */
  lemma {:induction false} ScreenTooLargeFails(width: nat, height: nat, records: seq<FrameRecord>)
    requires AllValid(records) && |records| > 0 && records[0].control.Some?
    requires width > 0 && height > 0 && width * height >= MaxRasterPixels
    ensures Decode(Some(ScreenSize(width, height)), records) == Err(CanvasTooLarge)
  {
    var header := Some(ScreenSize(width, height));
    NextPrefix(header, records, 1, Initial(header));
    ErrorPersists(header, records, 1, |records|);
  }
}
