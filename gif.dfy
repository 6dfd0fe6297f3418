/**
 * The Gif class: a file name check (isGif), then objectize, which runs the
 * compositor and converts every composited frame into a width x height x 4
 * grid of channels, taking the size and the delay from frame 0.
 */
module GifFile {
  import opened Wrappers
  import opened Raster
  import opened GifDecoder
  import GifDecoderProperties

  /**
   * One cell of an Integer[width][height][4] frame: channels 0, 1 and 2 hold
   * red, green and blue; channel 3 is allocated but never assigned, so it
   * stays null (None).
   */
  type Cell = seq<Option<int>>

  /** An Integer[width][height][4] frame: grid[row][column] is pixel (row, column), i.e. getRGB(row, column). */
  type FrameGrid = seq<seq<Cell>>

  /** The public fields of a loaded Gif apart from the file: frames, frameDelay, width, height. */
  datatype GifContents = GifContents(frames: seq<FrameGrid>, frameDelay: int, width: int, height: int)

  /** isGif: the absolute path must end in ".gif", otherwise loading throws before any decoding. */
  function IsGif(path: string): (r: Outcome<GifError>)
    ensures r.Fail? ==> r.error == NotGifFile
  {
    if |path| >= 4 && path[|path| - 4..] == ".gif" then Pass else Fail(NotGifFile)
  }

  /** A path passes isGif exactly when it is some stem followed by ".gif". */
  lemma IsGifSuffix(path: string)
    ensures IsGif(path).Pass? <==> exists stem :: path == stem + ".gif"
  {
    if IsGif(path).Pass? {
      var stem := path[..|path| - 4];
      assert path == stem + ".gif";
    }
    if exists stem :: path == stem + ".gif" {
      var stem :| path == stem + ".gif";
      assert path[|path| - 4..] == ".gif";
    }
  }

  /** The cell objectize fills from one pixel: R, G and B as new Color(getRGB(...)) unpacks them; alpha left null. */
  function CellOf(p: Pixel): Cell {
    [Some(p.r), Some(p.g), Some(p.b), None]
  }

  /** One composited frame as objectize lays it out. */
  function Normalize(img: Image): (grid: FrameGrid)
    requires img.Valid()
    ensures |grid| == img.width
    ensures forall row :: 0 <= row < img.width ==> |grid[row]| == img.height
  {
    seq(img.width, row requires 0 <= row < img.width =>
      seq(img.height, column requires 0 <= column < img.height => CellOf(img.At(row, column))))
  }

  /** Every frame is a valid raster of frame 0's size. */
  predicate Uniform(imageFrames: seq<ImageFrame>) {
    forall i :: 0 <= i < |imageFrames| ==>
      && imageFrames[i].image.Valid()
      && imageFrames[i].image.width == imageFrames[0].image.width
      && imageFrames[i].image.height == imageFrames[0].image.height
  }

  /** objectize after readGif: frame 0 gives size and delay (no frame 0 fails), then one grid per frame in order. */
  function Objectized(imageFrames: seq<ImageFrame>): Result<GifContents, GifError>
    requires Uniform(imageFrames)
  {
    if |imageFrames| == 0 then Err(NoFrames)
    else
      Ok(GifContents(
        seq(|imageFrames|, i requires 0 <= i < |imageFrames| => Normalize(imageFrames[i].image)),
        imageFrames[0].delay, imageFrames[0].image.width, imageFrames[0].image.height))
  }

  /** objectize on the decoder's input: readGif, then the conversion. */
  function LoadFrames(header: Option<ScreenSize>, records: seq<FrameRecord>): Result<GifContents, GifError>
    requires AllValid(records)
  {
    match Decode(header, records)
    case Err(e) => Err(e)
    case Ok(imageFrames) => Objectized(imageFrames)
  }

  /** new Gif(file): the suffix check first, then objectize. */
  function Load(path: string, header: Option<ScreenSize>, records: seq<FrameRecord>): Result<GifContents, GifError>
    requires AllValid(records)
  {
    if IsGif(path).Fail? then Err(NotGifFile) else LoadFrames(header, records)
  }

  /**
   * The nested row / column loops of objectize for one frame: cell
   * [row][column] gets the red, green and blue of pixel (row, column).
   */
  method ToFrameGrid(image: Image, width: nat, height: nat) returns (frame: FrameGrid)
    requires image.Valid() && image.width == width && image.height == height
    ensures frame == Normalize(image)
    ensures forall row, column :: 0 <= row < width && 0 <= column < height ==>
      && |frame[row][column]| == 4
      && frame[row][column][0] == Some(image.At(row, column).r)
      && frame[row][column][1] == Some(image.At(row, column).g)
      && frame[row][column][2] == Some(image.At(row, column).b)
      && frame[row][column][3] == None
  {
    frame := [];
    var row := 0;
    while row < width
      invariant 0 <= row <= width
      invariant frame == Normalize(image)[..row]
    {
      var cells: seq<Cell> := [];
      var column := 0;
      while column < height
        invariant 0 <= column <= height
        invariant cells == Normalize(image)[row][..column]
      {
        var c := image.At(row, column);
        cells := cells + [[Some(c.r), Some(c.g), Some(c.b), None]];
        column := column + 1;
      }
      assert cells == Normalize(image)[row];
      assert Normalize(image)[..row + 1] == Normalize(image)[..row] + [Normalize(image)[row]];
      frame := frame + [cells];
      row := row + 1;
    }
  }

  class Gif {
    var file: string
    var frames: seq<FrameGrid>
    var frameDelay: int
    var width: int
    var height: int

    function State(): GifContents
      reads this
    {
      GifContents(frames, frameDelay, width, height)
    }

    /** The object as the constructor starts it: the file set, every other field at its Java default. */
    constructor Init(file: string)
      ensures this.file == file && State() == GifContents([], 0, 0, 0)
    {
      this.file := file;
      frames, frameDelay, width, height := [], 0, 0, 0;
    }

    /** new Gif(file): isGif, then objectize; either step may throw. */
    static method Open(file: string, header: Option<ScreenSize>, records: seq<FrameRecord>) returns (r: Result<Gif, GifError>)
      requires AllValid(records)
      ensures r.Ok? <==> Load(file, header, records).Ok?
      ensures r.Err? ==> r.error == Load(file, header, records).error
      ensures r.Ok? ==> fresh(r.value) && r.value.file == file && r.value.State() == Load(file, header, records).value
    {
      var gif := new Gif.Init(file);
      var check := IsGif(file);
      if check.Fail? {
        return Err(check.error);
      }
      var outcome := gif.Objectize(header, records);
      if outcome.Fail? {
        return Err(outcome.error);
      }
      return Ok(gif);
    }

    /**
     * objectize: decode, then fill `frames` with one grid per decoded frame,
     * sized and timed by frame 0. A failure leaves every field as it was.
     */
    method Objectize(header: Option<ScreenSize>, records: seq<FrameRecord>) returns (outcome: Outcome<GifError>)
      requires AllValid(records)
      modifies this
      ensures file == old(file)
      ensures outcome.Pass? <==> LoadFrames(header, records).Ok?
      ensures outcome.Pass? ==> State() == LoadFrames(header, records).value
      ensures outcome.Fail? ==> outcome.error == LoadFrames(header, records).error && State() == old(State())
    {
      var imageFrames := GifDecoder.ReadGif(header, records);
      if imageFrames.Err? {
        return Fail(imageFrames.error);
      }
      var fs := imageFrames.value;
      if |fs| == 0 {
        return Fail(NoFrames);
      }
      assert Uniform(fs);
      var iFrame := fs[0];
      width := iFrame.image.width;
      height := iFrame.image.height;
      frames := [];
      frameDelay := iFrame.delay;
      var i := 0;
      while i < |fs|
        invariant 0 <= i <= |fs|
        invariant file == old(file)
        invariant width == iFrame.image.width && height == iFrame.image.height && frameDelay == iFrame.delay
        invariant frames == Objectized(fs).value.frames[..i]
      {
        var frame := ToFrameGrid(fs[i].image, width, height);
        frames := frames + [frame];
        i := i + 1;
      }
      return Pass;
    }
  }

  /**
   * A loaded Gif: one grid per record in order, each of the logical screen
   * size, frameDelay from frame 0, and cell [row][column] of grid i holding
   * the R, G, B of pixel (row, column) of composited frame i with channel 3
   * never set.
   */
  lemma LoadContents(path: string, header: Option<ScreenSize>, records: seq<FrameRecord>)
    requires AllValid(records) && Load(path, header, records).Ok?
    ensures IsGif(path).Pass? && Decode(header, records).Ok? && |records| > 0
    ensures var c := Load(path, header, records).value;
      && |c.frames| == |records|
      && c.width == ScreenWidth(header, records) && c.height == ScreenHeight(header, records)
      && c.frameDelay == records[0].control.value.delay
      && forall i :: 0 <= i < |records| ==> |c.frames[i]| == c.width && forall row :: 0 <= row < c.width ==> |c.frames[i][row]| == c.height
    ensures var c := Load(path, header, records).value;
      var decoded := Decode(header, records).value;
      forall i, row, column :: 0 <= i < |records| && 0 <= row < c.width && 0 <= column < c.height ==>
        c.frames[i][row][column] == CellOf(decoded[i].image.At(row, column))
  {
    GifDecoderProperties.DecodedFrame(header, records, 0);
  }

  /**
   * Loading succeeds exactly when the path ends in ".gif", the reader yields
   * at least one frame and the compositor succeeds; a wrong suffix fails with
   * NotGifFile whatever the file holds.
   */
  lemma LoadSucceedsIff(path: string, header: Option<ScreenSize>, records: seq<FrameRecord>)
    requires AllValid(records)
    ensures Load(path, header, records).Ok? <==>
      IsGif(path).Pass? && |records| > 0 && GifDecoderProperties.DecodableUpTo(header, records, |records|)
    ensures IsGif(path).Fail? ==> Load(path, header, records) == Err(NotGifFile)
  {
    GifDecoderProperties.DecodeSucceedsIff(header, records);
  }
}
