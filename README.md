# Animated GIF compositor of the LED-matrix `Gif` class

This project models the core of `Gif.java` in the LED-matrix library. `Gif.java` turns an animated GIF into a list of complete, independent RGB frames for an LED matrix. It is written in Dafny and its properties are proved.

- **`isGif`** rejects any path that does not end in `.gif`.
- **`readGif`** is the frame compositor.
  - It resolves the logical screen size from the Logical Screen Descriptor, or from the first image when the stream has none.
  - It keeps one persistent canvas (`master`), which starts fully transparent.
  - For each frame it draws the sub-image on the canvas, frame 0 at (0, 0) and later frames at their Image Descriptor offsets. It appends a deep-copy snapshot to the frame history. Only then does it apply that frame's disposal method to the canvas:
    - `restoreToBackgroundColor` clears the frame's rectangle;
    - `restoreToPrevious` replaces the canvas with a copy of the snapshot of the nearest earlier frame whose disposal is not `restoreToPrevious`.
- **`objectize`** converts every snapshot into a `width x height x 4` grid of channels. Frame 0 supplies the size and the delay.

The model has six modules:

- `Wrappers` (wrappers.dfy): `Option` for Java's `null`, and `Result` and `Outcome` for an operation that returns a value or throws.
- `Raster` (raster.dfy): pixels, rasters as values, and `drawImage` / `clearRect` as functions on values.
- `Graphics` (canvas.dfy): class `Canvas`, the in-place canvas over an `array2<Pixel>`. Its `DrawImage` and `ClearRect` loops are proved to leave exactly the raster that the `Raster` functions describe.
- `GifDecoder` (decoder.dfy): the compositor.
  - `Step` is the state machine for one frame.
  - `DecodePrefix` / `Decode` run it over the reader's records.
  - `ReadGif` is the imperative loop over the in-place canvas. It is proved to compute `Decode`, with `CompositeFrame` (one pass of the loop, proved to compute `Step`), `Dispose` and the backward search `FindRestorePoint`.
- `GifDecoderProperties` (decoder_properties.dfy): what the output of `readGif` satisfies.
  - `Composites` is a closed form of the compositor. Frame k is record k's sub-image drawn over what frame k - 1's disposal left.
  - The decoded output satisfies it and is its only solution.
  - Further lemmas cover pixel-level consequences for every disposal method, append-only history, locality of disposal, and an exact characterisation of when decoding succeeds.
- `GifFile` (gif.dfy): `isGif`, `objectize` and the class `Gif` with its public fields.

Inputs and outputs:

- The ImageIO reader is replaced by what it yields: an optional header size and a sequence of `FrameRecord`s. Each record holds the decoded sub-image, the Image Descriptor's left/top, and the Graphic Control Extension's delay and disposal method if the frame has one.
- Every exception the Java code can raise on these inputs becomes a `GifError`:
  - a missing Graphic Control Extension (a null dereference);
  - an empty logical screen (`new BufferedImage` with a zero size);
  - a logical screen of `Integer.MAX_VALUE` pixels or more, which the JDK cannot allocate as one int-packed raster (a 16-bit GIF header allows up to 65535 x 65535);
  - `restoreToPrevious` with no frame to restore (a null dereference);
  - an empty frame list in `objectize`;
  - a bad file suffix.

Where `Gif.java` departs from an idealised GIF89a decoder, the model follows `Gif.java`:

- When `restoreToPrevious` has no earlier frame whose disposal is not `restoreToPrevious` (always the case on frame 0), the code dereferences `null`. The model fails with `NoRestorePoint`; it does not fall back to a blank canvas. The `|| frameIndex == 0` test inside the backward loop can never be true there, since the loop only runs when `frameIndex >= 1`. `FindRestorePoint` keeps it.
- Frame 0 is drawn at (0, 0) whatever its offsets say.
- A sub-image that overflows the canvas is clipped. It is not an error.
- Drawing is source-over: a transparent GIF pixel keeps the canvas pixel, and any other pixel replaces it. It is not an opaque overwrite.
- Channel 3 of every output cell is allocated but never assigned, so it is `None` (Java `null`). It is not the pixel's alpha.
- The file check looks at the name suffix only. It does not read signature bytes.

## Model

| member | source | states |
|---|---|---|
| Raster.BlankImage | src/main/java/frc/tigerlib/ledmatrix/Gif.java:150 | defines the raster of a new TYPE_INT_ARGB surface: the requested size, every pixel (0, 0, 0, 0) |
| Raster.Over | src/main/java/frc/tigerlib/ledmatrix/Gif.java:164 | defines drawImage's source-over on one GIF pixel: alpha 0 keeps the canvas pixel, any other replaces it |
| Raster.Draw | src/main/java/frc/tigerlib/ledmatrix/Gif.java:164 | defines drawImage(src, x, y): Over inside src's rectangle placed at (x, y) and clipped to the canvas, the canvas pixel elsewhere; the canvas size never changes |
| Raster.Clear | src/main/java/frc/tigerlib/ledmatrix/Gif.java:193 | defines clearRect(x, y, w, h) with the transparent background: (0, 0, 0, 0) inside the clipped rectangle, the canvas pixel elsewhere; the canvas size never changes |
| Raster.BlankPixel | src/main/java/frc/tigerlib/ledmatrix/Gif.java:150 | every pixel of a new TYPE_INT_ARGB surface is (0, 0, 0, 0) |
| Raster.DrawPixel | src/main/java/frc/tigerlib/ledmatrix/Gif.java:164 | after drawImage at (x, y), a pixel inside the placed, clipped rectangle is the source pixel if it is not transparent and the old canvas pixel if it is; every pixel outside is unchanged |
| Raster.ClearPixel | src/main/java/frc/tigerlib/ledmatrix/Gif.java:193 | after clearRect, a pixel inside the clipped rectangle is (0, 0, 0, 0); every pixel outside is unchanged |
| Raster.DrawOpaqueCover | src/main/java/frc/tigerlib/ledmatrix/Gif.java:164 | drawing a fully opaque image that covers the canvas at (0, 0) yields exactly that image |
| Graphics.Canvas.constructor | src/main/java/frc/tigerlib/ledmatrix/Gif.java:150-152 | a new canvas is a fresh array holding the fully transparent raster of the requested size; the size must be positive with fewer than Integer.MAX_VALUE pixels, as BufferedImage demands |
| Graphics.Canvas.Contents | src/main/java/frc/tigerlib/ledmatrix/Gif.java:166-171 | the deep copy of the canvas as a value: a valid raster of the array's size whose pixel (x, y) is the array's pixel (x, y); later writes to the array do not reach a value already taken |
| Graphics.Canvas.Copy | src/main/java/frc/tigerlib/ledmatrix/Gif.java:184-189 | the restored canvas is a fresh array whose contents equal the snapshot it copies |
| Graphics.Canvas.DrawImage | src/main/java/frc/tigerlib/ledmatrix/Gif.java:164 | the in-place drawing loop leaves the canvas equal to Draw of its old contents |
| Graphics.Canvas.ClearRect | src/main/java/frc/tigerlib/ledmatrix/Gif.java:192-193 | the in-place clearing loop leaves the canvas equal to Clear of its old contents |
| Graphics.Canvas.DrawColumn | src/main/java/frc/tigerlib/ledmatrix/Gif.java:164 | one column of the drawing loop: pixels of column px under src become Over of old and source pixel, every other pixel is unchanged |
| Graphics.Canvas.ClearColumn | src/main/java/frc/tigerlib/ledmatrix/Gif.java:193 | one column of the clearing loop: rows y .. y + h - 1 of column px become (0, 0, 0, 0), every other pixel is unchanged |
| GifDecoder.Initial | src/main/java/frc/tigerlib/ledmatrix/Gif.java:100-121 | defines the state before the first frame: the header's logical screen size, or -1 x -1 without one; no canvas (`master` is null); an empty frame history |
| GifDecoder.ScreenWidth | src/main/java/frc/tigerlib/ledmatrix/Gif.java:100-135 | defines the logical screen width: logicalScreenWidth from the header when the stream metadata has one, else the width of frame 0's image |
| GifDecoder.ScreenHeight | src/main/java/frc/tigerlib/ledmatrix/Gif.java:100-135 | defines the logical screen height: logicalScreenHeight from the header when the stream metadata has one, else the height of frame 0's image |
| GifDecoder.OffsetX | src/main/java/frc/tigerlib/ledmatrix/Gif.java:146-162 | defines the column a frame is drawn at: 0 for frame 0, imageLeftPosition for every later frame |
| GifDecoder.OffsetY | src/main/java/frc/tigerlib/ledmatrix/Gif.java:146-162 | defines the row a frame is drawn at: 0 for frame 0, imageTopPosition for every later frame |
| GifDecoder.NearestRestorable | src/main/java/frc/tigerlib/ledmatrix/Gif.java:176-182 | the backward search yields the largest i < k whose disposal is not restoreToPrevious, with every frame between i and k restoreToPrevious; it yields nothing exactly when every frame below k is restoreToPrevious |
| GifDecoder.FindRestorePoint | src/main/java/frc/tigerlib/ledmatrix/Gif.java:175-182 | the backward loop from frame k - 1 finds a snapshot exactly when NearestRestorable does, and returns that frame's snapshot |
| GifDecoder.Dispose | src/main/java/frc/tigerlib/ledmatrix/Gif.java:174-194 | the disposal step: restoreToPrevious yields a fresh canvas holding the restored snapshot, or fails when there is none; restoreToBackgroundColor clears the frame's rectangle in place; any other method keeps the canvas as it is |
| GifDecoder.Step | src/main/java/frc/tigerlib/ledmatrix/Gif.java:132-194 | defines one pass of the frame loop: resolve the size from the first image while it is -1; fail without a control extension; create a blank canvas of the screen size on the first frame (failing on an empty or too large screen) and draw it at (0, 0), later frames at their offsets; append the snapshot; then AfterDisposal |
| GifDecoder.AfterDisposal | src/main/java/frc/tigerlib/ledmatrix/Gif.java:174-194 | defines the canvas after frame k's disposal: restoreToPrevious takes the snapshot NearestRestorable finds or fails with NoRestorePoint, restoreToBackgroundColor clears the frame's rectangle, any other method keeps the drawn canvas |
| GifDecoder.StepKeepsConsistent | src/main/java/frc/tigerlib/ledmatrix/Gif.java:132-194 | one pass of the loop keeps the compositor's state invariant: the resolved screen size, a positive-size master of that size, and one snapshot per record carrying that record's delay and disposal |
| GifDecoder.DecodePrefix | src/main/java/frc/tigerlib/ledmatrix/Gif.java:124-195 | every state reached after n records satisfies that invariant |
| GifDecoder.Decode | src/main/java/frc/tigerlib/ledmatrix/Gif.java:124-198 | a successful decode yields exactly one frame per record the reader yields, each a valid raster of the logical screen size |
| GifDecoder.ErrorPersists | src/main/java/frc/tigerlib/ledmatrix/Gif.java:124-195 | once a frame fails, the whole decode fails with that frame's error |
| GifDecoder.CompositeFrame | src/main/java/frc/tigerlib/ledmatrix/Gif.java:132-194 | one pass of the loop body on the in-place canvas computes exactly Step: the same error, or the same size, snapshots and canvas contents; the canvas is the old one or freshly allocated |
| GifDecoder.NextFrame | src/main/java/frc/tigerlib/ledmatrix/Gif.java:124-194 | from the state after k records, CompositeFrame reaches the state after k + 1 records, or the error that stops decoding |
| GifDecoder.ReadGif | src/main/java/frc/tigerlib/ledmatrix/Gif.java:94-199 | the imperative readGif returns exactly Decode: the same frames or the same error |
| GifDecoderProperties.Disposed | src/main/java/frc/tigerlib/ledmatrix/Gif.java:174-194 | defines, from the output frames alone, the canvas frame i's disposal leaves: the restored snapshot, frame i with its rectangle cleared, or frame i |
| GifDecoderProperties.CanvasBefore | src/main/java/frc/tigerlib/ledmatrix/Gif.java:146-164 | defines the canvas frame k is drawn on: a blank logical screen for frame 0, else Disposed(k - 1) |
| GifDecoderProperties.Composites | src/main/java/frc/tigerlib/ledmatrix/Gif.java:146-194 | defines the compositor in closed form: one frame per record, each of the screen size, each with its record's delay and disposal, each restoreToPrevious with a restore point, and frame k equal to record k drawn over CanvasBefore(k) |
| GifDecoderProperties.HistoryAppendOnly | src/main/java/frc/tigerlib/ledmatrix/Gif.java:166-172 | snapshots, once taken, never change: the first j frames after n records are the frames after j records |
| GifDecoderProperties.MasterIsDisposed | src/main/java/frc/tigerlib/ledmatrix/Gif.java:174-194 | after n records the canvas is what frame n - 1's disposal left, and a restoreToPrevious frame had a restore point |
| GifDecoderProperties.LastFrameComposited | src/main/java/frc/tigerlib/ledmatrix/Gif.java:146-172 | after n records the newest snapshot carries its record's delay and disposal and is record n - 1's sub-image drawn over the canvas that frame n - 2's disposal left (a blank screen for frame 0), at (0, 0) for frame 0 and at its offsets afterwards |
| GifDecoderProperties.DecodeComposites | src/main/java/frc/tigerlib/ledmatrix/Gif.java:146-194 | a successful decode satisfies Composites: one frame per record, each of the screen size, with its record's delay and disposal, each restoreToPrevious having a restore point, each frame drawn over the disposed predecessor |
| GifDecoderProperties.CompositesUnique | src/main/java/frc/tigerlib/ledmatrix/Gif.java:124-195 | Composites has at most one solution, so it fully determines readGif's output |
| GifDecoderProperties.FirstFrameOnBlankScreen | src/main/java/frc/tigerlib/ledmatrix/Gif.java:146-164 | frame 0 is the first sub-image drawn at (0, 0) on a transparent canvas of the logical screen size |
| GifDecoderProperties.FramePixel | src/main/java/frc/tigerlib/ledmatrix/Gif.java:164-172 | a pixel of frame k is the sub-image's pixel where frame k paints it, and the pixel of the canvas before frame k elsewhere |
| GifDecoderProperties.PaintedPixelsShowSubImage | src/main/java/frc/tigerlib/ledmatrix/Gif.java:164 | every pixel a frame's sub-image paints shows that sub-image's pixel, whatever the canvas held |
| GifDecoderProperties.RestoreToBackgroundClearsRectangle | src/main/java/frc/tigerlib/ledmatrix/Gif.java:192-194 | after restoreToBackgroundColor at frame k, frame k + 1 shows (0, 0, 0, 0) inside frame k's rectangle and frame k's pixel outside it, wherever frame k + 1 paints nothing |
| GifDecoderProperties.RestoreToPreviousRestoresSnapshot | src/main/java/frc/tigerlib/ledmatrix/Gif.java:174-191 | after restoreToPrevious at frame k there is a nearest earlier frame i that is not restoreToPrevious, and frame k + 1 shows frame i's snapshot wherever it paints nothing |
| GifDecoderProperties.OtherDisposalKeepsCanvas | src/main/java/frc/tigerlib/ledmatrix/Gif.java:174-194 | after any other disposal at frame k, frame k + 1 shows frame k wherever it paints nothing |
| GifDecoderProperties.DisposalShowsOnlyInLaterFrames | src/main/java/frc/tigerlib/ledmatrix/Gif.java:166-194 | frame k's disposal acts after its snapshot: changing it changes none of frames 0 .. k |
| GifDecoderProperties.StepSucceedsIff | src/main/java/frc/tigerlib/ledmatrix/Gif.java:132-194 | one more record composites without error exactly when the screen is non-empty with fewer than Integer.MAX_VALUE pixels, the record has a control extension, and a restoreToPrevious record has an earlier record that is not restoreToPrevious |
| GifDecoderProperties.PrefixSucceedsIff | src/main/java/frc/tigerlib/ledmatrix/Gif.java:124-195 | the first n records composite without error exactly when DecodableUpTo holds for them |
| GifDecoderProperties.DecodeSucceedsIff | src/main/java/frc/tigerlib/ledmatrix/Gif.java:124-198 | readGif succeeds exactly when the screen is non-empty with fewer than Integer.MAX_VALUE pixels, every frame has a control extension, and every restoreToPrevious frame has an earlier frame that is not restoreToPrevious; so restoreToPrevious on frame 0 always fails |
| GifDecoderProperties.ScreenTooLargeFails | src/main/java/frc/tigerlib/ledmatrix/Gif.java:150 | a header size of Integer.MAX_VALUE pixels or more makes readGif fail with CanvasTooLarge once frame 0 has a control extension |
| GifFile.IsGif | src/main/java/frc/tigerlib/ledmatrix/Gif.java:37-41 | a path without the ".gif" suffix fails with NotGifFile |
| GifFile.IsGifSuffix | src/main/java/frc/tigerlib/ledmatrix/Gif.java:37-41 | a path passes exactly when it is some stem followed by ".gif" |
| GifFile.CellOf | src/main/java/frc/tigerlib/ledmatrix/Gif.java:80-84 | defines one output cell: R, G, B of the pixel in channels 0..2, channel 3 never assigned (None) |
| GifFile.Normalize | src/main/java/frc/tigerlib/ledmatrix/Gif.java:65-86 | defines one output grid: width rows of height cells, cell [row][column] = CellOf(pixel (row, column)) |
| GifFile.Objectized | src/main/java/frc/tigerlib/ledmatrix/Gif.java:51-89 | defines objectize's result: NoFrames when readGif yields no frame, else one grid per frame in order with frame 0's width, height and delay |
| GifFile.LoadFrames | src/main/java/frc/tigerlib/ledmatrix/Gif.java:50-54 | defines objectize on the reader's output: readGif's error, or Objectized of its frames |
| GifFile.Load | src/main/java/frc/tigerlib/ledmatrix/Gif.java:31-35 | defines the constructor's result: NotGifFile on a wrong suffix before any decoding, else LoadFrames |
| GifFile.ToFrameGrid | src/main/java/frc/tigerlib/ledmatrix/Gif.java:65-86 | the nested row/column loops build the width x height grid whose cell [row][column] holds the R, G, B of pixel (row, column) in channels 0..2 and leaves channel 3 unset |
| GifFile.Gif.Init | src/main/java/frc/tigerlib/ledmatrix/Gif.java:25-32 | a new Gif holds its file, and every other field is at its Java default |
| GifFile.Gif.Objectize | src/main/java/frc/tigerlib/ledmatrix/Gif.java:50-90 | objectize succeeds exactly when readGif succeeds with at least one frame, then sets frames, frameDelay, width and height as Objectized says; on failure no field changes |
| GifFile.Gif.Open | src/main/java/frc/tigerlib/ledmatrix/Gif.java:31-35 | the constructor runs the suffix check before decoding, and yields a fresh Gif with the loaded contents or the first error |
| GifFile.LoadContents | src/main/java/frc/tigerlib/ledmatrix/Gif.java:53-88 | a loaded Gif has one grid per record, each of the logical screen size, with frameDelay from frame 0 and cell [row][column] of grid i holding the R, G, B of pixel (row, column) of composited frame i |
| GifFile.LoadSucceedsIff | src/main/java/frc/tigerlib/ledmatrix/Gif.java:31-54 | loading succeeds exactly when the suffix is ".gif", the reader yields a frame and decoding succeeds; a wrong suffix fails with NotGifFile whatever the file holds |

## Left out

- The ImageIO reader, the `FileInputStream`, and the walk over the metadata DOM tree. These are foreign library calls, so the model takes their output as input: the header size and one record per frame. The loop's end on `IndexOutOfBoundsException` is the end of that sequence. `reader.dispose()` releases resources only and is not modelled.
- `Integer.parseInt` / `Integer.valueOf` of the metadata attributes. The values arrive as natural numbers.
- `disposalMethod` is a string in the metadata. The model uses an enumeration of the names the GIF image metadata format allows. Only `restoreToPrevious` and `restoreToBackgroundColor` are compared against, so any other value behaves alike.
- Colour models, premultiplied alpha and `java.awt.Color` packing. Pixels are (R, G, B, A) tuples of 0..255.
- Raster.Over: real source-over blending of a partially transparent pixel is not modelled. GIF pixels are fully transparent or fully opaque, and any non-zero alpha is treated as opaque.
- Every exception collapses into one `GifError` value. The Java exception types and messages are not modelled.
- The file is modelled by its absolute path as a string.
- GifFile.Gif.Init: before `objectize` the Java `frames` field is `null`; the model starts it as the empty sequence.
- `objectize` in Java writes into freshly allocated `Integer[][][]` arrays that are never changed after they are added. The model builds each grid as a nested sequence value.
- Offsets and sub-image sizes come from 16-bit GIF fields, so the clipping arithmetic of drawImage and clearRect (`x + w`, `y + h`) cannot overflow Java `int`. The only size limit the code can hit is the pixel count of the canvas, which the JDK refuses at Integer.MAX_VALUE pixels or more; that is modelled as CanvasTooLarge.
- GifDecoderProperties.StepSucceedsIff: a canvas below Integer.MAX_VALUE pixels can still exceed the Java heap and throw OutOfMemoryError; heap size is a property of the running JVM, not of the input, so it is not modelled.
- GifDecoderProperties.PrefixSucceedsIff: running out of Java heap while allocating the canvas is not modelled, for the same reason.
- GifDecoderProperties.DecodeSucceedsIff: running out of Java heap while allocating the canvas or a snapshot is not modelled, for the same reason.
- GifFile.LoadSucceedsIff: running out of Java heap during loading is not modelled, for the same reason.
