# Verified model of the GBM image codecs and colour reduction

GBM (`src/gbm123`) is a bitmap library: readers and writers for image files, and colour reduction from
24 bits to a palette. This project models its algorithmic parts in Dafny and proves what they are for.

* **GIF** (`Bits`, `GifBlocks`, `LzwStream`, `OpenAddressing`, `GifEncoder`, `LzwUnique`, `GifImage`,
  `GifOutput`, `GifDecoder`, `GifCodec`, `GifFraming`). `LzwStream` is the reference: what a sequence of LZW codes of
  varying width means (GIF89a, section 22 and Appendix F). The encoder, with its dictionary indexed by a hash of
  the spelled string, and the decoder, whose table lags one entry behind, are proved against it, as are
  the bits in data sub-blocks (section 15) and the interlaced order of rows (Appendix E). The theorem is
  `GifCodec.RoundTrip`, and by `GifCodec.OneFile` what is proved of the file leaves no choice of a single byte.
  `GifCodec.ReadData` holds for any stream that starts with a clear code, with any minimum code size and depth of
  the palette, and `GifCodec.RightExactly` says when the reader is right.
  `GifFraming` states the framing on its own, for codes of arbitrary widths.
* **Median cut** (`ColourBoxes`, `MedianCut`, `MedianCutPalette`, `MedianCutImage`). The invariant is a
  partition of the used colours into disjoint tight boxes with exact counts, and the course of the splitting is
  determined (`MedianCut.OneCourse`). The theorem is `MedianCutImage.Quantise`.
* **Nearest palette entry** (`Palettes`, `NearestColour`). The map sampled at block corners agrees with
  brute force everywhere, because where one entry is nearer than another is a half-space:
  `NearestColour.NearestViaMap`.
* **GEM raster data** (`ReadAhead`, `Runs`, `GemCodes`, `GemEncoder`, `GemImage`). `Code` is the meaning of
  the format; `GemImage.RoundTrip` and the size bounds are the results.
* **PCX** (`PcxRuns`, `PcxShortest`, `PcxEncoder`). Reading is resumable at any byte; the greedy encoder is
  proved to be optimal.
* **Histogram** (`Pictures`, `Counting`, `Histogram`, `HistogramPalette`, `HistogramImage`). The hash table
  refines a multiset of colours; the loop that coarsens the masks ends. The theorem is
  `HistogramImage.GbmHist`.
* **Palette reordering** (`PaletteReorder`, `PaletteFrames`, `PaletteRun`). The slots stay a permutation from
  frame to frame, every frame keeps its colours, the worst matches use the extra slots
  (`PaletteFrames.ExtrasRotate`), and a still picture does not flicker:
  `PaletteFrames.RoMap`, and `PaletteRun.RoFreqMap` and `PaletteRun.RoMcutMap` from the 24-bit frames on.
* **HAM6** (`Ham6`). The encoder simulates the decoder, and after the first pixel of a line no code would do
  better; its codes are determined by the pixels. Three equal pixels end exact; as the first three of a line, whose
  first pixel is only approximated by a grey, they do so exactly under the condition of `Ham6.ThreeAtStart`
  (`Ham6.BadStart` fails it).

Records the C code updates in place are classes with the same fields (`WRITE_CONTEXT`, `READ_CONTEXT`,
`OUTPUT_CONTEXT`, the state of the GIF encoder and decoder, `GBMMCUT`, `GBMHIST`, `AHEAD`), buffers are arrays
(only the contents of the read-ahead buffer, which every refill replaces as a whole, are a sequence), and loops
are loops. What such a method must achieve is stated with functions on values.
Ghost parameters name the well-formed stream a reader is given.

Where the code and what is said about it differ, the code is followed:

* GIF89a, Appendix F, allows a clear code at any time. The reader takes the code after a clear code for a
  pixel; it reports a clear or end code there as corrupt (`src/gbm123/gbmgif.c:548-557`), or draws it if it is
  below 2 to the depth of the palette. `GifCodec.TwoClears` gives the shortest example.
* Appendix F takes the minimum code size from the pixel values in use, so it may be below the depth of the
  palette. The reader accepts such files, but tells pixels from table codes by the depth (lines 527, 551 and
  570), and draws table codes below 2 to the depth as they are: with a palette of 8 bits and a minimum code size
  of 2 the codes 4, 0, 6, 6 spell five pixels 0 and are drawn 0, 0, 0, 6 (`GifCodec.SmallCodeSize`, for all such
  depths and sizes).
* A code is misread exactly in these cases: it is a clear or end code right after a clear code, or its way
  through the prefixes first gets below 2 to the depth at a table code (`GifDecoder.Misread`). The reader is right
  if and only if this does not happen before the image is complete (`GifCodec.ReadData`,
  `GifCodec.RightExactly`); it never happens in the streams the writer produces (`GifCodec.FrugalIsSound`).
* The worst case drawn for `encode3` at `src/gbm123/gbmgem.c:668-675`, five bytes for three, cannot repeat: a literal
  takes two triples if it can, so the bound is 4n/3 + 1 and not 5n/3.
* The branch of the median cut that gives up a direction (`src/gbm123/gbmmcut.c:302`) is never taken.

## Model

| member | source | states |
|---|---|---|
| `GifCodec.RoundTrip` | src/gbm123/gbmgif.c:458-985 | For every image of depth 1, 4 or 8, interlaced or not, and any bytes before it in the file, writing the image data and reading them back succeeds and reproduces every pixel |
| `GifCodec.WriteData` | src/gbm123/gbmgif.c:819-986 | The code stream written is well formed, spells exactly the pixels of the image in the order of its rows, enters no string twice, has a clear code after the first exactly when the dictionary is full, and is framed as the minimum code size and sub-blocks, ended by the only empty one, that carry its bits, the end code and clear padding |
| `GifCodec.OneFile` | src/gbm123/gbmgif.c:819-986 | What WriteData promises determines every byte of the file from the pixels |
| `LzwUnique.OneStream` | src/gbm123/gbmgif.c:880-985 | Two streams that spell the same pixels, repeat no entry, have clear codes exactly when the dictionary is full and do not end with a full one are the same codes |
| `GifCodec.ThreePixelFile` | src/gbm123/gbmgif.c:819-986 | Three pixels 0 of 8 bits are written as the codes 256, 0, 258 and the bytes 08 05 00 01 08 0c 08 00 |
| `GifCodec.CodeNumbers` | src/gbm123/gbmgif.c:851-867 | With minimum code size m the first codes have m + 1 bits, the clear code is 2^m, the end code 2^m + 1 and the first code of the dictionary 2^m + 2 |
| `GifCodec.MinCodeSize` | src/gbm123/gbmgif.c:840-848 | The least code size from 2 on that has room for the colours |
| `LzwStream.LongestMatch` | src/gbm123/gbmgif.c:904-936 | In a stream that enters no string twice, as those of the writer, every code is the longest match: no code defined by then stands for more of the pixels to come, unless a clear code follows |
| `LzwStream.ClearWhenFull` | src/gbm123/gbmgif.c:944-955 | In the streams of the writer a clear code after the first comes exactly when 4096 - First codes have come since the one before, the last of them a pixel |
| `GifCodec.ReadData` | src/gbm123/gbmgif.c:458-622 | For any minimum code size, any depth of the palette and any stream of codes in which every code is defined when it comes, clear codes anywhere, ended by the end code or by the data: if no code is misread before the image is complete, the image shows what the stream spells as far as both go, and too little data is reported as such; otherwise the codes before the first one misread are shown, and that one is drawn as a value that is no pixel or reported as corrupt |
| `GifCodec.RightExactly` | src/gbm123/gbmgif.c:540-621 | For a stream that spells enough pixels the reader shows them and reports no error if and only if no code is misread before the image is complete; otherwise it draws a wrong value, or reports the stream as corrupt unless told not to |
| `GifCodec.SmallCodeSize` | src/gbm123/gbmgif.c:551-586 | Whenever the palette is deeper than the minimum code size, the codes clear, v, First, First spell five pixels v but the second First is drawn as it is; with 8 bits and a minimum code size of 2 these are 4, 0, 6, 6 |
| `GifDecoder.FormatLimits` | src/gbm123/gbmgif.c:527-533 | Either there are as many colours as the reader takes for pixels, or the clear and the end code are among them, and this exactly if the palette is deeper than the minimum code size |
| `GifCodec.TwoClears` | src/gbm123/gbmgif.c:548-559 | A stream of two clear codes and a pixel is well formed and spells that pixel, but the reader misreads its second code |
| `GifCodec.FrugalIsSound` | src/gbm123/gbmgif.c:922-960 | In the streams the writer produces no code is misread, with any palette no deeper than the minimum code size |
| `GifCodec.WriteRow` | src/gbm123/gbmgif.c:880-964 | A row of the bitmap goes through the encoder pixel by pixel, in order, without changing the bitmap |
| `GifCodec.FetchPixel` | src/gbm123/gbmgif.c:884-903 | The byte fetched for pixel x of a row holds that pixel, which is below 2 to the depth |
| `GifBlocks.WriteContext.WriteCode` | src/gbm123/gbmgif.c:639-665 | Every code below 2^width is appended to the bits written so far, across any number of 255-byte blocks; unused bits stay zero and all buffer indexes are in range (invariant) |
| `GifBlocks.WriteContext.FlushFull` | src/gbm123/gbmgif.c:649-662 | Sending a full block moves its bits from the buffer to the blocks sent and loses none |
| `GifBlocks.WriteContext.StoreCode` | src/gbm123/gbmgif.c:641-646 | The three stores put the bits of a code right behind those already in the buffer and keep the bits beyond them clear |
| `GifBlocks.WriteContext.FlushCode` | src/gbm123/gbmgif.c:667-683 | The file ends as the sub-blocks of a payload that carries exactly the bits written and clear padding; the last byte is the terminator, and no block before it is empty |
| `GifBlocks.WriteCodeBits` | src/gbm123/gbmgif.c:641-646 | Bit by bit meaning of the three stores: old bits stay, the bits of the code follow, the rest of the last byte is zero |
| `GifBlocks.DeblockSubBlocks` | src/gbm123/gbmgif.c:649-682 | Taking a file apart into data sub-blocks undoes putting it together, whatever follows the terminator |
| `GifBlocks.TakeSubBlocks` | src/gbm123/gbmgif.c:649-682 | A reader that stops at the first empty block takes exactly the data out of sub-blocks and stops exactly where they end |
| `GifBlocks.SubBlocksEnd` | src/gbm123/gbmgif.c:649-682 | The last byte of sub-blocks is 0, and there are as few blocks as can be |
| `GifBlocks.OnePayload` | src/gbm123/gbmgif.c:667-676 | The bits written determine every byte of the payload |
| `GifBlocks.ReadContext.ReadCode` | src/gbm123/gbmgif.c:373-406 | Returns the next bits of the payload as a number, or 0xffff exactly when there are too few; total on any file |
| `GifBlocks.ReadContext.ReadBlock` | src/gbm123/gbmgif.c:390-394 | Appends the next block to the buffer, and fails only when every byte of the blocks has been read |
| `GifBlocks.ReadContext.DropConsumed` | src/gbm123/gbmgif.c:382-389 | Moving the bytes not yet consumed to the front of the buffer keeps the reading position in the bit stream |
| `GifBlocks.ReadContext.Extract` | src/gbm123/gbmgif.c:398-405 | From a buffer with enough bits the next bits are taken as a number, and the reading position moves past them |
| `GifBlocks.CodeFromBuffer` | src/gbm123/gbmgif.c:398-405 | The number assembled from two or three bytes of the buffer consists of the next bits of the payload |
| `GifFraming.CodesRoundTrip` | src/gbm123/gbmgif.c:373-683 | Any list of codes with any widths from 1 to 12, written one after the other and flushed, is read back with the same widths, whatever follows in the file |
| `GifFraming.WriteAll` | src/gbm123/gbmgif.c:639-683 | The file holds sub-blocks that carry the bits of all the codes, ended by the only empty block |
| `GifFraming.ReadAll` | src/gbm123/gbmgif.c:373-406 | From blocks that start with the bits of the codes exactly the codes are read |
| `LzwStream.StringsDistinct` | src/gbm123/gbmgif.c:905-937 | In an epoch without repeated entries codes and pixel strings correspond one to one |
| `LzwStream.StrPrefix` | src/gbm123/gbmgif.c:931-933 | Codes that come later never change the string of a code already defined |
| `LzwStream.WidthStep` | src/gbm123/gbmgif.c:597-607 | The width grows by one exactly when the next free code does not fit, and never past 12 bits |
| `LzwStream.CodeFits` | src/gbm123/gbmgif.c:540-611 | Every code that may come next, and the clear and end codes, are below 2^width |
| `LzwStream.Snoc` | src/gbm123/gbmgif.c:904-985 | What one more code does to a stream: its epoch, the pixels it spells, and its bits |
| `GifEncoder.Encoder.Step` | src/gbm123/gbmgif.c:904-963 | Taking in a pixel keeps the whole state consistent and the pixels spelt by the codes plus the matched string are the pixels taken in |
| `GifEncoder.Encoder.Probe` | src/gbm123/gbmgif.c:912-918 | Linear probing ends, at the entry (tail, col) or at an empty slot, having met only other entries before |
| `GifEncoder.ProbeMisses` | src/gbm123/gbmgif.c:912-923 | The hash index is exact: probing from the hash of the spelled string and meeting an empty slot proves that (tail, col) is not in the dictionary |
| `GifEncoder.Encoder.Follow` | src/gbm123/gbmgif.c:919-921 | Following an entry extends the matched string by its pixel |
| `GifEncoder.FollowEntry` | src/gbm123/gbmgif.c:919-921 | The string of entry (tail, col) is that of tail followed by col |
| `GifEncoder.Encoder.NewString` | src/gbm123/gbmgif.c:922-961 | Writing the matched string and entering it extended by a pixel, with the growth of the width or the reset that may follow, keeps the state consistent |
| `GifEncoder.Encoder.EnterEntry` | src/gbm123/gbmgif.c:931-936 | The new entry is in the dictionary and in the hash table, and matching starts again from its pixel |
| `GifEncoder.GrowDict` | src/gbm123/gbmgif.c:931-934 | A new entry is what the stream defines for its code, and repeats no other |
| `GifEncoder.GrowTable` | src/gbm123/gbmgif.c:931-931 | The slot where the probe ended may take the new entry: every entry is still found from its own hash |
| `GifEncoder.CounterStep` | src/gbm123/gbmgif.c:938-944 | Lockstep: after each code since the last clear the counter of the encoder is the next free code of the decoder, and both change width at the same code, at most to 12 |
| `GifEncoder.Encoder.ResetTables` | src/gbm123/gbmgif.c:944-960 | Writing the pending pixel and a clear code, when one entry of the dictionary is left, starts an empty epoch with the initial width and loses no pixel |
| `GifEncoder.Encoder.EmitTail` | src/gbm123/gbmgif.c:974-977 | The last string is written in the current width |
| `GifEncoder.Encoder.Finish` | src/gbm123/gbmgif.c:974-985 | All pixels taken in are spelled by the codes, and the end code follows in the width the decoder will use |
| `GifDecoder.Decoder.Run` | src/gbm123/gbmgif.c:540-621 | Reading codes draws what they spell until the image is complete, the stream ends, or a code is misread, which then is drawn as a value that is no pixel or reported as corrupt; no code before is misread |
| `GifDecoder.Decoder.ReadNext` | src/gbm123/gbmgif.c:540-548 | The number read is the next code of the stream, or its end code, at the width the stream was written with |
| `GifDecoder.Decoder.SpellCode` | src/gbm123/gbmgif.c:563-583 | Walking the table collects the string of a code, last pixel first, also for the code that equals the next free slot; or it stops early, exactly at the code StopFor names, if that is below 2^depth and no pixel; never more than 4097 values |
| `GifDecoder.Decoder.CollectLast` | src/gbm123/gbmgif.c:582-583 | The value collected last is the code at which the walk stopped; if it is a pixel, all that was collected is the string |
| `GifDecoder.Decoder.DrawOut` | src/gbm123/gbmgif.c:584-586 | The collected pixels are drawn in their proper order |
| `GifDecoder.Decoder.AddEntry` | src/gbm123/gbmgif.c:590-608 | The table lags one entry behind the stream and stays equal to it; counters, width and the full flag follow; a full table takes no entry |
| `GifDecoder.Decoder.ClearTable` | src/gbm123/gbmgif.c:542-548 | A clear code resets the width, the mask and the next free code, and the code after it is read |
| `GifDecoder.Decoder.NextEpoch` | src/gbm123/gbmgif.c:542-561 | If the code after a clear code is a pixel, it is drawn and an epoch starts with it; a clear or end code there is misread: drawn if it is below 2^depth, else not; otherwise the data end and nothing is drawn |
| `GifDecoder.Decoder.TakeForPixel` | src/gbm123/gbmgif.c:558-560 | A clear or end code below 2^depth that follows a clear code is drawn: what the codes before spell, and then a value that is no pixel |
| `GifDecoder.Decoder.StartEpoch` | src/gbm123/gbmgif.c:558-560 | The first pixel of an epoch is drawn and the table is empty |
| `GifDecoder.FreeStep` | src/gbm123/gbmgif.c:595-607 | How the next free code, the width and the full flag go on after each code |
| `GifDecoder.Decoder.NextString` | src/gbm123/gbmgif.c:562-610 | Any other code draws its string and adds an entry, keeping the invariant, unless a table code is drawn for its first pixel, exactly if the code strays |
| `GifDecoder.NotYetDefined` | src/gbm123/gbmgif.c:565-569 | The code that is not in the table yet spells the previous string and its own first pixel again |
| `GifDecoder.Unlink` | src/gbm123/gbmgif.c:570-581 | The string of a table entry is that of its prefix code and its suffix pixel, and prefixes go down |
| `GifDecoder.CodeBits` | src/gbm123/gbmgif.c:540-540 | The bits of each code follow directly those of the codes before it |
| `GifDecoder.EndCode` | src/gbm123/gbmgif.c:540-548 | The end comes after all the codes and nowhere else, and a code after a clear code is a pixel or another clear code |
| `GifImage.StepIlace` | src/gbm123/gbmgif.c:72-86 | Stepping goes to the next row of the four-pass order, and past the last row exactly when no row is left |
| `GifImage.RowsVisitEachOnce` | src/gbm123/gbmgif.c:66-86 | For every height each row is visited exactly once, interlaced or not |
| `GifImage.RowsInOrder` | src/gbm123/gbmgif.c:66-86 | Interlaced rows come pass after pass, rows 0, 8, ..., then 4, 12, ..., then 2, 6, ..., then the odd ones, each pass in ascending order; other images have ascending rows |
| `GifImage.PixelIs` | src/gbm123/gbmgif.c:417-455 | Where pixel (x, y) is in the bitmap: the bottom row comes first, and the leftmost pixel is in the high bits of its byte |
| `GifImage.RowBytes` | src/gbm123/gbmgif.c:523-523 | A row takes the least multiple of four bytes that holds its pixels |
| `GifImage.Halves` | src/gbm123/gbmgif.c:66-70 | A sweep visits the same rows as the two sweeps of twice its step |
| `GifImage.ScanInjective` | src/gbm123/gbmgif.c:444-454 | Bitmaps that show the same pixels in the order of the rows agree in every pixel |
| `GifImage.PutPixel` | src/gbm123/gbmgif.c:422-439 | Packing a pixel makes it read back, keeps the pixels left of it and leaves the bits right of it clear |
| `GifOutput.OutputContext.Output` | src/gbm123/gbmgif.c:417-455 | A pixel is drawn at the next place of the row order; pixels beyond the image are dropped |
| `GifOutput.OutputContext.Store` | src/gbm123/gbmgif.c:422-439 | Storing a pixel changes no other pixel drawn before, in its row or another |
| `GifOutput.OutputContext.NextRow` | src/gbm123/gbmgif.c:444-454 | At the end of a row drawing goes on at the start of the row that is next |
| `GifOutput.OutputContext.Progress` | src/gbm123/gbmgif.c:419-442 | Pixels are missing until the last row is complete; then the whole image is drawn |
| `GifOutput.OutputContext.DrawnFirst` | src/gbm123/gbmgif.c:417-455 | What has been drawn is where the image begins, in the order of its rows |
| `OpenAddressing.ProbeMeets` | src/gbm123/gbmgif.c:914-918 | In an indexed table probing from the start of an entry meets it before any empty slot |
| `OpenAddressing.Add` | src/gbm123/gbmgif.c:931-931 | The first empty slot a probe meets may take a new entry without hiding another |
| `OpenAddressing.ProbeEnds` | src/gbm123/gbmgif.c:810-815 | A table with more slots than entries ends every probe |
| `MedianCutImage.Quantise` | src/gbm123/gbmmcut.c:383-400 | End to end for a non-empty image: the boxes come from the whole cube by dividing, step by step, the first of those with most pixels at the median of its longest side, until there are as many as wanted, or as there are 5-bit colours if they are fewer; they tile the used colours; every pixel is mapped to the entry of its box, which is the centre; the entries are in order of the number of pixels mapped to them, which is exactly the count of the cell, and else of their numbers; the rest is grey |
| `MedianCutImage.AddImage` | src/gbm123/gbmmcut.c:56-75 | The histogram counts every pixel of the image once, and the total is their number |
| `MedianCutImage.SumCounts` | src/gbm123/gbmmcut.c:72-74 | The sum of the histogram over a box is the number of pixels whose colour lies in it |
| `MedianCutImage.FreqsAreUses` | src/gbm123/gbmmcut.c:310-346 | The count of a cell is the number of pixels mapped to its entry |
| `MedianCutImage.MapImage` | src/gbm123/gbmmcut.c:358-380 | Every pixel becomes the label of its colour |
| `MedianCutImage.CentreRepresents` | src/gbm123/gbmmcut.c:333-339 | The entry of a box lies half way between its ends in every component, so a pixel of the box is off by at most half its extent |
| `Pictures.Neighbours` | src/gbm123/gbmmcut.c:61-74 | Pixels of 24 bits are three bytes apart and rows a stride, pixels of 8 bits one byte |
| `MedianCutImage.LabelOf` | src/gbm123/gbmmcut.c:333-346 | The label of a counted colour is the number of the one cell that holds it |
| `MedianCut.Mcut.Shrink` | src/gbm123/gbmmcut.c:82-131 | The result is the tight bounding box of the used colours, with the same pixels, dividable exactly where it is more than one colour wide |
| `MedianCut.Mcut.ShrinkAxis` | src/gbm123/gbmmcut.c:86-98 | Both bounds move inwards to the first and the last slice that holds a pixel, and no used colour is lost |
| `MedianCut.Mcut.FindSplit` | src/gbm123/gbmmcut.c:204-217 | The boundary is the first with at least half the pixels below it, or the one before if that is the end, and both sides of it hold pixels |
| `MedianCut.Mcut.PickCell` | src/gbm123/gbmmcut.c:161-172 | The cell chosen is the first of those with most pixels among the dividable ones of more than one pixel; none if there is none |
| `MedianCut.Mcut.Divide` | src/gbm123/gbmmcut.c:177-303 | A cell is split at the median of its longest side; cells stay disjoint tight boxes that cover every used colour and whose counts are exact and add up; no other cell changes |
| `MedianCut.SplitKeeps` | src/gbm123/gbmmcut.c:219-226 | Splitting a cell and shrinking the halves keeps the partition, its counts and their sum |
| `MedianCut.EndsUsed` | src/gbm123/gbmmcut.c:295-302 | Both halves always hold pixels, so the branch that gives up a direction is never taken |
| `MedianCut.LongestIsWide` | src/gbm123/gbmmcut.c:182-194 | The direction of the split is one the cell is dividable in, and its longest side, green before red before blue |
| `MedianCut.Mcut.SplitCells` | src/gbm123/gbmmcut.c:147-304 | The loop goes through lists of cells, from the whole cube shrunk, each of which comes from the one before by dividing the first cell with most pixels at its median, and ends with a partition into exactly as many cells as wanted, or as there are colours if they are fewer |
| `MedianCut.EveryStep` | src/gbm123/gbmmcut.c:157-303 | One step: the cell divided is the first of the dividable ones with the most pixels, the side its longest (green before red before blue), the boundary the first with half its pixels below it, and no other cell changes |
| `MedianCut.OneCourse` | src/gbm123/gbmmcut.c:147-304 | The histogram and the number of cells determine the course of the splitting and so the cells |
| `MedianCut.FewColours` | src/gbm123/gbmmcut.c:157-175 | With no more used colours than cells every cell is a single colour |
| `MedianCut.TwoColours` | src/gbm123/gbmmcut.c:157-175 | A cell wider than one colour makes the used colours outnumber the cells |
| `MedianCut.CellsAreUsed` | src/gbm123/gbmmcut.c:147-304 | There are never more cells than used colours |
| `MedianCut.SinglesSuffice` | src/gbm123/gbmmcut.c:147-175 | When no cell can be divided there are as many cells as used colours at least |
| `MedianCutPalette.SortCells` | src/gbm123/gbmmcut.c:310-326 | The cell numbers end up permuted and in descending order of pixels, those of equal pixels in ascending order |
| `MedianCutPalette.SortPass` | src/gbm123/gbmmcut.c:315-325 | One pass keeps a permutation, the order of equals and the sorted end, sinks the least used, and makes no swap only if all is in order |
| `MedianCutPalette.BuildPalette` | src/gbm123/gbmmcut.c:134-355 | The palette holds the centres of the cells the splitting ends with, as many as wanted or as there are colours, most used first, then grey; the histogram becomes the map from colours to cells |
| `MedianCutPalette.LabelCells` | src/gbm123/gbmmcut.c:333-346 | Every entry is the centre of its cell, and every colour of a cell gets its number |
| `ColourBoxes.SumCut` | src/gbm123/gbmmcut.c:204-211 | A box cut in two has the sum of its parts |
| `ColourBoxes.WideHasTwo` | src/gbm123/gbmmcut.c:164-171 | A tight box more than one colour wide holds at least two pixels |
| `NearestColour.NearestViaMap` | src/gbm123/gbmtrunc.c:150-156 | For every palette of 1 to 256 entries and every colour the lookup gives the entry brute force gives, the lowest on ties |
| `NearestColour.CornersDecide` | src/gbm123/gbmtrunc.c:136-146 | An entry nearest at the eight corners of a block is nearest in all of it, with ties resolved the same way |
| `NearestColour.LeadInBlock` | src/gbm123/gbmtrunc.c:136-143 | A lead of one entry over another that holds at the corners holds in the whole block |
| `NearestColour.BuildMap` | src/gbm123/gbmtrunc.c:129-148 | Every block holds its nearest entry if its corners agree, else the mark that they do not |
| `NearestColour.SampleBlock` | src/gbm123/gbmtrunc.c:136-146 | The entry of one block says exactly whether its corners agree, and on what |
| `NearestColour.Nearest` | src/gbm123/gbmtrunc.c:104-117 | The entry returned is nearest, and the first of those as near |
| `Palettes.NearestUnique` | src/gbm123/gbmtrunc.c:113-114 | The nearest entry with the lowest number is unique |
| `Palettes.DistIs` | src/gbm123/gbmtrunc.c:104-117 | The distance is the sum of the squares of the differences of the components |
| `Palettes.NoneNearer` | src/gbm123/gbmtrunc.c:104-117 | No entry is nearer than the nearest, and none as near comes before it |
| `GemImage.RoundTrip` | src/gbm123/gbmgem.c:396-504 | For rows of 1 bit a pixel, plain or complemented, and of 24 bits, with red and blue exchanged on the way, and whatever follows in the file, every row of the bitmap comes back (complemented if it was written so) |
| `GemImage.WriteRows` | src/gbm123/gbmgem.c:854-1067 | The blocks written stand for the rows of the bitmap, top row first: byte by byte the row, 255 minus each byte, or for 24 bits red, green and blue in that order (the loops at 854-872 for 1 bit and 1050-1065 for 24 bits); n rows take at most n (LiteralSize + 4) bytes |
| `GemImage.WriteBlock` | src/gbm123/gbmgem.c:854-1067 | One turn of the loop (854-872 for 1 bit, 1050-1065 for 24 bits) writes the code of a row, byte by byte as it is, complemented or with red and blue exchanged, preceded by the number of rows below that equal it |
| `GemImage.FormLine` | src/gbm123/gbmgem.c:860-1061 | The line handed to the encoder is the row, 255 minus each byte, or each triple in the opposite order (860-868 for 1 bit, 1060-1061 for 24 bits) |
| `GemImage.RedGreenBlue` | src/gbm123/gbmgem.c:1058-1058 | For 24 bits the red, green and blue in the file are the third, second and first byte of the pixel |
| `GemImage.LineBytes` | src/gbm123/gbmgem.c:488-504 | Row y from the bottom starts y strides into the bitmap |
| `GemImage.RgbBgr` | src/gbm123/gbmgem.c:90-103 | The first and the third byte of every triple are exchanged, also in place |
| `GemImage.ReadRows` | src/gbm123/gbmgem.c:415-504 | The bitmap read has the rows the blocks stand for, byte by byte, in 24 bits with red and blue exchanged; repeated rows are copied, and the file is read exactly to the end of the blocks |
| `GemImage.ReadRow` | src/gbm123/gbmgem.c:491-503 | A row read from the file stands where it belongs, byte by byte, in 24 bits with red and blue exchanged, no other row changes, and what its replication code says is remembered |
| `GemImage.HandleVrep` | src/gbm123/gbmgem.c:574-589 | The number of equal rows is the largest possible up to 255, and the code written says so |
| `GemImage.CopyRow` | src/gbm123/gbmgem.c:421-422 | A repeated row equals the row above it and no row already there changes |
| `GemCodes.ReadGemLine` | src/gbm123/gbmgem.c:330-380 | A coded line is expanded in place, a replication code before it is taken in, nothing else in the buffer changes and exactly its bytes are read |
| `GemCodes.CodeBytes` | src/gbm123/gbmgem.c:339-378 | The bytes of each kind of code, and what they stand for in the line |
| `GemCodes.ReadGemCode` | src/gbm123/gbmgem.c:339-378 | Each of the four kinds of code is told apart by its first byte and expanded |
| `GemCodes.ReadPattern` | src/gbm123/gbmgem.c:359-366 | A pattern is read once and repeated |
| `GemCodes.RepeatPattern` | src/gbm123/gbmgem.c:363-365 | A pattern is repeated by copying from the bytes just written |
| `GemEncoder.Encode1` | src/gbm123/gbmgem.c:640-666 | The codes written stand for the line and take at most 2n + 1 bytes, so they fit the buffer of 2n + 2 |
| `GemEncoder.EncodeBytes` | src/gbm123/gbmgem.c:645-662 | Each code takes at most twice the bytes it stands for, but for a last byte on its own |
| `GemEncoder.Encode3` | src/gbm123/gbmgem.c:721-758 | The codes written stand for the line and take at most 4n/3 + 1 bytes |
| `GemEncoder.EncodeTriples` | src/gbm123/gbmgem.c:726-756 | Each code takes at most a third more bytes than it stands for, but for a last triple on its own |
| `GemEncoder.Literally` | src/gbm123/gbmgem.c:764-780 | Whatever the encoding was, what remains stands for the line and takes at most n + 2 ceil(n/127) bytes; encodings that are short enough are kept |
| `GemEncoder.FindRun1` | src/gbm123/gbmgem.c:607-616 | The run is the longest one of equal bytes, up to 127 |
| `GemEncoder.FindLit1` | src/gbm123/gbmgem.c:623-638 | The literal takes all of 3 bytes or fewer, else at least 2 and stops at the first byte that repeats or is black or white, before the last |
| `GemEncoder.FindRun3` | src/gbm123/gbmgem.c:682-694 | The run is the longest one of equal triples, up to 127 |
| `GemEncoder.FindLit3` | src/gbm123/gbmgem.c:700-719 | The literal takes one triple if there is one, else at least two, stopping at the first that repeats or is black or white, up to 42 |
| `PcxRuns.ReadPcxLine` | src/gbm123/gbmpcx.c:173-214 | The line holds the next bytes of the expansion of the file, whatever was left of a run; what is left afterwards continues it exactly, also past the end of the file |
| `PcxRuns.ReadLines` | src/gbm123/gbmpcx.c:254-262 | Lines of any widths read one after the other are a prefix of the expansion of the file |
| `PcxEncoder.PcxRle` | src/gbm123/gbmpcx.c:355-376 | The output expands to the input whatever follows it, has at most 2n bytes, and no encoding of the input is shorter |
| `PcxEncoder.EncodeRun` | src/gbm123/gbmpcx.c:361-374 | Each code covers the longest run and leaves exactly the cost of the rest |
| `PcxShortest.NoShorter` | src/gbm123/gbmpcx.c:355-376 | Every encoding of a line is at least as long as the greedy one |
| `PcxShortest.NoSaving` | src/gbm123/gbmpcx.c:361-371 | Coding a part of a block of equal bytes by any one code saves nothing over the longest runs |
| `PcxShortest.RunNeedsByte` | src/gbm123/gbmpcx.c:193-206 | A run count without the byte after it encodes nothing |
| `PcxEncoder.PcxRun` | src/gbm123/gbmpcx.c:343-353 | The run is the longest one of equal bytes, up to 63 |
| `PcxEncoder.WriteLines` | src/gbm123/gbmpcx.c:463-470 | The lines, each encoded on its own, expand to their concatenation |
| `PcxEncoder.RoundTrip` | src/gbm123/gbmpcx.c:172-376 | Lines written are read back, even with other widths of the same sum |
| `ReadAhead.Ahead.Read` | src/gbm123/gbmhelp.c:268-278 | Bytes come in order through the refilled buffer; the end of the file reads as 0xff once cast to a byte |
| `HistogramImage.GbmHist` | src/gbm123/gbmhist.c:226-262 | The palette holds the most frequent masked colours in order of use, each with the bits of a pixel inside the masks and none outside, then grey, and every pixel gets the nearest entry to its masked colour, its own if it was chosen |
| `HistogramImage.MaskedBit` | src/gbm123/gbmhist.c:72-74 | A bit of a masked component is set if and only if it is set in the byte and in the mask |
| `HistogramImage.SameColours` | src/gbm123/gbmhist.c:72-88 | Two pixels have the same masked colour if and only if they agree in all bits of the masks |
| `HistogramImage.ColourBits` | src/gbm123/gbmhist.c:69-74 | The masked colour of a pixel has the bits of its first, second and third byte inside the masks as blue, green and red |
| `HistogramImage.SeenAt` | src/gbm123/gbmhist.c:69-109 | Every colour counted is that of a pixel |
| `HistogramImage.SeenSize` | src/gbm123/gbmhist.c:69-109 | Every pixel is counted once |
| `HistogramImage.CountColours` | src/gbm123/gbmhist.c:236-252 | The retry loop ends for all masks, after at most 24 failures, and coarsens the masks no more often than needed |
| `HistogramImage.AddBitmap` | src/gbm123/gbmhist.c:55-110 | Counting succeeds exactly when there are at most 2049 masked colours, and then every pixel is counted |
| `HistogramImage.CoarserGains` | src/gbm123/gbmhist.c:246-251 | Every coarsening step clears exactly one more low bit of the masks, unless none is left |
| `HistogramImage.ZeroMasksFit` | src/gbm123/gbmhist.c:254-255 | Once all masks are zero counting cannot fail |
| `HistogramImage.MapBitmap` | src/gbm123/gbmhist.c:176-210 | Every pixel is mapped to what the entry of its masked colour says |
| `HistogramImage.EntryPerColour` | src/gbm123/gbmhist.c:92-102 | There are exactly as many entries as colours seen |
| `Histogram.Hist.Add` | src/gbm123/gbmhist.c:76-109 | Adding a pixel counts its colour; it fails only when the colour is new and all 2049 entries are in use |
| `Histogram.Hist.Probe` | src/gbm123/gbmhist.c:79-88 | Probing ends, at the entry of the colour, or at an empty slot if and only if there is none |
| `Histogram.ProbeMisses` | src/gbm123/gbmhist.c:79-94 | An empty slot proves that the colour has no entry |
| `Histogram.Hist.Lookup` | src/gbm123/gbmhist.c:195-207 | For a colour that was added the probe finds its entry before any empty slot |
| `HistogramPalette.PalHist` | src/gbm123/gbmhist.c:113-173 | The most frequent entries, first ones on ties, become the palette in order, the rest is grey, and every entry is given the nearest palette entry, the chosen ones their own |
| `HistogramPalette.ChooseColours` | src/gbm123/gbmhist.c:124-139 | Entries are taken out in descending order of frequency, as many as are wanted or there are |
| `HistogramPalette.FindMost` | src/gbm123/gbmhist.c:129-134 | The entry found is the most frequent one not yet taken, the first of those |
| `HistogramPalette.MostFrequent` | src/gbm123/gbmhist.c:122-139 | No colour left out or chosen later is more frequent than one chosen, and none as frequent comes before it in the histogram |
| `HistogramPalette.OwnEntry` | src/gbm123/gbmhist.c:135-139 | A chosen colour is nearest to its own entry, also when the grey filling equals it |
| `PaletteFrames.RoMap` | src/gbm123/gbmcpal.c:617-701 | Over any number of frames every pixel is written as the slot of its entry, which has its colour; at first the slots are in order, then each old colour claims the nearest entry and exactly the ncolsextra worst matches exchange their slots with the extra ones, other slots keep their colours; and if a frame has the colours of the one before it, the picture written before looks the same with the new palette |
| `PaletteFrames.ExtrasRotate` | src/gbm123/gbmcpal.c:669-684 | With every frame all extra slots come into use: each extra slot afterwards held a colour of the frame before and still holds it |
| `PaletteFrames.NeverFlickers` | src/gbm123/gbmcpal.c:649-697 | With as many extra slots as colours the picture written before looks the same with the new palette, whatever the new frame is |
| `PaletteRun.RoFreqMap` | src/gbm123/gbmcpal.c:702-734 | The whole run from 24-bit frames: the palette of each holds the most frequent colours of its picture, under masks coarsened no more than needed, and every pixel has the entry nearest to its masked colour; each is shown in these colours, in slots chosen as RoMap says, and a still picture does not flicker |
| `PaletteRun.GetAndHist` | src/gbm123/gbmcpal.c:704-718 | A frame is quantised by frequency, and its indexes are below the number of colours asked for, as the reordering requires |
| `PaletteRun.RoMcutMap` | src/gbm123/gbmcpal.c:736-767 | The whole run from 24-bit frames with the median cut: the palette of each holds the centres of the boxes that come from dividing the most used one over and over, and every pixel has the entry of its box; each is shown in these colours, in slots chosen as RoMap says, and a still picture does not flicker |
| `PaletteRun.GetAndMcut` | src/gbm123/gbmcpal.c:737-752 | A frame is quantised by the median cut, and its indexes are below the number of colours asked for |
| `PaletteFrames.NextFrame` | src/gbm123/gbmcpal.c:642-697 | After every frame the map and the extra slots are a permutation, every entry of the frame is in its slot, the picture is preserved, and colours outside the slots of the frame do not change; which slot each entry gets is determined |
| `PaletteFrames.ChooseSlots` | src/gbm123/gbmcpal.c:649-681 | Claiming and exchanging give each entry its slot, and the slots stay a permutation |
| `PaletteReorder.CalcMapP` | src/gbm123/gbmcpal.c:577-614 | Every old colour in order of use claims the nearest entry not yet claimed, the first of those as near, and each new entry is claimed once |
| `PaletteReorder.ClaimIsNearest` | src/gbm123/gbmcpal.c:590-613 | Each old colour gets the nearest entry that none before it has claimed, the first of those as near |
| `PaletteReorder.NearestFree` | src/gbm123/gbmcpal.c:596-610 | There is always an unclaimed entry, and the nearest one is found |
| `PaletteReorder.ClaimedPermutes` | src/gbm123/gbmcpal.c:590-613 | After claiming, the slots of the map together with the extra ones are still a permutation |
| `PaletteReorder.MarkWorst` | src/gbm123/gbmcpal.c:655-667 | Exactly the worst matches are marked, earlier ones first on ties, as many as there are extra slots |
| `PaletteReorder.MarkedIsWorse` | src/gbm123/gbmcpal.c:655-667 | A match that is marked is at least as bad as one that is not, and earlier if it is as bad |
| `PaletteReorder.SwapExtras` | src/gbm123/gbmcpal.c:669-680 | Marked entries exchange their slots with the extra ones in order, nothing else changes, and slots stay a permutation |
| `PaletteFrames.UpdatePalette` | src/gbm123/gbmcpal.c:683-684 | Every entry of the frame is in its slot, and other slots keep their colours |
| `PaletteFrames.RewritePixels` | src/gbm123/gbmcpal.c:686-689 | Every pixel is sent through the map and padding is left alone |
| `PaletteFrames.StillClaims` | src/gbm123/gbmcpal.c:571-575 | If a frame has the old colours in whatever order, each old colour claims an equal one |
| `PaletteFrames.StillFrame` | src/gbm123/gbmcpal.c:569-696 | With any number of extra slots a frame that has the colours of the one before leaves every slot of the old map its colour: a still picture does not flicker |
| `Ham6.RoundTrip` | src/gbm123/gbmlbm.c:1051-1192 | The decoder shows the four top bits of the third of three equal pixels, unless it is the third of the line and starts badly, exactly then not; at the start also what one and two pixels show |
| `Ham6.FirstTwo` | src/gbm123/gbmlbm.c:1053-1086 | The first pixel of a line is exact exactly if it is grey, the second of two equal ones exactly if two components are alike |
| `Ham6.EncodeHam6` | src/gbm123/gbmlbm.c:1051-1192 | The codes of a line follow its pixels: the encoder tracks exactly what the decoder will show |
| `Ham6.NextPixel` | src/gbm123/gbmlbm.c:1088-1190 | The code leaves as few components wrong as any code could; a grey is used only where it mends two or more, and else the component farthest off is modified, red before green before blue |
| `Ham6.OneCode` | src/gbm123/gbmlbm.c:1088-1190 | The colour shown and the colour wanted determine the code |
| `Ham6.OneLine` | src/gbm123/gbmlbm.c:1051-1192 | A line of pixels determines its line of codes |
| `Ham6.EveryPixel` | src/gbm123/gbmlbm.c:1088-1190 | After the first pixel every code is the best possible, and mends at least one component unless none is wrong |
| `Ham6.LeastWrong` | src/gbm123/gbmlbm.c:1088-1190 | No code can leave fewer components wrong than the bound the encoder meets |
| `Ham6.FirstPixel` | src/gbm123/gbmlbm.c:1053-1086 | The first pixel is shown as the grey two of its components share, or their mean rounded down; at most one component is wrong exactly if two are alike |
| `Ham6.ThreeAlike` | src/gbm123/gbmlbm.c:1088-1190 | Three equal pixels after the first of the line end exact |
| `Ham6.ThreeAtStart` | src/gbm123/gbmlbm.c:1053-1086 | Three equal pixels at the start of a line end exact if and only if two components are alike or the mean is one of them |
| `Ham6.BadStart` | src/gbm123/gbmlbm.c:1059-1064 | Three pixels of components 0, 1 and 5 at the start of a line end one component off |
| `Ham6.FourAlike` | src/gbm123/gbmlbm.c:1051-1192 | Four equal pixels end exact wherever they are |
| `Ham6.ReadHam6` | src/gbm123/gbmlbm.c:562-590 | Every pixel decoded is 16 times the colour the codes up to it show |
| `Ham6.DecodePixel` | src/gbm123/gbmlbm.c:568-585 | One code of the decoder acts on components of 8 bits as it does on the 4-bit colour |
| `Ham6.NobblePalette` | src/gbm123/gbmlbm.c:270-277 | The greys written by the encoder become multiples of 16 when read |
| `Ham6.GreyMap` | src/gbm123/gbmlbm.c:1227-1228 | The colour map written is sixteen greys |

## Left out

- File input and output, headers, options, palettes in files, and failures to write or to allocate: files are sequences of bytes.
- GifCodec.ReadData: asks for a stream that starts with a clear code and in which every code is defined when it comes. What the C code does with undefined codes and its bound on the length of a string are not modelled.
- GifDecoder.Decoder.Run: stops when a code has been drawn for a pixel. The C code goes on; what it draws after that value is not modelled.
- GemCodes.ReadGemLine: asks for codes that fill the line exactly, the last of them with a byte or more, and for no replication code of zero rows; what corrupt GEM data would do is not modelled.
- GifBlocks.ReadContext.DropConsumed: copies only bytes inside the buffer, where the C code always copies three and may read up to two bytes behind it; those are never used.
- Integer overflow of 32-bit pixel counts and of sizes: images are assumed small enough. The hash of the GIF encoder is modelled with its 32-bit arithmetic.
- MedianCut.Mcut.Divide: one method with the axis as a parameter stands for the three copies of the split in red, green and blue, as does MedianCut.Mcut.ShrinkAxis for the six loops of `shrink`; cells are values in the array of cells.
- MedianCutImage.Quantise: asks, as PaletteRun.RoMcutMap does, for at least one pixel; on an empty histogram the first loop of `shrink` runs on past the 32 slices of the array, which C leaves undefined.
- HistogramImage.AddBitmap: keeps the entry count up to date also in a histogram that fails, which the caller throws away.
- Histograms shared by several bitmaps, as the command-line tools use them, beyond what AddBitmap and AddImage state for a histogram that is not empty.
- GemImage.RoundTrip: images of one plane (1 and 24 bits a pixel). The bit planes of 4 and 8 bits a pixel and their mapping to other palettes are not modelled.
- PcxRuns.ReadLines: without the option that drops what is left of a run at the end of a line (`src/gbm123/gbmpcx.c:259-260`); PCX planes are not modelled.
- Ham6.GreyMap: sets the sixteen entries that exist; the loop of the source goes on to a seventeenth (`src/gbm123/gbmlbm.c:1227`).
- HAM8 and SHAM, and the bit planes HAM6 codes are stored in.
- The run-length code of LBM bodies (`src/gbm123/gbmlbm.c:329-363`, `src/gbm123/gbmlbm.c:816-865`): the same kind of argument as for PCX and GEM.
- PaletteFrames.RoMap: takes the quantised frames as given; PaletteRun.RoFreqMap and PaletteRun.RoMcutMap deliver them from gbm_hist and gbm_mcut, all before the first is written, where the source quantises each frame when its turn comes.
- The truncation loops and fixed tables of `gbmtrunc.c`, scaling, mirroring, halftoning, error diffusion, gamma, and the formats that wrap other libraries: easier members, or none of the algorithm is here.
