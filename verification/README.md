# GUIFramework in Dafny

A model of the image decoding core and the widget logic of GUIFramework, a small
C++ toolkit of widgets drawn into an ARGB pixel buffer. Everything is pure
functions over immutable datatypes; each widget is a record and each handler
returns the widget after the event.

The image core:

- `Bytes`, `Argb`: the big-endian and little-endian readers and ARGB packing of
  `ImageLoader`.
- `Png`, `PngFilter`: the PNG decoder. `Png` covers the signature check, the chunk
  walk, the size checks and the conversion to ARGB. `PngFilter` covers scanline
  reconstruction (filter types 0 to 4, section 6 of RFC 2083). zlib inflation is a
  parameter.
- `BitStream`, `Lzw`, `LzwReference`: the GIF LZW decompressor. `Lzw` models the
  source's table decoder with its bit accumulator, both as written and with its
  end-of-data test corrected. `LzwReference` is an independent dictionary-based
  decoder, and the table decoder is proved to agree with it.
- `Gif`: the GIF decoder. It reads the header, the global colour table and
  extensions, finds the first image, gathers its sub-blocks and colours its indices.
- `ImageWidget`: file-name dispatch between the two decoders and ownership of the
  loader.

The widgets:

- `WidgetBase`: position, size, absolute coordinates and hit testing.
- `TextLine`, `TextBox`, `Keys`: the single-line editor (cursor, selection, scroll).
- `TextLines`, `MultiLineBuffer`, `MultiLineTextBox`: the multi-line editor.
- `ComboBox`, `ListBox`, `TableGrid`, `ColumnLabel`, `TreeView`.
- `FileDialog`.
- `Canvas`, `Splitter`, `TabbedPanel`, `StatusBar`, `MenuBar`.
- `ContextMenu`, `DropDownMenu`, `CascadeMenu`.
- `BooleanWidget`, `RadioButton`.
- `Common`: shared helpers, including C++ truncating division `CDiv`.

Drawing, fonts, the window system and the file system are outside the model.
Where a widget needs them (text widths, directory listings, file contents, zlib),
they enter as function parameters.

## Model

| member | source | states |
|---|---|---|
| Bytes.ReadBE32OfBytes | src/ImageLoader.cpp:65-67 | reading the four big-endian bytes of a 32-bit word gives the word back |
| Bytes.BytesOfReadBE32 | src/ImageLoader.cpp:65-67 | the bytes of a word read big-endian are the bytes it was read from |
| Bytes.ReadLE16OfBytes | src/ImageLoader.cpp:69-71 | the little-endian 16-bit reader inverts splitting a word into its low and high byte |
| Bytes.LE16At | src/ImageLoader.cpp:69-71 | the little-endian word at an offset is below 65536, with the byte at the offset as its low byte and the next as its high byte |
| Argb.Pack | src/ImageLoader.cpp:177 | packing alpha, red, green and blue gives a word whose four channels read back as those bytes |
| Argb.Opaque | src/ImageLoader.cpp:183 | an opaque RGB colour has alpha 255 and the given red, green and blue channels |
| Argb.PackChannels | src/ImageLoader.cpp:177 | every 32-bit word is the packing of its own four channels, so the packing is a bijection |
| BitStream.CodeBitsVal | src/ImageLoader.cpp:278-287 | writing a code narrower than its width out as bits and reading it back gives the code |
| BitStream.ValCodeBits | src/ImageLoader.cpp:278-287 | reading bits as a number and writing it back out gives the bits, padded with zeros |
| BitStream.StreamTake | src/ImageLoader.cpp:285-287 | masking the low n pending bits gives the next n-bit code, and shifting right by n leaves the remaining bits |
| BitStream.LoadByte | src/ImageLoader.cpp:278-281 | shifting a byte in above the pending bits extends them by that byte's eight stream bits |
| BitStream.StreamSplit | src/ImageLoader.cpp:278-287 | the first n + m stream bits are the first n plus the next m shifted up by n |
| BitStream.ReadCodeBits | src/ImageLoader.cpp:285 | a code written out as bits in the middle of a stream reads back as the code |
| BitStream.PackBitsRoundTrip | src/ImageLoader.cpp:278-281 | unpacking packed bits, least significant bit first, gives the bits followed only by zero padding |
| BitStream.StreamByte | src/ImageLoader.cpp:279 | eight stream bits from a byte boundary are that byte |
| Lzw.Init | src/ImageLoader.cpp:261-275 | the decoder starts with next at the clear code plus two, codes one bit wider than the minimum, no previous code and no output, and keeps its invariant |
| Lzw.Known | src/ImageLoader.cpp:299-306 | a code in the table emits its non-empty string; with a previous code and room left, prev's string plus the emitted first byte becomes entry next; otherwise the table is untouched |
| Lzw.Define | src/ImageLoader.cpp:307-316 | the code equal to next defines prev's string plus its own first byte, emits it, and moves next on |
| Lzw.Grow | src/ImageLoader.cpp:318-321 | after a code the width grows by one bit exactly when next exceeds the largest code of the current width and the width is below 12, and nothing else changes |
| Lzw.Step | src/ImageLoader.cpp:289-321 | one code keeps the invariant and only appends output; it stops at the end code and exactly there, and fails only on a code equal to next that cannot be defined |
| Lzw.Run | src/ImageLoader.cpp:277-322 | the corrected loop only appends output, and stops for lack of bits only when fewer than a code's width remain |
| Lzw.Outcome | src/ImageLoader.cpp:307-313 | the result is absent exactly when the loop met a code the table cannot define, and is otherwise the output |
| Lzw.DecompressBy | src/ImageLoader.cpp:257-329 | selects the source's loop or the corrected one |
| Lzw.AsWrittenAgrees | src/ImageLoader.cpp:277-287 | where the source's loop fails the corrected one fails too, and where both succeed the source's output is a prefix of the corrected output |
| Lzw.AsWrittenDropsLastCode | src/ImageLoader.cpp:277-283 | on the single byte 0x09 at minimum code size 2 the source's loop decodes [1] where the data holds the two codes 1 and 1 |
| Lzw.DecompressLoop | src/ImageLoader.cpp:257-329 | the source's loop, with its 32-bit bit accumulator, computes exactly the as-written decoder |
| Lzw.ReadCode | src/ImageLoader.cpp:278-287 | the accumulator yields a code exactly when a whole code remains in the data, and that code is the stream's next code of that width |
| Lzw.DecompressCompress | src/ImageLoader.cpp:257-329 | decompressing the clear-and-literal encoding of any bytes below the clear code gives the bytes back, for every minimum code size from 2 to 12 |
| LzwReference.RefStep | src/ImageLoader.cpp:289-316 | the dictionary decoder: the end code and undefined codes stop it, a clear code resets the dictionary and keeps the output, any other code only appends |
| LzwReference.RefDecode | src/ImageLoader.cpp:277-322 | a code sequence's output extends the output so far, and exists only for a non-empty sequence reaching the end code |
| LzwReference.WidthStep | src/ImageLoader.cpp:318-321 | the table decoder's width bump gives the width the reference computes from the dictionary size |
| LzwReference.StepCouples | src/ImageLoader.cpp:289-321 | every code the reference accepts fits the table decoder's width and takes coupled states to coupled states |
| LzwReference.DecompressMatchesReference | src/ImageLoader.cpp:257-329 | decompressing the encoding of any code sequence the reference decodes gives the reference's output, for minimum code sizes 2 to 11 |
| PngFilter.Paeth | src/ImageLoader.cpp:141-152 | the Paeth predictor picks one of left, above and upper-left whose distance to left + above - upper-left is least, ties going to left, then above |
| PngFilter.Predictor | src/ImageLoader.cpp:129-154 | filter type 0 and unknown types add nothing; 1 adds left, 2 above, 3 the floor of their mean, 4 the Paeth predictor |
| PngFilter.Left | src/ImageLoader.cpp:124 | the left neighbour is the byte bpp places back, or 0 within the first pixel |
| PngFilter.ReconLine | src/ImageLoader.cpp:123-155 | a reconstructed row is the reconstruction of its filtered bytes: each byte is its filtered value plus the predictor of its reconstructed neighbours, modulo 256 |
| PngFilter.ReconstructionUnique | src/ImageLoader.cpp:123-155 | a reconstruction is unique: any two rows that satisfy it are equal |
| PngFilter.ReconFilterRoundTrip | src/ImageLoader.cpp:123-155 | reconstructing a row filtered with any filter type gives back the original row |
| PngFilter.UnchangedFilterTypes | src/ImageLoader.cpp:129-131 | filter type 0 and unrecognised filter types leave a row unchanged |
| PngFilter.Prior | src/ImageLoader.cpp:125-127 | the row above is the previous reconstructed row without its filter byte, or zeros for the first row |
| PngFilter.UnfilterRows | src/ImageLoader.cpp:115-157 | unfiltering keeps the number of rows, their length and every filter-type byte |
| PngFilter.UnfilterRowsReconstructs | src/ImageLoader.cpp:115-157 | every unfiltered row is the reconstruction of its filtered bytes against the reconstructed row above |
| PngFilter.UnfilterFilterRoundTrip | src/ImageLoader.cpp:115-157 | unfiltering an image filtered row by row with any filter types restores every row |
| Png.ScanChunks | src/ImageLoader.cpp:203-211 | every scanned chunk has a four-byte type and a payload shorter than 2^32 bytes |
| Png.ScanEncodedChunk | src/ImageLoader.cpp:203-226 | scanning a complete chunk followed by anything yields that chunk first, then the scan of the rest |
| Png.ScanEncodeRoundTrip | src/ImageLoader.cpp:203-226 | the chunk scanner inverts the chunk writer |
| Png.WalkChunks | src/ImageLoader.cpp:213-218 | the chunk walk fails only with a short header |
| Png.WalkChunksSpec | src/ImageLoader.cpp:203-226 | the walk fails exactly when an IHDR before the first IEND is shorter than 13 bytes; otherwise it yields the last such IHDR's fields and the IDAT payloads before the first IEND, concatenated |
| Png.BeforeEnd | src/ImageLoader.cpp:221-222 | the chunks the walk reads are a prefix of the chunks, none of them IEND |
| Png.BytesPerPixel | src/ImageLoader.cpp:239 | 4 bytes per pixel for colour type 6 and 3 for every other type |
| Png.SplitRows | src/ImageLoader.cpp:118-121 | the inflated bytes cut into height rows, each a filter byte plus a stride of samples |
| Png.SplitRowsAt | src/ImageLoader.cpp:119-121 | row y is exactly the bytes from y times the row length up to the next row |
| Png.PixelAt | src/ImageLoader.cpp:171-184 | colour type 6 packs the RGBA samples as ARGB, type 2 makes the RGB samples opaque, any other type leaves the pixel unwritten |
| Png.ConvertAt | src/ImageLoader.cpp:166-185 | pixel (x, y) sits at index y * width + x and is read from row y at byte 1 + x * bpp |
| Png.Unwritten | src/ImageLoader.cpp:162-168 | with both dimensions negative the buffer has width * height words, none of them written |
| Png.Rows | src/ImageLoader.cpp:239-241 | converting positive-size image data fails only when the inflated data is shorter than the rows need, and otherwise has width * height pixels |
| Png.Reconstructed | src/ImageLoader.cpp:115-157 | the reconstructed image has height rows, each a filter byte plus width * bpp bytes |
| Png.DecodeImage | src/ImageLoader.cpp:228-241 | no width, height or image data gives MissingImage; a success has the header's size and width * height pixels after a successful inflate; exactly one negative dimension is NegativeSize; two negative ones give an image with no pixel written |
| Png.DecodeImagePixel | src/ImageLoader.cpp:159-187 | every pixel of a decoded image is read from its reconstructed row at byte 1 + x * bpp, at index y * width + x |
| Png.ReconstructedRow | src/ImageLoader.cpp:115-127 | row y of the reconstructed image starts at y * (stride + 1) in the inflated bytes and is the reconstruction of those bytes against the row above |
| Png.Decode | src/ImageLoader.cpp:189-245 | the signature fails exactly on short or wrong first eight bytes; a short header fails exactly when an IHDR before the first IEND is short; a success has a non-zero size whose signs agree and the IDAT data before IEND |
| Gif.ColorTableEntry | src/ImageLoader.cpp:247-255 | colour table entry i is opaque, with the red, green and blue bytes of triple i |
| Gif.SkipSubBlocks | src/ImageLoader.cpp:414-418 | skipping sub-blocks always moves forward, unless already at the end |
| Gif.FindImage | src/ImageLoader.cpp:404-422 | the scan finds an image only just past an image separator byte |
| Gif.GatherSubBlocks | src/ImageLoader.cpp:350-357 | gathering sub-blocks fails only on a sub-block that overruns the data |
| Gif.Pixels | src/ImageLoader.cpp:366-374 | the pixel buffer has the image's pixel count: the decoded indices' colours, then words never written |
| Gif.DecodeImage | src/ImageLoader.cpp:331-378 | an image reports the screen size; a success has the descriptor's pixel count and a minimum code size of at most 12; it fails on a short descriptor exactly when fewer than ten bytes follow |
| Gif.TableSize | src/ImageLoader.cpp:397-398 | without the global-table flag there is no table; with it the table has 2 to 256 entries |
| Gif.Decode | src/ImageLoader.cpp:380-426 | TooShort exactly below 13 bytes; BadSignature exactly when neither GIF87a nor GIF89a opens the file; ShortColorTable exactly when the announced table overruns; a success has the screen size |
| Gif.FirstImage | src/ImageLoader.cpp:404-422 | the first image after the colour table reports the screen size and fails only on the image's own errors |
| Gif.GatherEncoded | src/ImageLoader.cpp:350-357 | gathering written sub-blocks gives the bytes back |
| Gif.SkipEncoded | src/ImageLoader.cpp:414-418 | skipping written sub-blocks lands just past them |
| Gif.FindShift | src/ImageLoader.cpp:404-422 | the scan depends only on the bytes from where it starts |
| Gif.FindSkipsExtension | src/ImageLoader.cpp:409-418 | the scan passes over an extension's introducer, label and sub-blocks |
| Gif.FindTrailer | src/ImageLoader.cpp:419-420 | the scan stops without an image at a trailer |
| Gif.LoopsAgree | src/ImageLoader.cpp:380-426 | with the source's LZW loop the decoder fails as the corrected one does, except that it may still give a picture, or too many pixels, where the corrected one meets an empty entry; a corrected picture implies one from the source's loop of the same size, agreeing on every pixel the source's loop writes |
| Gif.ImageLoopsAgree | src/ImageLoader.cpp:331-378 | the same for one image: decoded pixels agree wherever the source's loop wrote one |
| Gif.PixelsPrefix | src/ImageLoader.cpp:366-374 | indices that are a prefix of others colour the pixels they reach alike |
| Gif.DecodeEncoded | src/ImageLoader.cpp:380-426 | decoding a written GIF89a file gives the screen size and, pixel by pixel, the palette colour of each index, opaque black past the table |
| Gif.DecodeWritten | src/ImageLoader.cpp:331-378 | the same for any LZW data that decompresses to the indices |
| ImageWidget.ToLower | src/ImageWidget.cpp:32 | lower-casing changes exactly the letters A to Z, to the matching small letters |
| ImageWidget.ExtensionOf | src/ImageWidget.cpp:30-39 | names shorter than four characters are unrecognised; png and gif are chosen only when the last four characters lower-case to .png or .gif |
| ImageWidget.LoadPng | src/ImageLoader.cpp:23-42 | loading a PNG succeeds exactly when the file exists and decodes |
| ImageWidget.LoadGif | src/ImageLoader.cpp:44-63 | loading a GIF succeeds exactly when the file exists and decodes with the source's LZW loop |
| ImageWidget.Release | src/ImageWidget.cpp:23-25 | an owned loader is released before it is replaced, and nothing else is |
| ImageWidget.LoadImage | src/ImageWidget.cpp:22-53 | the old loader is released first; a .png or .gif name uses only that decoder; any other name takes the PNG result when it decodes, else the GIF result when that decodes, and otherwise deletes the new loader and leaves no loader and owns nothing |
| ImageWidget.SetImageLoader | src/ImageWidget.cpp:55-62 | the widget takes the given loader and ownership flag after releasing an owned one |
| ImageWidget.ClearImage | src/ImageWidget.cpp:64-70 | clearing leaves no loader and no ownership, after releasing an owned one |
| ImageWidget.LoadReportsImage | src/ImageWidget.cpp:22-53 | the result of loading says whether the widget now shows an image |
| ImageWidget.OwnershipConsistent | src/ImageWidget.cpp:22-70 | loading, clearing and setting a loader keep ownership only with a loader present |
| ImageWidget.ExtensionIgnoresCase | src/ImageWidget.cpp:30-34 | letter case in the extension does not change the decoder chosen |
| ImageWidget.NoFallbackForPng | src/ImageWidget.cpp:34-35 | a file named .png that is not a PNG is never read as a GIF |
| ImageWidget.FallbackReachesGif | src/ImageWidget.cpp:41-47 | an unrecognised name holding a GIF fails the PNG attempt on the signature, so the GIF decoder decides |
| WidgetBase.CheckClick | src/Widget.cpp:10-15 | the base click test holds exactly when the point is inside the widget |
| WidgetBase.SetPosition | src/Widget.cpp:42-45 | moving a widget sets its position and keeps its size |
| WidgetBase.SetSize | src/Widget.cpp:47-50 | resizing a widget sets its size and keeps its position |
| WidgetBase.HasSelection | src/Widget.cpp:72-74 | a plain widget never has a selection |
| WidgetBase.AbsoluteXIsSum | src/Widget.cpp:76-81 | the absolute x is the sum of the relative x's from the widget up to the root |
| WidgetBase.AbsoluteYIsSum | src/Widget.cpp:83-88 | the absolute y is the sum of the relative y's from the widget up to the root |
| WidgetBase.MoveAncestor | src/Widget.cpp:76-88 | moving any ancestor by (dx, dy) moves the widget's absolute position by the same amount |
| WidgetBase.RootIsAbsolute | src/Widget.cpp:76-95 | a widget without a parent sits at its own coordinates, and contains a point exactly when its own rectangle does |
| WidgetBase.EmptyContainsNothing | src/Widget.cpp:90-95 | a widget with no width or no height contains no point |
| Common.ToInt32 | src/ImageLoader.cpp:215-216 | a 32-bit word stored into an int is its two's-complement reading: in the int32 range, congruent modulo 2^32, and negative exactly above 2^31 - 1 |
| TextLine.FromText | TextBox.cpp:242-251 | setting the text puts the cursor at its end with no selection |
| TextLine.SelectionStart | TextBox.cpp:323-326 | the selection start is -1 while either end is unset, and the lower end otherwise |
| TextLine.SelectionEnd | TextBox.cpp:328-331 | the selection end is -1 while either end is unset, and the upper end otherwise |
| TextLine.SelectionRange | TextBox.cpp:323-335 | there is a selection exactly when its start and end form a non-empty range of the text |
| TextLine.SelectedText | TextBox.cpp:314-321 | the selected text is empty without a selection, and otherwise the characters between the two ends |
| TextLine.InsertText | TextBox.cpp:117-118 | inserting keeps the text before the cursor and after it, puts the inserted text between them and moves the cursor past it |
| TextLine.DeleteSelection | TextBox.cpp:301-312 | deleting the selection erases the selected range, leaves the cursor at its start and clears both ends; without a selection nothing changes |
| TextLine.TypeChar | TextBox.cpp:110-124 | a typed character replaces any selection and is inserted at the cursor, which moves past it |
| TextLine.Backspace | TextBox.cpp:131-144 | Backspace deletes the selection, else the character before the cursor, else nothing |
| TextLine.DeleteForward | TextBox.cpp:145-156 | Delete deletes the selection, else the character at the cursor with the cursor staying, else nothing |
| TextLine.MoveLeft | TextBox.cpp:157-163 | Left moves back one place and clears the selection, except at the start |
| TextLine.MoveRight | TextBox.cpp:164-170 | Right moves forward one place and clears the selection, except at the end |
| TextLine.MoveHome | TextBox.cpp:171-175 | Home moves to the start and clears the selection |
| TextLine.MoveEnd | TextBox.cpp:176-180 | End moves to the end and clears the selection |
| TextLine.SelectAll | TextBox.cpp:424-431 | select-all selects the whole text with the cursor at its end |
| TextLine.Anchor | TextBox.cpp:196-202 | a press puts the cursor at the character index with a collapsed selection there |
| TextLine.DragTo | TextBox.cpp:216-223 | a drag moves the cursor and the selection's moving end, and keeps its anchor |
| TextLine.Collapse | TextBox.cpp:205-209 | a release forgets a selection that never opened and keeps any other |
| TextLine.ValidKept | TextBox.cpp:126-223 | every edit and cursor movement keeps the cursor and both selection ends inside the text |
| TextLine.DeleteSelectionUndone | TextBox.cpp:301-321 | re-inserting the selected text after deleting it restores the text, with the cursor at the selection's end |
| TextLine.TypeThenBackspace | TextBox.cpp:110-144 | Backspace undoes a typed character when nothing was selected |
| TextLine.SelectAllThenType | TextBox.cpp:110-124 | typing over a full selection replaces the whole text, and the whole text was selected |
| TextLine.LeftRightInverse | TextBox.cpp:157-170 | Left and Right undo each other away from the ends |
| TextLine.DragSelects | TextBox.cpp:196-223 | a press at one index and a drag to another select exactly the characters in between |
| TextBox.New | TextBox.cpp:9-18 | a new box is empty, unfocused, with no selection and no drag |
| TextBox.Changed | TextBox.cpp:120-122 | the change callback, when installed, receives the current text, and nothing else changes |
| TextBox.HandleChar | TextBox.cpp:110-124 | a printable character with focus types over the selection, ends a drag and is reported; anything else changes nothing |
| TextBox.HandleKey | TextBox.cpp:126-182 | a key does nothing without focus or on release; otherwise it ends a drag, each key acts as its editing operation, and a change is reported exactly when the text changed |
| TextBox.MouseButton | TextBox.cpp:184-211 | a press anchors a selection at the clicked character and starts a drag; a release inside, or while dragging, ends the drag and forgets an empty selection; any other release changes nothing; the text never changes |
| TextBox.MouseMove | TextBox.cpp:213-225 | while dragging with focus, a move extends the selection to the character under the mouse; otherwise nothing changes |
| TextBox.SetFocus | TextBox.cpp:227-236 | changing focus sets it and ends any drag, and changes nothing else |
| TextBox.SetText | TextBox.cpp:242-251 | setting the text puts the cursor at its end, clears the selection and reports the text |
| TextBox.SelectAll | TextBox.cpp:424-431 | select-all does nothing on empty text and otherwise selects exactly the whole text |
| TextBox.GetSelectedText | TextBox.cpp:314-321 | the box's selected text is its buffer's selected text |
| TextBox.ReportsKept | TextBox.cpp:110-182 | typing, keys and setting the text keep the last report equal to the current text: no change goes unreported |
| TextBox.ReportsKeptBySelection | TextBox.cpp:184-236 | the selection and focus operations neither change the text nor report |
| TextBox.NewIsValid | TextBox.cpp:9-18 | a new box keeps the invariant and has reported nothing |
| TextBox.DragSelection | TextBox.cpp:184-225 | press, drag and release select the characters between the two points, whichever way the drag went |
| TextBox.ClickLeavesNoSelection | TextBox.cpp:196-210 | a click without a drag leaves only the cursor at the click and no selection |
| TextBox.TypeThenErase | TextBox.cpp:110-144 | a typed character followed by Backspace restores the text and the cursor |
| TextLines.Split | src/MultiLineTextBox.cpp:290-358 | splitting a text at every line break gives at least one line |
| TextLines.JoinSplit | src/MultiLineTextBox.cpp:526-534 | joining the lines of a split text gives the text back |
| TextLines.SplitNoBreaks | src/MultiLineTextBox.cpp:290-358 | no line of a split text holds a line break |
| TextLines.SplitJoin | src/MultiLineTextBox.cpp:526-534 | splitting joined lines that hold no break gives the lines back |
| TextLines.OffsetRange | src/MultiLineTextBox.cpp:526-534 | the offset of a (line, column) place lies in the joined text; only the first place has offset 0 and only the last has the text's length |
| TextLines.OffsetOrdered | src/MultiLineTextBox.cpp:653-666 | places in (line, column) order have offsets in the same order, and conversely |
| TextLines.LineInText | src/MultiLineTextBox.cpp:526-534 | each line is the stretch of the joined text between its first and last offsets, followed by a break unless it is the last |
| TextLines.InsertInLine | src/MultiLineTextBox.cpp:433-435 | inserting into a line keeps its head and tail around the inserted text and leaves every other line alone |
| TextLines.EraseInLine | src/MultiLineTextBox.cpp:443-447 | erasing a character shortens only its line, by one |
| TextLines.BreakLine | src/MultiLineTextBox.cpp:189-194 | breaking a line at a column gives two lines that concatenate to it, the first as long as the column, with the other lines shifted |
| TextLines.MergeLines | src/MultiLineTextBox.cpp:148-151 | merging appends the next line to a line and shifts the later lines up by one |
| TextLines.RemoveRange | src/MultiLineTextBox.cpp:585-591 | removing a range joins the start line's head to the end line's tail and drops the lines between |
| TextLines.InsertFlat | src/MultiLineTextBox.cpp:426-436 | in the joined text, inserting into a line inserts at the place's offset |
| TextLines.EraseFlat | src/MultiLineTextBox.cpp:438-448 | in the joined text, erasing a character removes exactly the character at the place's offset |
| TextLines.BreakFlat | src/MultiLineTextBox.cpp:189-194 | in the joined text, breaking a line inserts a break at the place's offset |
| TextLines.MergeFlat | src/MultiLineTextBox.cpp:148-151 | in the joined text, merging two lines removes exactly the break between them |
| TextLines.RemoveRangeFlat | src/MultiLineTextBox.cpp:579-596 | in the joined text, removing a range removes exactly the characters between the offsets of its ends |
| MultiLineBuffer.Empty | src/MultiLineTextBox.cpp:9-22 | the empty buffer is well formed, with empty text, the cursor at 0 and no selection |
| MultiLineBuffer.Clear | src/MultiLineTextBox.cpp:558-563 | clearing the selection unsets both ends and changes nothing else |
| MultiLineBuffer.SelectionBounds | src/MultiLineTextBox.cpp:653-666 | the bounds are the two ends in (line, column) order, the anchor first on a tie |
| MultiLineBuffer.SelectionOffsets | src/MultiLineTextBox.cpp:574-577 | a selection is the non-empty stretch of the joined text between the offsets of its two ends, whichever way it was dragged |
| MultiLineBuffer.DeleteSelection | src/MultiLineTextBox.cpp:579-596 | deleting the selection removes exactly the characters between its offsets, leaves the cursor at its start and clears both ends; without a selection nothing changes |
| MultiLineBuffer.InsertChar | src/MultiLineTextBox.cpp:426-436 | typing inserts the character at the caret, which moves past it, and keeps every place valid |
| MultiLineBuffer.EraseBack | src/MultiLineTextBox.cpp:130-160 | Backspace deletes the selection, else the character or break before the caret with the caret moving back, else nothing |
| MultiLineBuffer.EraseAtCursor | src/MultiLineTextBox.cpp:438-448 | erasing at the cursor removes exactly the character at the caret and keeps the caret |
| MultiLineBuffer.JoinUp | src/MultiLineTextBox.cpp:147-153 | Backspace at a line start removes the break before the caret, moving the caret back by one |
| MultiLineBuffer.EraseForward | src/MultiLineTextBox.cpp:161-184 | Delete deletes the selection, else the character or break at the caret with the caret staying, else nothing |
| MultiLineBuffer.JoinDown | src/MultiLineTextBox.cpp:175-178 | Delete at a line end removes the break at the caret, keeping the caret |
| MultiLineBuffer.NewLine | src/MultiLineTextBox.cpp:185-194 | Enter deletes any selection and then inserts a break at the caret, adding one line |
| MultiLineBuffer.MoveLeft | src/MultiLineTextBox.cpp:450-462 | Left clears the selection and moves the caret back by one, across a break, except at the start |
| MultiLineBuffer.MoveRight | src/MultiLineTextBox.cpp:464-476 | Right clears the selection and moves the caret forward by one, across a break, except at the end |
| MultiLineBuffer.MoveUp | src/MultiLineTextBox.cpp:478-488 | Up clears the selection and moves to the previous line with the column clamped, never forward in the text |
| MultiLineBuffer.MoveDown | src/MultiLineTextBox.cpp:490-500 | Down clears the selection and moves to the next line with the column clamped, never backward in the text |
| MultiLineBuffer.MoveHome | src/MultiLineTextBox.cpp:502-508 | Home clears the selection and moves to the start of the cursor line |
| MultiLineBuffer.MoveEnd | src/MultiLineTextBox.cpp:510-516 | End clears the selection and moves to the end of the cursor line |
| MultiLineBuffer.SelectAll | src/MultiLineTextBox.cpp:782-791 | select-all anchors at the start, puts the cursor at the end, and selects something exactly when the text is not empty |
| MultiLineBuffer.Press | src/MultiLineTextBox.cpp:230-238 | a press puts the cursor and both selection ends at the place, selecting nothing |
| MultiLineBuffer.DragTo | src/MultiLineTextBox.cpp:256-259 | a drag moves the cursor and the moving end to the place and keeps the anchor |
| MultiLineBuffer.LeftRightInverse | src/MultiLineTextBox.cpp:450-476 | Left and Right undo each other away from the ends of the text |
| MultiLineBuffer.OffsetInjective | src/MultiLineTextBox.cpp:526-534 | two places with the same offset in the joined text are the same place |
| MultiLineBuffer.UpDownInverse | src/MultiLineTextBox.cpp:478-500 | Up then Down returns to the same place when the line above is long enough |
| MultiLineBuffer.HomeEndBracketLine | src/MultiLineTextBox.cpp:502-516 | Home and End bracket the cursor line in the joined text, with a break or the start just before Home and a break or the end at End |
| MultiLineBuffer.SelectAllThenDelete | src/MultiLineTextBox.cpp:579-596 | selecting everything and deleting it leaves one empty line with the cursor at its start |
| MultiLineBuffer.InsertThenEraseBack | src/MultiLineTextBox.cpp:130-146 | a typed character followed by Backspace restores the text and the caret |
| MultiLineBuffer.NewLineThenEraseBack | src/MultiLineTextBox.cpp:147-199 | Enter followed by Backspace restores the text and the caret |
| MultiLineTextBox.New | src/MultiLineTextBox.cpp:9-22 | a new box has one empty line, the cursor at its start, no selection, no focus and no scroll |
| MultiLineTextBox.Rebuild | src/MultiLineTextBox.cpp:526-534 | rebuilding makes the stored text the lines joined, and changes nothing else |
| MultiLineTextBox.UpdateScroll | src/MultiLineTextBox.cpp:518-524 | scrolling brings the cursor line into view by the least amount, and does not move when it is already in view |
| MultiLineTextBox.Measure | src/MultiLineTextBox.cpp:45-47 | the line height is the font height plus 4, and the visible line count is the number of whole lines that fit in the height less 4 |
| MultiLineTextBox.HandleChar | src/MultiLineTextBox.cpp:110-123 | with focus, a printable character types over the selection at the caret, and the rebuilt text is reported; anything else changes nothing |
| MultiLineTextBox.BackspaceKey | src/MultiLineTextBox.cpp:130-160 | Backspace erases back, then rebuilds, scrolls and reports when the text changed, and changes nothing at all otherwise |
| MultiLineTextBox.DeleteKey | src/MultiLineTextBox.cpp:161-184 | Delete erases forward, then rebuilds and reports without scrolling when the text changed, and changes nothing otherwise |
| MultiLineTextBox.EnterKey | src/MultiLineTextBox.cpp:185-199 | Enter breaks the line, rebuilds, scrolls and always reports |
| MultiLineTextBox.EditKey | src/MultiLineTextBox.cpp:130-199 | the edit keys keep the stored text equal to the joined lines and report exactly on Enter or a change of the text |
| MultiLineTextBox.MoveKey | src/MultiLineTextBox.cpp:200-212 | a cursor key moves the buffer without changing the text, and scrolls exactly when the cursor changed line |
| MultiLineTextBox.HandleKeyAsWritten | src/MultiLineTextBox.cpp:125-213 | keys are ignored without focus or on release; otherwise each key is its editing or movement handler and a drag in progress goes on |
| MultiLineTextBox.HandleKey | src/MultiLineTextBox.cpp:125-213 | the corrected handler acts on the buffer as the source does, ends any drag, keeps the invariant and reports exactly as the source does |
| MultiLineTextBox.HandleKeyCorrection | src/MultiLineTextBox.cpp:125-213 | the correction only ends the drag: the text, the cursor and the reports are those of the code as written |
| MultiLineTextBox.ClickedLineIsBand | src/MultiLineTextBox.cpp:226-227 | the clicked line is the one whose band of line height holds the mouse |
| MultiLineTextBox.CharIndex | src/MultiLineTextBox.cpp:536-556 | the column under the mouse is the first whose character's midpoint lies right of it, or the line's length when there is none |
| MultiLineTextBox.PlaceAt | src/MultiLineTextBox.cpp:229-232 | the place under the mouse is on the clicked line and is a place of the text |
| MultiLineTextBox.MouseButton | src/MultiLineTextBox.cpp:215-243 | a press inside on a line of the text anchors the cursor and both ends at the place under the mouse and starts a drag; a press below the text does nothing; anything else ends the drag; the text never changes |
| MultiLineTextBox.MouseMove | src/MultiLineTextBox.cpp:245-262 | while dragging with focus over a line of the text, the cursor and moving end follow the mouse; otherwise nothing changes |
| MultiLineTextBox.SetFocus | src/MultiLineTextBox.cpp:264-272 | focus is set, losing it ends any drag, and the text and buffer stay |
| MultiLineTextBox.SelectAll | src/MultiLineTextBox.cpp:782-791 | select-all selects the whole buffer without changing the text or reporting |
| MultiLineTextBox.WrapLines | src/MultiLineTextBox.cpp:290-358 | the unwrapped lines hold no break and there is at least one |
| MultiLineTextBox.WrapText | src/MultiLineTextBox.cpp:290-358 | the source's line-accumulating loop computes the text split at breaks, less a final empty line |
| MultiLineTextBox.WrapLinesJoin | src/MultiLineTextBox.cpp:290-358 | the wrapped lines join back to the text exactly when it does not end with a break |
| MultiLineTextBox.SetTextAsWritten | src/MultiLineTextBox.cpp:278-288 | the source's setText stores the text, takes the lines from the wrapper, resets cursor, scroll and selection and reports; the stored text is the joined lines exactly when it does not end with a break |
| MultiLineTextBox.SetText | src/MultiLineTextBox.cpp:278-288 | the corrected setText stores the text and lines that join back to it, resets cursor, scroll and selection and reports |
| MultiLineTextBox.ReportsKeptByChar | src/MultiLineTextBox.cpp:110-123 | typing keeps the last report equal to the stored text |
| MultiLineTextBox.ReportsKeptByKey | src/MultiLineTextBox.cpp:125-213 | keys keep the last report equal to the stored text: no change goes unreported |
| MultiLineTextBox.ReportsKeptBySetText | src/MultiLineTextBox.cpp:278-288 | setting the text reports it |
| MultiLineTextBox.NewIsValid | src/MultiLineTextBox.cpp:9-22 | a new box keeps the invariant and has reported nothing |
| MultiLineTextBox.DragAcrossJoin | src/MultiLineTextBox.cpp:125-262 | as written, Backspace during a drag leaves the anchor on a vanished line, so the next mouse move makes a selection that is not in the text |
| MultiLineTextBox.DragEndsOnKey | src/MultiLineTextBox.cpp:125-262 | with the correction the same key ends the drag, so the mouse move changes nothing |
| MultiLineTextBox.TrailingBreakLost | src/MultiLineTextBox.cpp:278-358 | as written, after setting "a\n" and typing x the text is "xa"; with the correction it is "xa\n" |
| ComboBox.New | src/ComboBox.cpp:8-20 | a new combo box has empty text and list, is closed, and has nothing hovered, selected or reported |
| ComboBox.SubstrErase | src/ComboBox.cpp:89-100 | the source's erase leaves the text alone without a selection, and throws exactly when the selection's upper end lies past the text |
| ComboBox.SubstrEraseValid | src/ComboBox.cpp:89-100 | on a valid buffer the source's erase never throws and deletes the selection as the text box does |
| ComboBox.AddItem | src/ComboBox.cpp:22-24 | adding appends the item to the list and changes nothing else |
| ComboBox.ClearItemsAsWritten | src/ComboBox.cpp:26-30 | clearing as written empties the list, resets scroll and selection, and keeps the hovered index |
| ComboBox.ClearItems | src/ComboBox.cpp:26-30 | the corrected clear also resets the hovered index, and otherwise equals the source's |
| ComboBox.SetSelectedIndexAsWritten | src/ComboBox.cpp:32-44 | indices outside -1 to n-1 are ignored; -1 only deselects; an item index copies the item into the text with the cursor at its end and reports it, leaving the selection ends as they were |
| ComboBox.SetSelectedIndex | src/ComboBox.cpp:32-44 | the corrected version does the same and also clears the selection, keeping the invariant |
| ComboBox.SetTextAsWritten | src/ComboBox.cpp:46-50 | setting the text as written pulls the cursor back into the new text and keeps the selection ends |
| ComboBox.SetText | src/ComboBox.cpp:46-50 | the corrected version also clears the selection, keeping the invariant |
| ComboBox.MenuHeight | src/ComboBox.cpp:102-105 | the menu is 25 pixels per visible item, at most eight, plus a border of 2 |
| ComboBox.ItemAt | src/ComboBox.cpp:107-127 | the item under the mouse is -1 or an item index, only inside the menu, and -1 for an empty list |
| ComboBox.ItemAtIsRow | src/ComboBox.cpp:107-127 | below the menu's top border, the mouse is over item i exactly when it lies in row i - scroll of the menu |
| ComboBox.BorderRowIsFirst | src/ComboBox.cpp:120-121 | the top border row counts as the first visible row, because C++ division truncates -1/25 to 0 |
| ComboBox.Open | src/ComboBox.cpp:478-484 | opening hovers the selected item and scrolls it to the middle of the window |
| ComboBox.Close | src/ComboBox.cpp:486-489 | closing closes the menu and unhovers |
| ComboBox.Toggle | src/ComboBox.cpp:468-476 | toggling an open menu closes it and keeps the hovered index; toggling a closed one opens it |
| ComboBox.Choose | src/ComboBox.cpp:386-393 | the corrected choice selects the item, replaces the text with it with no selection, reports it and closes the menu |
| ComboBox.HandleChar | src/ComboBox.cpp:306-322 | with focus, a printable character types over the selection and is reported; anything else changes nothing |
| ComboBox.EditKey | src/ComboBox.cpp:327-371 | cursor keys move as in the text box without reporting; Backspace and Delete edit as in the text box and always report |
| ComboBox.MenuKey | src/ComboBox.cpp:372-398 | with the menu open, Down and Up move the hovered item by one within the list, dragging the scroll window along, and Escape closes; otherwise nothing changes |
| ComboBox.EnterAsWritten | src/ComboBox.cpp:386-393 | Enter as written chooses the hovered item of an open menu through the source's setSelectedIndex |
| ComboBox.HandleKeyAsWritten | src/ComboBox.cpp:324-399 | keys are ignored without focus or on release; edit keys and Enter act as above, and a drag is never ended |
| ComboBox.HandleKey | src/ComboBox.cpp:324-399 | the corrected handler ends any drag first, keeps the invariant, and otherwise acts as the edit, menu and Enter handlers |
| ComboBox.MouseButton | src/ComboBox.cpp:401-436 | the corrected handler: a release ends the drag; a press on the button strip toggles; a press on a menu row chooses it; a press on the text anchors a selection; the invariant is kept |
| ComboBox.ChooseAsWritten | src/ComboBox.cpp:413-421 | choosing from the menu as written selects the item, copies it into the text and reports it, but keeps the old selection ends |
| ComboBox.MouseButtonAsWritten | src/ComboBox.cpp:401-436 | the source's handler: release ends the drag, the button strip toggles, a menu row goes through the source's choice |
| ComboBox.MouseMove | src/ComboBox.cpp:438-449 | while dragging with focus, the selection extends to the character under the mouse; with the menu open, the row under the mouse is hovered |
| ComboBox.SetFocus | src/ComboBox.cpp:451-458 | gaining focus changes nothing else; losing it ends a drag and drops the selection |
| ComboBox.SelectAll | src/ComboBox.cpp:538-542 | select-all selects the whole text, even when it is empty |
| ComboBox.NewIsValid | src/ComboBox.cpp:8-20 | a new combo box keeps the invariant |
| ComboBox.ValidKept | src/ComboBox.cpp:22-30 | the list, open, close, toggle, focus and select-all operations keep the invariant |
| ComboBox.EraseNeverThrows | src/ComboBox.cpp:89-100 | in the corrected model the erase behind typing and Backspace never throws |
| ComboBox.OpenShowsSelection | src/ComboBox.cpp:478-484 | opening on a selected item shows it in the scroll window |
| ComboBox.NavigationKeepsWindow | src/ComboBox.cpp:372-385 | Down and Up keep the hovered item in the scroll window and move it by one unless at the end of the list |
| ComboBox.EnterChoosesHovered | src/ComboBox.cpp:386-393 | Enter on a hovered item selects it, copies it into the text, reports it and closes the menu |
| ComboBox.StaleSelectionThrows | src/ComboBox.cpp:32-44 | as written, choosing a shorter item by Enter keeps a selection past the new text, so the next typed character's erase throws |
| ComboBox.MenuChoiceKeepsSelection | src/ComboBox.cpp:413-421 | the same defect reached through a mouse choice on the menu |
| ComboBox.DragAnchorOverrun | src/ComboBox.cpp:324-371 | as written, Backspace during a drag from the end of the text leaves the anchor past the end, and the next mouse move opens a selection whose erase throws |
| ComboBox.ClearKeepsHovered | src/ComboBox.cpp:26-30 | as written, clearing the list while an item is hovered lets Enter read an item from the empty list |
| ComboBox.HandleKeyCorrection | src/ComboBox.cpp:324-399 | the corrected key handler differs from the source's only in ending the drag first and, on Enter, in clearing the old selection |
| ComboBox.MouseButtonCorrection | src/ComboBox.cpp:401-436 | the corrected mouse handler differs from the source's only on a menu choice, where it also clears the old selection |
| ComboBox.CorrectionsKeepValid | src/ComboBox.cpp:26-399 | the corrected members keep the invariant that each of the defects breaks |
| ListBox.New | src/ListBox.cpp:5-23 | a new list is empty, with nothing selected or hovered, 25-pixel rows and as many visible rows as fit in the height less the border |
| ListBox.SelectedItem | src/ListBox.cpp:175-180 | an item is selected exactly when the selection is an index of the list, and it is that item |
| ListBox.GetSelectedItem | src/ListBox.cpp:175-180 | the selected item's text, or "" when the selection is not an item |
| ListBox.UpdateScroll | src/ListBox.cpp:192-200 | when every item fits, the list scrolls back to the top; a negative row count, which the unsigned comparison turns into a huge one, counts as everything fitting; otherwise nothing changes |
| ListBox.AddItem | src/ListBox.cpp:135-138 | adding appends the item and keeps the selection, scrolling to the top while everything fits or the row count is negative |
| ListBox.RemoveItem | src/ListBox.cpp:140-150 | removing an out-of-range index changes nothing; otherwise the item is erased and the selection follows its item, or is cleared with it |
| ListBox.ClearItems | src/ListBox.cpp:152-157 | clearing empties the list, deselects and scrolls to the top, keeping the row geometry |
| ListBox.SetSelectedIndex | src/ListBox.cpp:159-173 | indices outside -1 to n-1 are ignored; otherwise the index is selected and the window scrolls to show it, not moving when it is already shown |
| ListBox.SetItemHeight | src/ListBox.cpp:186-200 | changing the row height recomputes the visible rows with truncating division and keeps the items and selection; the list scrolls to the top when the new row count is negative or all items fit, and keeps its scroll offset otherwise |
| ListBox.ItemAt | src/ListBox.cpp:202-219 | the item under the mouse is -1 or an item index, and only inside the item area |
| ListBox.ItemAtIsRow | src/ListBox.cpp:202-219 | inside the item area the mouse is over item i exactly when it lies in row i - scroll, for an item at or below the scroll offset |
| ListBox.MouseButton | src/ListBox.cpp:102-120 | a press on an item, away from a scroll bar shown because the items overflow a non-negative row count, selects it and reports it, keeping the scroll; a press on that bar's track sets the scroll to the offset its change callback receives (src/ListBox.cpp:20-22); any other event changes nothing |
| ListBox.CheckHover | src/ListBox.cpp:86-100 | hovering sets only the hovered row, which is -1 outside the list or over the scroll bar strip |
| ListBox.ValidKept | src/ListBox.cpp:135-190 | every operation keeps the selection an item index or -1 |
| ListBox.RemoveKeepsSelection | src/ListBox.cpp:140-150 | removing an item other than the selected one keeps the same item selected |
| ListBox.RemoveSelected | src/ListBox.cpp:143-144 | removing the selected item leaves nothing selected |
| ListBox.AddKeepsSelection | src/ListBox.cpp:135-138 | appending never changes which item is selected |
| ListBox.SelectThenGet | src/ListBox.cpp:159-180 | selecting by index and reading back gives that item |
| ColumnLabel.Letter | src/TableGrid.cpp:142 | the letter for a digit d is the capital letter d places after A |
| ColumnLabel.ColumnLabelOf | src/TableGrid.cpp:139-146 | the source's do-while loop produces a well-formed label that names the column, and it is the column's label |
| ColumnLabel.LabelIsLabel | src/TableGrid.cpp:139-146 | every column label is non-empty and uses only the letters A to Z |
| ColumnLabel.SingleLetter | src/TableGrid.cpp:139-146 | a label is a single letter exactly for the first 26 columns |
| ColumnLabel.ValueOfLabel | src/TableGrid.cpp:139-146 | reading a column's label in bijective base 26 gives the column back |
| ColumnLabel.LabelOfValue | src/TableGrid.cpp:139-146 | every well-formed label is the label of the column it names |
| ColumnLabel.LabelInjective | src/TableGrid.cpp:139-146 | different columns have different labels |
| TableGrid.ColumnWidth | src/TableGrid.cpp:132-137 | a column of the width list has its stored width; any other index has the default width |
| TableGrid.CalculateVisible | src/TableGrid.cpp:82-96 | only the visible counts change: whole rows under the header (truncating division) and the columns from the scroll offset that fit |
| TableGrid.CountVisibleColumns | src/TableGrid.cpp:88-95 | the loop counts a run of columns from the offset whose widths fit the content width, and no longer run fits |
| TableGrid.FitIsLargest | src/TableGrid.cpp:88-95 | the visible columns are the longest run from the scroll offset whose total width fits |
| TableGrid.ColumnAtSpan | src/TableGrid.cpp:366-378 | the column the hit test finds is the one whose span from the scroll offset holds the point, and none past the last span |
| TableGrid.UpdateScroll | src/TableGrid.cpp:98-116 | the visible counts are recomputed and an axis whose cells all fit scrolls back to 0; cells, selection, editor and reports are kept |
| TableGrid.New | src/TableGrid.cpp:6-74 | a new grid is a rows-by-columns store of empty cells with default column widths, nothing selected and no scrolling |
| TableGrid.NewFitsContent | src/TableGrid.cpp:29-42 | the constructor's resize fits the widget to whole rows and columns plus headers, borders and scroll bars, and that fit is stable |
| TableGrid.GetCell | src/TableGrid.cpp:593-598 | a cell outside the store reads as "" |
| TableGrid.SetCell | src/TableGrid.cpp:587-591 | a write inside the store changes exactly that cell; a write outside it changes nothing |
| TableGrid.SetThenGet | src/TableGrid.cpp:587-598 | reading a cell after a write gives the written value at that cell and the old value elsewhere |
| TableGrid.SetRowCount | src/TableGrid.cpp:600-609 | counts below 1 are ignored; otherwise the kept rows keep their cells, new rows are empty, and the selection is left as it was |
| TableGrid.SetColCount | src/TableGrid.cpp:611-620 | counts below 1 are ignored; otherwise kept columns keep their cells and widths, new columns are empty with the default width |
| TableGrid.GrowThenShrinkRows | src/TableGrid.cpp:600-609 | adding rows and removing them again restores the store |
| TableGrid.GrowThenShrinkCols | src/TableGrid.cpp:611-620 | adding columns and removing them again restores the store and the widths |
| TableGrid.SetColumnWidth | src/TableGrid.cpp:629-634 | only an existing column and a positive width change a width, and the cells are kept |
| TableGrid.SetDefaultColumnWidth | src/TableGrid.cpp:636-640 | only a positive width becomes the default, and existing widths are kept |
| TableGrid.SetRowHeight | src/TableGrid.cpp:642-647 | only a positive height is taken, and the visible rows follow it |
| TableGrid.SetHeaderHeight | src/TableGrid.cpp:649-654 | only a positive height is taken, and the visible rows follow it |
| TableGrid.SetHeaderWidth | src/TableGrid.cpp:656-661 | only a positive width is taken, and the visible columns follow it |
| TableGrid.SetSelectedCell | src/TableGrid.cpp:622-627 | only a cell of the store can be selected; anything else changes nothing |
| TableGrid.CellX | src/TableGrid.cpp:118-125 | a column's left edge is past the border and row headers by the widths of the columns from the scroll offset |
| TableGrid.StartEdit | src/TableGrid.cpp:509-519 | editing starts only on a cell of the store, which becomes selected and whose text the editor receives |
| TableGrid.CommitAsWritten | src/TableGrid.cpp:530-541 | as written, a commit writes past the store exactly when editing with a selection that is no longer a cell |
| TableGrid.Commit | src/TableGrid.cpp:530-541 | corrected, a commit writes the editor's text to the selected cell and reports it, or drops the edit when the cell is gone; editing ends |
| TableGrid.EditWithoutTyping | src/TableGrid.cpp:509-541 | starting an edit and committing it untouched leaves the store as it was and reports the cell's own text |
| TableGrid.HandleCharAsWritten | src/TableGrid.cpp:445-454 | as written, a printable character writes past the store exactly when a stranded selection is not a cell |
| TableGrid.HandleChar | src/TableGrid.cpp:445-454 | while editing, characters go to the editor; otherwise a printable character replaces a selected cell's text and starts editing it |
| TableGrid.NavigateUp | src/TableGrid.cpp:476-481 | Up moves one row up unless on the first row and scrolls up to keep the selection in view |
| TableGrid.NavigateDown | src/TableGrid.cpp:482-487 | Down moves one row down unless on the last row and scrolls so the selection is the last visible row when it went below |
| TableGrid.NavigateLeft | src/TableGrid.cpp:488-493 | Left moves one column left unless on the first and scrolls left to keep it in view |
| TableGrid.NavigateRight | src/TableGrid.cpp:494-500 | Right moves one column right unless on the last, recounts the visible columns and scrolls by one when it passed them |
| TableGrid.Navigate | src/TableGrid.cpp:474-506 | with no edit in progress, each arrow key moves the selection within the store and Enter starts editing the selected cell; other keys do nothing |
| TableGrid.HandleKey | src/TableGrid.cpp:456-507 | releases do nothing; while editing, Enter and Tab commit and move down or right when there is room, Escape cancels, other keys go to the editor; the commit is the corrected `Commit`, which drops an edit whose cell is gone |
| TableGrid.SelectionStaysInStore | src/TableGrid.cpp:456-507 | a selection inside the store, or -1, stays so after any key |
| TableGrid.ScrollFollows | src/TableGrid.cpp:476-487 | after Up or Down the selected row is at or below the scroll offset, and after Down within the visible rows |
| TableGrid.TypeAndEnter | src/TableGrid.cpp:445-467 | typing a printable character on a selected cell and pressing Enter stores that one character and reports it |
| TableGrid.ShrinkThenType | src/TableGrid.cpp:448-451 | a selection stranded by a row shrink makes a typed character write past the store |
| TableGrid.ShrinkThenTypeCorrected | src/TableGrid.cpp:445-507 | corrected, a stranded selection ignores typing, and no key breaks the store's shape |
| TableGrid.CorrectionAgrees | src/TableGrid.cpp:445-541 | the corrected commit and typing agree with the source wherever its writes stay in the store |
| TableGrid.SelectAll | src/TableGrid.cpp:574-578 | select-all reaches the editor only while editing |
| TableGrid.HasSelection | src/TableGrid.cpp:580-585 | there is a selection exactly when editing and the editor has one |
| TableGrid.CellAt | src/TableGrid.cpp:348-379 | a hit is a cell of the store whose row band holds the mouse, away from the scroll bars |
| TableGrid.CheckHover | src/TableGrid.cpp:334-346 | hovering changes only the hovered cell, which is the cell hit when there is one |
| TableGrid.MouseButton | src/TableGrid.cpp:381-431 | a press on a cell commits any edit with the corrected `Commit` and selects the cell; a release on the selected cell starts editing it; a press on a shown bar's track runs its change callback (src/TableGrid.cpp:50-55, 62-67), which commits an edit of a selected cell, writing the editor's text to the cell and reporting it, and sets that bar's row or column offset; a thumb press or a release on a bar leaves the grid alone |
| TreeView.NewNode | src/TreeView.h:18-19 | a new node is collapsed and childless at the given depth |
| TreeView.HasChildren | src/TreeView.h:47-49 | a node has children exactly when its child list is non-empty |
| TreeView.ToggleExpanded | src/TreeView.h:43-45 | toggling flips the expanded flag and nothing else |
| TreeView.ToggleTwice | src/TreeView.h:43-45 | toggling twice gives the node back |
| TreeView.AddChild | src/TreeView.h:27-31 | adding appends a collapsed leaf one level deeper and keeps the earlier children |
| TreeView.AddChildDepths | src/TreeView.h:27-31 | adding a child keeps every child one level below its parent |
| TreeView.IndexOf | src/TreeView.h:34-35 | the search finds the first child with the identity, or -1 exactly when none has it |
| TreeView.RemoveChild | src/TreeView.h:33-41 | removing drops the first child with that identity and keeps the others in order; an absent one changes nothing |
| TreeView.RemoveCount | src/TreeView.h:33-41 | removing shortens the children by one exactly when the child is present |
| TreeView.AddThenRemove | src/TreeView.h:27-41 | adding a fresh child and removing it again gives the node back |
| TreeView.ToggleAt | src/TreeView.cpp:255-258 | toggling a node inside the tree keeps the shape of the tree above it |
| TreeView.ToggleAtTwice | src/TreeView.cpp:255-258 | toggling the same node twice gives the tree back |
| TreeView.ToggleAtOnly | src/TreeView.cpp:255-258 | toggling flips that node and leaves every other node's expansion as it was |
| TreeView.Entry | src/TreeView.cpp:47-56 | a node's entries start with the node itself at the running index |
| TreeView.EntryNumbered | src/TreeView.cpp:47-56 | a node's entries are numbered consecutively from the running index |
| TreeView.EntriesNumbered | src/TreeView.cpp:40-42 | the entries of a run of siblings are numbered consecutively |
| TreeView.VisualIndexIsPosition | src/TreeView.cpp:35-56 | each visible entry's index is its position in the list |
| TreeView.EntryPaths | src/TreeView.cpp:47-56 | a node's entries are its own path and the shown paths below it |
| TreeView.EntriesPaths | src/TreeView.cpp:40-42 | the entries of a run of siblings are those siblings and the shown paths below each |
| TreeView.VisibleExactlyShown | src/TreeView.cpp:35-56 | the visible list holds exactly the root's children and the descendants reached through expanded nodes |
| TreeView.EntriesValid | src/TreeView.cpp:35-56 | every visible entry leads to a node of the tree |
| TreeView.ShownLeads | src/TreeView.cpp:51-55 | every shown path leads to a node |
| TreeView.EntryPreOrder | src/TreeView.cpp:47-56 | a node's entries are in pre-order |
| TreeView.EntriesPreOrder | src/TreeView.cpp:40-42 | a run of siblings' entries are in pre-order |
| TreeView.SiblingRunsOrdered | src/TreeView.cpp:40-42 | paths under an earlier sibling come before paths under a later one |
| TreeView.VisibleInPreOrder | src/TreeView.cpp:35-56 | the visible list is in pre-order: a node, its shown descendants, then its later siblings |
| TreeView.EntriesAppend | src/TreeView.cpp:40-42 | appending a child appends its entries after the other children's |
| TreeView.UpdateScroll | src/TreeView.cpp:58-66 | when every entry fits, the view scrolls back to the top; otherwise it stays |
| TreeView.Rebuild | src/TreeView.cpp:35-45 | rebuilding makes the list agree with the tree and resets the scroll when everything fits |
| TreeView.New | src/TreeView.cpp:6-28 | a new view shows nothing, selects nothing and fits whole 25-pixel rows inside the border |
| TreeView.AddRootChild | src/TreeView.cpp:323-327 | a new leaf is added under the root with a fresh identity, and the list is rebuilt |
| TreeView.AddRootChildAppears | src/TreeView.cpp:323-327 | a new root child shows up as the last entry, after the entries that were there |
| TreeView.SetItemHeight | src/TreeView.cpp:337-341 | the visible count follows the new height and the tree and selection are kept |
| TreeView.SetSelectedNode | src/TreeView.cpp:329-331 | setting the selection changes only the selection, and reports nothing |
| TreeView.NodeAtPosition | src/TreeView.cpp:276-314 | a point picks an entry exactly when it lies inside the border, left of the scroll bar, and the scroll offset plus the whole rows above it is an entry; that sum is the entry picked; the icon is hit exactly when that entry's node has children and the point lies in its icon square, at the node's indent and centred in its row |
| TreeView.PickIsRow | src/TreeView.cpp:276-291 | inside the item area, a point picks entry k exactly when it lies in row k - scroll |
| TreeView.SetIndentWidth | src/TreeView.cpp:343-345 | only the indent per level changes |
| TreeView.SetExpandIconSize | src/TreeView.cpp:347-349 | only the icon size changes |
| TreeView.PickIcon | src/TreeView.cpp:294-306 | after setting the indent and an icon no taller than a row, a press on the top-left corner of a shown node's icon at the new indent, centred in its row, picks that node and its icon |
| TreeView.PickRow | src/TreeView.cpp:287-291 | a point in the left margin of a shown row picks that row's entry |
| TreeView.MouseButton | src/TreeView.cpp:240-268 | a press on a node's icon toggles it and rebuilds the list; a press elsewhere on a node selects and reports it, keeping the scroll; a press on the shown scroll bar's track sets the scroll to the offset its change callback receives (src/TreeView.cpp:23-25); a release, a thumb press and a press on no node change nothing |
| TreeView.CheckHover | src/TreeView.cpp:223-238 | hovering changes only the hovered node, which is the node under the point or none |
| FileDialog.ListDirectory | src/FileDialog.cpp:134-149 | the raw entries of a directory that opens, and none for one that does not |
| FileDialog.Join | src/FileDialog.cpp:91 | a child path is the directory, one slash, then the name |
| FileDialog.LastSlash | src/FileDialog.cpp:152 | the index of the last slash, or -1 exactly when there is none |
| FileDialog.ParentPath | src/FileDialog.cpp:151-157 | the parent is the prefix before the last slash when that slash is past the first character, and "/" otherwise |
| FileDialog.ParentOfJoin | src/FileDialog.cpp:151-157 | the parent of a child path is the directory it was joined to |
| FileDialog.ParentShrinks | src/FileDialog.cpp:151-157 | going up gives "/" or a strictly shorter path, so repeated ".." ends at the root |
| FileDialog.RootIsTop | src/FileDialog.cpp:151-157 | the root is its own parent |
| FileDialog.Insert | src/FileDialog.cpp:99-100 | inserting into a sorted run gives a sorted run with one more copy of the element |
| FileDialog.Sort | src/FileDialog.cpp:99-100 | sorting gives a sorted permutation of its input |
| FileDialog.SortedMembers | src/FileDialog.cpp:99-100 | sorting keeps exactly the same members |
| FileDialog.DirItems | src/FileDialog.cpp:88-97 | the directory items are exactly the kept entries that are directories, behind the marker |
| FileDialog.FileItems | src/FileDialog.cpp:88-97 | the file items are exactly the kept entries that are not directories |
| FileDialog.Populate | src/FileDialog.cpp:77-115 | the list is the marked directories in sorted order, then the files in sorted order, each exactly the kept entries of its kind |
| FileDialog.PopulateComplete | src/FileDialog.cpp:77-115 | every entry other than "." and ".." appears in the list, in the directory part or the file part by its kind |
| FileDialog.New | src/FileDialog.cpp:12-66 | a new dialog is open with no selection, in the working directory for "." or "", else the given path, showing its listing |
| FileDialog.NavigateTo | src/FileDialog.cpp:117-132 | an existing directory that resolves becomes the current directory by its resolved name and is listed; anything else changes nothing |
| FileDialog.GoUp | src/FileDialog.cpp:31-36 | the ".." button navigates to the parent path |
| FileDialog.SelectItemAsWritten | src/FileDialog.cpp:167-179 | as written, an item with the marker is entered as a directory; any other item fills the name box and becomes the selected file |
| FileDialog.SelectItem | src/FileDialog.cpp:167-179 | corrected, a position in the directory part enters that directory and a position in the file part selects that file |
| FileDialog.SelectFileSelects | src/FileDialog.cpp:172-177 | selecting a file's position selects that file, whatever its name |
| FileDialog.EnterThenUp | src/FileDialog.cpp:31-36 | entering a listed directory and pressing ".." returns to the directory, when paths resolve to themselves |
| FileDialog.MarkedFileSystem | src/FileDialog.cpp:88-97 | a directory holding one regular file whose name starts with the marker |
| FileDialog.MarkedFileIsNotSelected | src/FileDialog.cpp:168-171 | a file named like a directory item is listed as a file, but selecting it as written selects nothing; by position it is selected |
| FileDialog.ChosenPath | src/FileDialog.cpp:189-193 | an absolute name is taken as it is; any other name is joined to the current directory |
| FileDialog.Ok | src/FileDialog.cpp:181-210 | an empty name does nothing; in open mode a missing file or a directory is refused with the dialog open; otherwise the file is reported and the dialog closes |
| FileDialog.Cancel | src/FileDialog.cpp:212-216 | cancelling clears the selection and closes the dialog, changing nothing else |
| Canvas.New | src/Canvas.cpp:5-22 | the drawing area is the widget less its border, at least 1 by 1, filled with the background colour |
| Canvas.Clear | src/Canvas.cpp:213-217 | clearing sets every pixel of the area to the colour |
| Canvas.SetPixel | src/Canvas.cpp:101-105 | a point inside the area gets the colour and every other pixel is kept; a point outside changes nothing |
| Canvas.PlotPixels | src/Canvas.cpp:101-105 | plotting a list of points colours exactly the listed points that lie inside the area |
| Canvas.FillRect | src/Canvas.cpp:146-157 | exactly the pixels of the area inside the rectangle get the colour, and the others are kept |
| Canvas.FillSpan | src/Canvas.cpp:153-155 | the inner loop colours exactly the columns of the span in one row |
| Canvas.RectPointsAreOutline | src/Canvas.cpp:132-144 | the points the rectangle loops plot are exactly the points on its outline |
| Canvas.DrawRect | src/Canvas.cpp:132-144 | exactly the outline pixels inside the area get the colour, and the others are kept |
| Canvas.LineAdvanceSound | src/Canvas.cpp:118-128 | each step of Bresenham's loop keeps its error invariant, moves x or y or both by one toward the end point, and gets closer to it |
| Canvas.LinePoints | src/Canvas.cpp:107-130 | the loop ends; its points run from the start to the end point, each a step of one toward the end, and there are at most dx + dy + 1 of them |
| Canvas.DrawLine | src/Canvas.cpp:107-130 | exactly the points of the line's path get the colour inside the area: a chain of single steps toward the end that starts at the start point and ends at the end point, so both endpoints are painted when inside |
| Canvas.CircleOffsets | src/Canvas.cpp:161-183 | the loop ends; its offsets start at (radius, 0) and each moves by a midpoint step, staying in the first octant |
| Canvas.CircleSymmetric | src/Canvas.cpp:166-173 | every point the circle plots comes with its reflections across both axes and the diagonal about the centre |
| Canvas.DrawCircle | src/Canvas.cpp:159-184 | exactly the circle's points inside the area get the colour; a circle of non-negative radius includes the four axis points, and the plotted points are closed under swapping the axes about the centre and mirroring across either axis |
| Splitter.Clamp | src/Splitter.cpp:159-169 | a position inside the allowed range is kept; one below goes to the minimum and one above to the maximum, and the upper bound wins when the range is empty |
| Splitter.ClampIdempotent | src/Splitter.cpp:159-169 | clamping twice is clamping once |
| Splitter.UpdatePanels | src/Splitter.cpp:32-46 | the first panel ends at the divider, the second starts past it, and the two panels and the divider add up to the whole size |
| Splitter.New | src/Splitter.cpp:4-25 | the divider starts at half the width or height (truncating), 6 wide, with 50-pixel minimum panels that fit |
| Splitter.OnDivider | src/Splitter.cpp:48-61 | the mouse is on the divider exactly inside its half-open band across the widget |
| Splitter.SetDividerPosition | src/Splitter.cpp:159-169 | the divider goes to the clamped position and the panels follow it |
| Splitter.SetPositionRespectsMinimum | src/Splitter.cpp:159-169 | when the range is not empty, both panels keep at least the minimum size after a set |
| Splitter.MouseMove | src/Splitter.cpp:98-130 | hovering follows the divider test; while dragging the divider follows the clamped mouse position and the panels stay fitted |
| Splitter.DragTo | src/Splitter.cpp:105-123 | a drag moves the divider to the clamped mouse position less half the divider width, and the panels follow |
| Splitter.DragMatchesSet | src/Splitter.cpp:98-169 | a drag puts the divider where setting the position for the same point would |
| Splitter.MouseButton | src/Splitter.cpp:132-141 | a press on the divider starts a drag and any release ends it |
| Splitter.DragSession | src/Splitter.cpp:98-141 | a press on the divider, a move and a release leave the divider at the clamped release point with the drag over |
| Splitter.SetMinPanelSize | src/Splitter.cpp:171-174 | the minimum changes, the divider stays, and the panels are refitted |
| Splitter.SetDividerWidth | src/Splitter.cpp:184-187 | the width changes, the divider stays, and the panels are refitted |
| Splitter.HoverKeepsFit | src/Splitter.cpp:98-99 | hovering never breaks the panel fit |
| TabbedPanel.New | src/TabbedPanel.cpp:5-20 | a new panel has no tabs and no active tab |
| TabbedPanel.AddTab | src/TabbedPanel.cpp:28-45 | a tab is appended whose panel fills the content area under the header, whatever its frame was, and the first tab becomes active |
| TabbedPanel.FirstTabActive | src/TabbedPanel.cpp:41-44 | only the first tab added changes the active tab, to 0 |
| TabbedPanel.SwitchToTab | src/TabbedPanel.cpp:47-51 | only an index of a tab becomes active; anything else changes nothing |
| TabbedPanel.ActivePanel | src/TabbedPanel.cpp:53-58 | there is an active panel exactly when the active index is a tab |
| TabbedPanel.TabWidth | src/TabbedPanel.cpp:60-63 | the tabs share the width equally, truncating, and with no tabs the width is 0 |
| TabbedPanel.ClickedTab | src/TabbedPanel.cpp:65-85 | a clicked tab is an index of a tab and lies in the header; with tab width 0 none is clicked |
| TabbedPanel.ClickedTabIsBand | src/TabbedPanel.cpp:77-83 | inside the header, tab i is clicked exactly when the mouse lies in its band |
| TabbedPanel.Forward | src/TabbedPanel.cpp:165-205 | an event reaches the active panel only, and is dropped when there is none |
| TabbedPanel.MouseButton | src/TabbedPanel.cpp:172-189 | a press on a tab switches to it and is not forwarded; any other button event goes to the active panel |
| TabbedPanel.MouseMove | src/TabbedPanel.cpp:165-170 | a move is forwarded and changes no tab |
| TabbedPanel.HandleChar | src/TabbedPanel.cpp:191-197 | a character goes to the active panel only, and changes no tab |
| TabbedPanel.HandleKey | src/TabbedPanel.cpp:199-205 | a key event goes to the active panel only, and changes no tab |
| TabbedPanel.ValidKept | src/TabbedPanel.cpp:28-205 | every operation keeps the active index a tab, or -1 with no tabs |
| StatusBar.Room | src/StatusBar.cpp:66 | each section takes its width plus the 10-pixel gap |
| StatusBar.SlotOf | src/StatusBar.cpp:64-65 | a section's slot is 3 pixels down, its own width wide and the bar's height less 6 high |
| StatusBar.New | src/StatusBar.cpp:4-14 | a new bar has no sections and a frame and panel of the given height |
| StatusBar.PlacePositions | src/StatusBar.cpp:61-68 | section k is placed at 5 plus the widths and gaps of the sections before it |
| StatusBar.PlaceSlots | src/StatusBar.cpp:61-68 | the layout loop gives every section its slot |
| StatusBar.SlotsAdjacent | src/StatusBar.cpp:66 | each next section starts 10 pixels after the previous one ends |
| StatusBar.SlotsDisjoint | src/StatusBar.cpp:61-68 | with non-negative widths, sections never overlap and keep their order |
| StatusBar.Update | src/StatusBar.cpp:61-68 | laying out keeps every section's text and colour and puts each in its slot |
| StatusBar.UpdateIdempotent | src/StatusBar.cpp:61-68 | laying out a laid-out bar changes nothing |
| StatusBar.AddSection | src/StatusBar.cpp:40-47 | a new empty black section is appended and all sections are laid out again, keeping their texts and colours |
| StatusBar.SetSection | src/StatusBar.cpp:49-53 | only an index of a section changes, only in its text; out of range nothing changes |
| StatusBar.SetSectionColor | src/StatusBar.cpp:55-59 | only an index of a section changes, only in its colour; out of range nothing changes |
| StatusBar.SettersCommute | src/StatusBar.cpp:49-59 | setting a text and a colour gives the same bar in either order |
| StatusBar.SettersKeepLayout | src/StatusBar.cpp:49-59 | the setters keep the layout |
| StatusBar.Resize | src/StatusBar.cpp:33-38 | a resize spans the window width at the bottom of the window and lays out the sections again |
| MenuBar.Advances | src/MenuBar.cpp:57 | each menu takes its width plus the 5-pixel gap |
| MenuBar.New | src/MenuBar.cpp:4-9 | a new bar has the given frame and no menus |
| MenuBar.Add | src/MenuBar.cpp:61-70 | a menu is appended at x = 5 plus the widths and gaps of the earlier menus, y = 2, keeping the earlier menus |
| MenuBar.AddLaysOut | src/MenuBar.cpp:61-70 | adding to a laid-out bar leaves it laid out |
| MenuBar.LayOutAt | src/MenuBar.cpp:54-58 | the layout loop puts menu k at the start plus the widths and gaps of the menus before it |
| MenuBar.Resize | src/MenuBar.cpp:47-59 | a resize takes the window width, moves to the bottom only when anchored there, and lays out the menus again |
| MenuBar.ResizeLaysOut | src/MenuBar.cpp:47-59 | after a resize the menus are laid out |
| MenuBar.ResizeKeepsLayout | src/MenuBar.cpp:47-59 | a resize of a laid-out bar leaves the menus where add put them |
| MenuBar.CloseOthers | src/MenuBar.cpp:75-79 | every menu but the clicked one is closed |
| MenuBar.OffHeader | src/MenuBar.cpp:81-87 | an open menu clicked off its header handles a click in its area and closes otherwise; a closed one is unchanged |
| MenuBar.ClickFrom | src/MenuBar.cpp:72-89 | the click loop keeps every menu's frame |
| MenuBar.Click | src/MenuBar.cpp:72-89 | a click keeps the bar's frame and every menu's frame |
| MenuBar.HeaderClick | src/MenuBar.cpp:74-80 | a click on one menu's header toggles it and leaves every other menu closed |
| MenuBar.ClickOffHeaders | src/MenuBar.cpp:81-87 | a click on no header treats every menu as an off-header click |
| MenuBar.MouseMove | src/MenuBar.cpp:91-96 | each header's hover flag says whether the mouse is over it, then its menu takes the move; a closed menu changes only its hover flag; the bar keeps its frame |
| ContextMenu.NewItem | ContextMenu.cpp:17-20 | a new item carries its text, is not hovered, and is numbered when added |
| ContextMenu.New | ContextMenu.cpp:5-9 | a new menu is closed, empty and sized zero, with the given row width and height |
| ContextMenu.Add | ContextMenu.cpp:17-20 | an item is appended and numbered by its position, keeping every item numbered by position |
| ContextMenu.Open | ContextMenu.cpp:69-75 | opening places the menu at the point, menu-width wide and one row per item high |
| ContextMenu.OpenCoversCorner | ContextMenu.cpp:69-90 | a non-empty menu opened at a point holds that point in its area |
| ContextMenu.Close | ContextMenu.cpp:77-79 | closing only clears the open flag |
| ContextMenu.FirstHit | ContextMenu.cpp:98-106 | the search finds the first row holding the point, or -1 when no row does |
| ContextMenu.FirstHitIsRow | ContextMenu.cpp:98-106 | with positive row height, the row found is the whole rows from the top to the point, inside the menu column, else -1 |
| ContextMenu.Click | ContextMenu.cpp:92-109 | a click is taken exactly when the menu is open and a row holds the point; that item fires once and the menu closes; otherwise nothing changes |
| ContextMenu.ClickConsumedInArea | ContextMenu.cpp:81-109 | a click is taken exactly when it falls in the open menu's area |
| ContextMenu.MouseMove | ContextMenu.cpp:55-67 | while open, exactly the items whose rows hold the point are hovered; while closed nothing changes |
| ContextMenu.HoverUnique | ContextMenu.cpp:55-67 | at most one item is hovered after a move |
| CascadeMenu.CloseActiveSubmenu | CascadeMenu.cpp:38-44 | the active submenu is closed and there is no active row; with none active nothing changes |
| CascadeMenu.OpenSubmenu | CascadeMenu.cpp:46-61 | only a row with a submenu opens it, beside the menu at its row, after closing the previous one; others are kept |
| CascadeMenu.HoverAct | CascadeMenu.cpp:91-100 | hovering a row with a submenu makes it the active one; hovering a plain row leaves none active |
| CascadeMenu.Hovered | CascadeMenu.cpp:84-89 | exactly the rows holding the point are marked hovered |
| CascadeMenu.HoverFromActsOnce | CascadeMenu.cpp:84-101 | the hover loop acts on the first row holding the point and leaves the submenus alone when none does |
| CascadeMenu.RowsDisjoint | CascadeMenu.cpp:85-87 | no point lies in two rows |
| CascadeMenu.New | CascadeMenu.cpp:19-21 | a new cascade is an empty context menu with no active submenu |
| CascadeMenu.Add | ContextMenu.cpp:17-20 | an item is appended with its submenu, if any, and the active row is kept |
| CascadeMenu.Open | ContextMenu.cpp:69-75 | opening opens the menu at the point |
| CascadeMenu.Close | CascadeMenu.cpp:148-151 | closing closes every submenu and the menu, with no active row, and keeps the items and reports |
| CascadeMenu.MouseMove | CascadeMenu.cpp:71-103 | over the open submenu the move goes to it; elsewhere the rows are hovered and submenus opened or closed by the row under the point |
| CascadeMenu.HoverOpensRowSubmenu | CascadeMenu.cpp:84-101 | after a move off the submenu, exactly the rows holding the point are hovered, a hovered row's submenu is open and active, and a plain row closes it |
| CascadeMenu.Click | CascadeMenu.cpp:105-136 | over the submenu the click is the submenu's: when taken, the submenu records it and the whole menu closes without firing its own item; when refused, nothing changes; a cascade row does nothing; a plain row fires once and closes the menu |
| DropDownMenu.New | DropDownMenu.cpp:14-19 | a new menu is closed and empty with a 150-pixel menu and no submenu |
| DropDownMenu.Add | DropDownMenu.cpp:27-30 | an item is appended and numbered by its position |
| DropDownMenu.Toggle | DropDownMenu.cpp:130-135 | toggling flips the open state, and closing also closes the active submenu |
| DropDownMenu.ToggleTwice | DropDownMenu.cpp:130-135 | toggling twice from closed gives the menu back; from open it stays open with no submenu |
| DropDownMenu.Open | DropDownMenu.cpp:137-139 | opening sets only the open flag |
| DropDownMenu.Close | DropDownMenu.cpp:141-144 | closing leaves the menu closed with every submenu closed and none active |
| DropDownMenu.CheckHover | DropDownMenu.cpp:126-128 | the header is hovered exactly when the point lies inside it |
| DropDownMenu.MouseMove | DropDownMenu.cpp:162-194 | while open and off the submenu, the rows below the header are hovered as in a cascade menu; while closed nothing changes |
| DropDownMenu.MenuClick | DropDownMenu.cpp:196-225 | over the submenu the click is the submenu's: when taken, the submenu records it and the whole menu closes without firing its own item; when refused, nothing changes; a cascade row does nothing; a plain row fires once and closes the menu |
| DropDownMenu.FiringClickInArea | DropDownMenu.cpp:146-225 | a click that fires an item lies in the menu's area |
| BooleanWidget.New | BooleanWidget.cpp:4-9 | a new widget is unchecked and has reported nothing |
| BooleanWidget.Notify | BooleanWidget.cpp:58-62 | a report carries the current state and is made only with a callback |
| BooleanWidget.Toggle | BooleanWidget.cpp:18-21 | toggling negates the state and always reports the new state |
| BooleanWidget.SetChecked | BooleanWidget.cpp:23-28 | setting changes the state and reports it only when it differs |
| BooleanWidget.ReportsFollowState | BooleanWidget.cpp:18-28 | the last report always names the current state |
| BooleanWidget.ToggleTwice | BooleanWidget.cpp:18-21 | toggling twice restores the state and reports both changes |
| BooleanWidget.SetCheckedIdempotent | BooleanWidget.cpp:23-28 | setting the same state twice is setting it once |
| RadioButton.New | src/RadioButton.cpp:6-8 | a new button is unchecked with a 16-pixel circle, 20 high |
| RadioButton.NewSized | src/RadioButton.cpp:10-12 | a sized button is unchecked and as high as its circle |
| RadioButton.SetCircleSize | src/RadioButton.cpp:85-88 | the circle size also becomes the height, and the state is kept |
| RadioButton.UncheckOthers | src/RadioButton.cpp:69-75 | every other group member ends unchecked, unchecked ones and non-members are untouched |
| RadioButton.Toggle | src/RadioButton.cpp:67-79 | a checked button changes nothing; otherwise the button ends checked |
| RadioButton.ExclusiveAfterToggle | src/RadioButton.cpp:67-79 | after a toggle the button is the only checked member of its group |
| RadioButton.ToggleKeepsAtMostOne | src/RadioButton.cpp:67-79 | a group with at most one checked member keeps that property |
| RadioButton.ToggleFrame | src/RadioButton.cpp:69-77 | buttons outside the group are untouched, and the button reports being checked once |
| RadioButton.OthersNotified | src/RadioButton.cpp:72 | a member that was checked is unchecked and reports it; one that was not is untouched |
| Bytes.ReadBE32 | src/ImageLoader.cpp:65-67 | the first byte is the word's top byte and the last byte its low byte |
| Bytes.ReadLE16 | src/ImageLoader.cpp:69-71 | the result is a 16-bit value whose low byte is the first byte and high byte the second |
| Png.RowPixels | src/ImageLoader.cpp:171-184 | a reconstructed row gives exactly `width` pixels, pixel x read from its own bytes |
| Gif.DecodeReachesImage | src/ImageLoader.cpp:380-408 | a file with a good header whose first block is an image decodes that image with the global table and the screen size |
| Gif.DecodeIsFirstImage | src/ImageLoader.cpp:397-422 | past a good header and a complete colour table, decoding a file is decoding its first image |
| Gif.DecodeImageOk | src/ImageLoader.cpp:331-378 | an image whose sub-blocks and codes decode cleanly gives its indices' colours |
| MultiLineBuffer.ErasePrevious | src/MultiLineTextBox.cpp:130-160 | with no selection, Backspace removes the one character or break before the caret and moves the caret back; at the start nothing changes |
| ImageWidget.ExtensionExamples | src/ImageWidget.cpp:30-39 | upper-case and mixed-case extensions dispatch to their decoder, and an unknown or partial one to neither |

## Left out

- Drawing: every `draw`, `drawNode`, `drawCell` and similar method, fonts and `setFontRenderer`, and the colour and label setters. They only paint the buffer or store a value that nothing modelled reads.
- zlib inflation (src/ImageLoader.cpp:73-113): it is a library call, so `Png.Decode` takes inflation as a function parameter that yields the inflated bytes or fails.
- File reading, `opendir`/`readdir`/`stat`/`realpath` and `getcwd`: these are operating-system calls. `ImageWidget.LoadImage` takes file reading as a function parameter, the FileDialog members take a `FileSystem` value (kinds, listings and resolved paths), and `FileDialog.New` takes the working directory as a parameter.
- The `std::cout`/`std::cerr` logging throughout the source is dropped, because it has no effect on the widgets' state.
- C++ `int` is modelled as an unbounded `int`. Wrap-around is written out in two places: `Common.ToInt32` for the PNG width and height read as 32-bit words, and `Gif.TooManyPixels` for a GIF width times height past `INT_MAX`. Every other product and sum is unbounded, including the PNG buffer arithmetic below and sums of widget coordinates.
- Png.DecodeImage: the `int` products `width * height` (src/ImageLoader.cpp:162), the stride `width * bytesPerPixel` (116, 164) and the row offsets `y * (stride + 1)` (119, 125, 167) and `y * width + x` (170) overflow for large enough dimensions. The model computes them unbounded, so it describes only images whose buffer sizes fit in an `int`.
- Png.Decode: a truncated zlib stream makes `inflate` return `Z_BUF_ERROR`, which the loop of `decompressIDAT` (src/ImageLoader.cpp:91-104) neither stops on nor treats as an error, so it never ends. The `inflate` parameter can only succeed or fail, so the model has no non-terminating case.
- Png.DecodeImage: the source never checks the inflated length against `height * (stride + 1)` (src/ImageLoader.cpp:118-130, 240-241) and reads past the buffer. The model returns `Err(ShortImageData)` there instead.
- Png.DecodeImage: a colour type other than 2 or 6 is treated as 3 bytes per pixel (src/ImageLoader.cpp:239), as in the source. The conversion writes no pixel for it, so every pixel is `None` (never written).
- Png.DecodeImage: when exactly one dimension is negative once stored in an `int`, the source indexes out of bounds or `new[]` throws. The model returns `Err(NegativeSize)`. When both are negative the model decodes as the source does, to an empty image.
- Gif.DecodeImage: the image descriptor's local-colour-table flag (src/ImageLoader.cpp:339-343 reads the descriptor) is ignored, as in the source, so a local table's bytes are read as the minimum code size and sub-blocks.
- Gif.DecodeImage: the source does not check the minimum code size (src/ImageLoader.cpp:348); above 12 it writes past the 4096-entry table. The model returns `Err(CodeSizeTooLarge)` there.
- Lzw.Step: a code above the next free code becomes the previous code unchecked (src/ImageLoader.cpp:308-316). When such a stale code's entry is empty and the next code uses it, the source reads an empty string's first byte; the model halts with `BadCode`.
- Gif.DecodeImage: the decoded image takes the logical screen's width and height (src/ImageLoader.cpp:388-389) while the pixel buffer has the image descriptor's size (366), as in the source. The model keeps both sizes; drawing with the mismatch is not modelled.
- LzwReference.DecompressMatchesReference: requires a minimum code size from 2 to 11, so that codes can still widen. Size 12 and the table-full state are covered by `Lzw.DecompressCompress` only.
- Canvas: `fillCircle`, `handleMouseButton`, `handleMouseMove` and the draw and mouse callbacks. They are pixel fills and forwarding to user callbacks that the model does not own.
- TreeView.Valid: the source lets the program call `TreeNode::addChild`, `removeChild` and `toggleExpanded` directly on node pointers, which leaves `visibleNodes` stale, and after `removeChild` dangling. The model rebuilds the visible list after every change, so it cannot reach that state.
- TreeView: `handleMouseMove` and the scroll bar's dragging. They only move the scroll offset through the scroll bar widget, which is not modelled.
- CascadeMenu: nested cascades. `handleMouseMove` and `close` are virtual (src/ContextMenu.h:24, 28), so a CascadeMenu used as a submenu would dispatch to its own versions. The model's submenus are plain context menus.
- TextBox: copy, cut and paste (TextBox.cpp:337-422) use the system clipboard, and `adjustTextOffset`, `getCursorPixelPosition` and `getCharacterIndexAtPosition` use glyph widths. Glyph widths and the character index under the mouse enter as parameters.
- ComboBox: copy, cut and paste (src/ComboBox.cpp:491-536) use the clipboard, and `adjustTextOffset` uses glyph widths.
- MultiLineTextBox: the model's `wrapText` is the source's with a font renderer set and every line narrower than the box: it splits at line breaks only. Splitting at spaces by pixel width needs glyph widths and is left out, as is `checkAndWrapCurrentLine`. With no renderer the source keeps the whole text, breaks included, as one line (src/MultiLineTextBox.cpp:299-303); that branch is not modelled.
- MultiLineTextBox: `getSelectedText`, copy, cut and paste (src/MultiLineTextBox.cpp:598-780) use the clipboard. Shift-extended selection through the arrow keys is also left out.
- ListBox: `handleMouseMove` and `setSelectionCallback`. The first only forwards to the scroll bar; the second stores a callback, which the model replaces with an event log.
- TableGrid: copy, cut and paste (the clipboard), `handleMouseMove` (forwarding to the editor and scroll bars) and `positionTextBoxForCell` (the editor's frame).
- TableGrid.MouseButton: while editing, the source then forwards the button event to the cell editor (src/TableGrid.cpp:427-430), which anchors or ends a selection in the edited text. The model does not forward it, because the character under the mouse depends on glyph widths and the editor's frame, which are not modelled; the editor's text and the grid's cells are unaffected either way.
- TableGrid.New: requires non-negative row and column counts. A negative count is converted to a huge unsigned size by `resize` (src/TableGrid.cpp:21-27), which throws; the model does not describe the exception.
- ScrollBar internals: a scroll bar is reduced to what its owner sees of a button event, `Common.BarResponse`: either nothing, or the offset its change callback receives after a track press. The caller gives that offset; how it follows from the mouse position through the bar's floating-point value (ScrollBar.cpp:117-128, 179-200) is not modelled, and neither are the bars' hover and drag state.
- FileDialog: `handleMouseButton` and `handleMouseMove` (src/FileDialog.cpp:226-262) forward events to the child list box, text box and buttons. Their effects are modelled directly as `SelectItem`, `Ok` and `Cancel`.
- Splitter: `handleChar` and `handleKey` forward the event to both panels, and `setFontRenderer` forwards the renderer; the panels' own reactions are outside the model.
- TabbedPanel: `TabbedPanel.Forward` names the panel that receives an event; that panel's own reaction is outside the model.
- StatusBar: `handleMouseMove` only forwards the event to the bar's panel.
- BooleanWidget: `checkHover` and `setLabel` only set drawing state.
- Callbacks: every `std::function` callback is modelled as an entry appended to an event log. What the callback does is outside the model.
- ContextMenu, CascadeMenu, DropDownMenu: a clicked item is appended to `fired` whether or not it has a callback; the source calls the callback only when one is set (src/MenuItem.cpp:52-56). The log records clicks, not calls.
- ComboBox: the change and selection callbacks are two separate logs, `changes` and `selections`. Each keeps its own order, but the order between a text change and a selection report is not recorded.

## Findings

| source | as written | input that shows it | evidently intended | confidence | as-written member | corrected member |
|---|---|---|---|---|---|---|
| src/ImageLoader.cpp:277-283 | the decoding loop runs only while unread bytes remain, so whole codes still in the bit buffer after the last byte is loaded are dropped | minimum code size 2, data [0x09]: the byte holds the 3-bit codes 1 and 1 and two leftover bits, and as written the output is [1] | decode every whole code in the buffer, giving [1, 1] | not executed | Lzw.AsWrittenDropsLastCode | Lzw.DecompressCompress |
| src/ComboBox.cpp:32-44 | `setSelectedIndex` replaces the text but keeps the selection ends, so the next edit takes `substr` past the end and throws | items ["hello", "hi"] with all of "hello" selected; choose "hi": the selection still ends at 5, and the next erasing edit takes `substr` past the end | clear the selection when the text is replaced | not executed | ComboBox.StaleSelectionThrows | ComboBox.SetSelectedIndex |
| src/ComboBox.cpp:26-30 | `clearItems` keeps the hovered index, so Enter reads an item from the now empty list | hover item 1 of ["a", "b"] with the menu open, clear the items, press Enter | reset the hovered index with the items | not executed | ComboBox.ClearKeepsHovered | ComboBox.ClearItems |
| src/ComboBox.cpp:324-371 | a key edit during a mouse drag keeps the drag anchor, which can lie past the shortened text | start a drag at the end of "ab", press Backspace, then drag to the start | end the drag when the text is edited | not executed | ComboBox.DragAnchorOverrun | ComboBox.HandleKey |
| src/TableGrid.cpp:445-454 | a printable character writes to the selected cell without checking that it is still inside the grid | a 3x3 grid, select cell (2, 2), set the row count to 1, type 'x' | ignore typing while the selection lies outside the grid | not executed | TableGrid.ShrinkThenType | TableGrid.ShrinkThenTypeCorrected |
| src/FileDialog.cpp:167-179 | a selection is taken for a directory by its "[DIR] " prefix, so a file whose name starts that way is looked up as a directory and never selected | directory "/d" holding one regular file named "[DIR] x"; select it | decide by the item's position in the list, directories first | not executed | FileDialog.MarkedFileIsNotSelected | FileDialog.SelectItem |
| src/MultiLineTextBox.cpp:125-262 | a key edit during a mouse drag keeps the drag anchor, so the next mouse move selects from a line that no longer exists | in "a\n", press the mouse on the empty second line, press Backspace, then move the mouse onto the first line | end the drag when the text is edited | not executed | MultiLineTextBox.DragAcrossJoin | MultiLineTextBox.HandleKey |
| src/MultiLineTextBox.cpp:278-358 | with a font renderer set, `wrapText` drops the empty last line after a trailing line break, so the next edit loses the break | set the text "a\n", type 'x' at the start: the text becomes "xa" | keep the empty last line, giving "xa\n" | not executed | MultiLineTextBox.TrailingBreakLost | MultiLineTextBox.SetText |
