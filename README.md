# rapid-reader, modelled in Dafny

rapid-reader is an RSVP (rapid serial visual presentation) speed reader. It
splits a text into words and shows them one at a time, at a rate set in
words per minute. In each word it highlights the "optimal recognition
point" (ORP) character. The repository also holds a small script that
draws the browser-extension icons and encodes them as PNG files.

This project models three parts of that code and proves properties of them.

- **Text processing** (`text_processor.dfy`, module `TextProcessor`):
  - `getORPIndex`;
  - `splitIntoWords`, which is trim, then split on whitespace runs, then
    drop empty tokens, with the ECMAScript whitespace set;
  - `splitWordAtORP`;
  - `wpmToDelay`, with JavaScript's `Math.round` written out exactly and
    the `Infinity` that `60000 / 0` gives.
- **The reader hook** (`rapid_reader.dfy`, module `RapidReader`):
  - a pure transition function `Next` over a `ReaderState` value;
  - a class `Reader` whose fields are the hook's state cells and its
    `intervalRef`, and whose methods are the hook's callbacks.
  - In the class, a ghost set `live` records the browser intervals not yet
    cleared. `SyncTimer` models the `useEffect` that re-arms the interval
    when its dependencies change. `Tick` is the interval callback.
  - `Dispatch` shows that the class follows `Next` step for step, and that
    at most one interval is ever outstanding.
- **The icon generator** (modules `ByteCodec`, `Crc`, `Zlib`, `Png`,
  `Icon`):
  - `createPNG`: scanline packing into an array; the stored (uncompressed)
    deflate blocks; the Adler-32 loop; the CRC-32 table and `crc32` loop
    in `bv32`; `makeChunk`; and the final file;
  - a reader of those files, written as the partner of the round trip;
  - from `drawIcon`: the pixel buffer, the background fill, `setPixel` and
    `drawRect`, as a class `Canvas` over an `array`.

Bytes are `ByteCodec.byte`, the integers 0 to 255. The CRC works on `bv32`
registers, as the JavaScript's `>>> 0` operations keep it.

## Model

| member | source | states |
|---|---|---|
| TextProcessor.GetOrpIndex | src/utils/textProcessor.ts:6-15 | the index is 0 for the empty word, inside the word otherwise, and at most a third of its length |
| TextProcessor.OrpIndexBuckets | src/utils/textProcessor.ts:9-14 | lengths up to 3 give 0, 4-5 give 1, 6-9 give 2, 10-13 give 3, longer words give floor(length / 4) |
| TextProcessor.OrpIndexMonotone | src/utils/textProcessor.ts:6-15 | a longer word never has a smaller ORP index |
| TextProcessor.OrpIndexDependsOnLength | src/utils/textProcessor.ts:7 | two words of the same length have the same ORP index |
| TextProcessor.OrpIndexExamples | src/utils/textProcessor.ts:6-15 | "a", "cat", "apple", "elephant", "university", "internationally" give 0, 0, 1, 2, 3, 3 |
| TextProcessor.SplitIntoWords | src/utils/textProcessor.ts:20-25 | every token is non-empty and holds no whitespace; the tokens concatenate to the text with its whitespace removed; there are no tokens exactly when the text is all whitespace |
| TextProcessor.SplitIntoWordsIsWords | src/utils/textProcessor.ts:20-25 | the trim/split/filter chain equals an independent left-to-right scanner of maximal non-whitespace runs |
| TextProcessor.IsWhitespace | src/utils/textProcessor.ts:22-23 | the characters `\s` and `trim()` treat as whitespace: the ECMAScript WhiteSpace and LineTerminator code points |
| TextProcessor.TrimStart | src/utils/textProcessor.ts:22 | the leading whitespace is dropped; the result is never longer, and strictly shorter when the text starts with whitespace (TrimStartShape states the rest) |
| TextProcessor.TrimEnd | src/utils/textProcessor.ts:22 | the trailing whitespace is dropped and the result is never longer (TrimEndShape states the rest) |
| TextProcessor.Trim | src/utils/textProcessor.ts:22 | `trim()` is trimming the start, then the end; RemoveWhitespaceTrim shows it keeps every non-whitespace character |
| TextProcessor.SplitRuns | src/utils/textProcessor.ts:23 | `split(/\s+/)` yields at least one field; SplitRunsNoWhitespace and SplitRunsConcat show the fields hold no whitespace and lose no other character, and SplitRunsWords fixes where the fields break |
| TextProcessor.DropEmpty | src/utils/textProcessor.ts:24 | `filter(word => word.length > 0)`: DropEmptyAppend shows it keeps, in order, exactly the non-empty tokens |
| TextProcessor.TrimStartShape | src/utils/textProcessor.ts:22 | trimming the start removes exactly the leading whitespace, and what is left is a suffix that starts with a non-whitespace character or is empty |
| TextProcessor.TrimEndShape | src/utils/textProcessor.ts:22 | trimming the end removes exactly the trailing whitespace, and what is left is a prefix |
| TextProcessor.TrimStartIdempotent | src/utils/textProcessor.ts:22 | trimming twice is trimming once |
| TextProcessor.RemoveWhitespaceTrim | src/utils/textProcessor.ts:22 | trimming loses no non-whitespace character |
| TextProcessor.SplitRunsWords | src/utils/textProcessor.ts:23-24 | splitting on whitespace runs and then dropping the empty fields gives exactly the words of the independent left-to-right scanner |
| TextProcessor.SplitRunsNoWhitespace | src/utils/textProcessor.ts:23 | no piece of the split on whitespace runs contains whitespace |
| TextProcessor.SplitRunsConcat | src/utils/textProcessor.ts:23 | the pieces of the split concatenate to the text without its whitespace |
| TextProcessor.DropEmptyAppend | src/utils/textProcessor.ts:24 | the filter of a concatenation is the concatenation of the filters, no tokens give none, and one token is kept exactly when it is non-empty |
| TextProcessor.DropEmptyKeepsFields | src/utils/textProcessor.ts:24 | the filter keeps only non-empty tokens, each one of the input's |
| TextProcessor.DropEmptyConcat | src/utils/textProcessor.ts:24 | the filter does not change the concatenation of the tokens |
| TextProcessor.Slice | src/utils/textProcessor.ts:34-36 | `slice(start, end)` with both bounds clamped to the length; the result is never longer than the string |
| TextProcessor.SplitWordAtOrp | src/utils/textProcessor.ts:30-38 | before + orp + after is the word; orp is one character exactly when the word is non-empty, and is then the character at the ORP index; the empty word gives three empty parts |
| TextProcessor.WpmToDelay | src/utils/textProcessor.ts:43-45 | the delay is infinite exactly when wpm is 0; otherwise it is 60000 / wpm rounded half up, as `Math.round` rounds |
| TextProcessor.RoundsHalfUpUnique | src/utils/textProcessor.ts:44 | at most one integer is the half-up rounding of a quotient, so the delay is determined |
| TextProcessor.WpmToDelayExamples | src/utils/textProcessor.ts:43-45 | 300, 60, 1000 and 50 wpm give 200, 1000, 60 and 1200 ms |
| TextProcessor.WpmToDelayNonIncreasing | src/utils/textProcessor.ts:43-45 | a faster rate never gives a longer delay |
| TextProcessor.WpmToDelayRange | src/utils/textProcessor.ts:43-45 | over the clamped rates 50 to 1000 the delay lies between 60 and 1200 ms |
| RapidReader.ClampWpm | src/hooks/useRapidReader.ts:66 | the stored rate lies in 50 to 1000, equals the input inside that range, and is 50 below it and 1000 above it |
| RapidReader.ClampWpmLaws | src/hooks/useRapidReader.ts:66 | clamping is idempotent and monotone |
| RapidReader.Next | src/hooks/useRapidReader.ts:35-88 | the state after one callback or one tick: setText loads the split words at index 0, stopped; play does nothing without words and otherwise plays, rewinding from the end; pause stops; restart stops at 0; setWpm clamps; goToWord moves only to an index inside the list; a tick advances by one or stops at the last word (NextKeepsIndexInv, NextFrames) |
| RapidReader.Run | src/hooks/useRapidReader.ts:35-88 | the callbacks and ticks of a list applied in order, first to last (TicksPlayToEnd, ThreeTicks) |
| RapidReader.NextKeepsIndexInv | src/hooks/useRapidReader.ts:35-88 | every action and every tick keeps the index at 0 or inside the word list, and never leaves the reader playing without words (setText and restart stop, play does nothing without words, a tick stops at the last word) |
| RapidReader.NextFrames | src/hooks/useRapidReader.ts:35-73 | only setWpm changes the rate, only setText changes the words, and goToWord never changes the playing flag |
| RapidReader.PauseRestartIdempotent | src/hooks/useRapidReader.ts:54-63 | pausing twice is pausing once; restarting twice is restarting once |
| RapidReader.TicksPlayToEnd | src/hooks/useRapidReader.ts:81-88 | from any word while playing, one tick per remaining word ends on the last word, stopped |
| RapidReader.ThreeTicks | src/hooks/useRapidReader.ts:81-88 | three words playing from 0: three ticks end at index 2, stopped |
| RapidReader.PlayRewindUnreachable | src/hooks/useRapidReader.ts:47-49 | under the index invariant, a non-empty list never has the index at or past its end, so play's rewind branch never runs |
| RapidReader.ThreeWords | src/utils/textProcessor.ts:20-25 | "a b c" splits into three words, so it is a text PlayThreeWords applies to |
| RapidReader.Reader.constructor | src/hooks/useRapidReader.ts:20-26 | no words, index 0, not playing, the rate as given, no interval; the rate is in range exactly when the given one is |
| RapidReader.Reader.ClearTimer | src/hooks/useRapidReader.ts:28-33 | afterwards no interval is referenced or live |
| RapidReader.Reader.SetText | src/hooks/useRapidReader.ts:35-41 | the words are the split of the text, the index is 0, playback stops, and the interval is cleared |
| RapidReader.Reader.Play | src/hooks/useRapidReader.ts:43-52 | with no words nothing changes; otherwise it plays, rewinding to 0 from an index at or past the end |
| RapidReader.Reader.Pause | src/hooks/useRapidReader.ts:54-57 | playback stops and the interval is cleared |
| RapidReader.Reader.Restart | src/hooks/useRapidReader.ts:59-63 | the index is 0, playback stops, and the interval is cleared |
| RapidReader.Reader.SetWpm | src/hooks/useRapidReader.ts:65-67 | the rate is the clamp of the value and is then in range |
| RapidReader.Reader.GoToWord | src/hooks/useRapidReader.ts:69-73 | the index moves to an in-range target and stays put otherwise |
| RapidReader.Reader.ArmInterval | src/hooks/useRapidReader.ts:80-89 | a fresh handle becomes live and referenced, with the delay and the word count it was armed with |
| RapidReader.Reader.SyncTimer | src/hooks/useRapidReader.ts:76-93 | with unchanged dependencies nothing happens: the interval, its delay and word count, the cleanup and the handle counter stay as they were; otherwise an interval is left armed exactly when playing with words, at the delay of the current rate; at most one interval is live |
| RapidReader.Reader.RerunEffect | src/hooks/useRapidReader.ts:76-93 | after a dependency change: the old interval is cleared, a new one is armed exactly when playing with words, at the delay of the current rate, and its cleanup is pending exactly when it exists |
| RapidReader.Reader.Tick | src/hooks/useRapidReader.ts:81-88 | at the last word it stops and clears the interval; before it, it advances by one and keeps the interval |
| RapidReader.Reader.Dispatch | src/hooks/useRapidReader.ts:35-93 | one callback, then the effect: the visible state is `Next` of the old one, the index is 0 or in range, the reader plays only with words, and at most one interval is live |
| RapidReader.PlayThreeWords | src/hooks/useRapidReader.ts:35-93 | loading any text of three words, playing and ticking three times ends at index 2, stopped, with no interval armed |
| ByteCodec.BE32RoundTrip | scripts/generate-icons.js:13-14 | reading back the four bytes `writeUInt32BE` writes gives the value |
| ByteCodec.BE32OfRead | scripts/generate-icons.js:13-14 | any four bytes are the big-endian layout of the value they spell |
| ByteCodec.BE32 | scripts/generate-icons.js:13-14 | `writeUInt32BE`: four bytes, most significant first (BE32RoundTrip, BE32OfRead) |
| ByteCodec.LE16 | scripts/generate-icons.js:43-44 | `writeUInt16LE`: two bytes, least significant first (LE16RoundTrip) |
| ByteCodec.Flatten | scripts/generate-icons.js:52 | `Buffer.concat`: the buffers one after another, in order (FlattenCons, FlattenAppend) |
| ByteCodec.LE16RoundTrip | scripts/generate-icons.js:43-44 | reading back the two bytes `writeUInt16LE` writes gives the value |
| ByteCodec.FlattenAppend | scripts/generate-icons.js:52 | concatenating two lists of buffers is concatenating their concatenations |
| Crc.ComputeEntry | scripts/generate-icons.js:71-75 | the inner loop gives entry n: eight steps of shift-and-xor with 0xEDB88320 applied to n |
| Crc.Step | scripts/generate-icons.js:73 | one bit step: shift right, xored with 0xEDB88320 when the low bit was set |
| Crc.TableEntry | scripts/generate-icons.js:70-76 | entry n is eight steps applied to n (ComputeEntry, CrcTableExamples) |
| Crc.Slot | scripts/generate-icons.js:81 | `(crc ^ data[i]) & 0xff`: the table index is below 256 |
| Crc.Update | scripts/generate-icons.js:81 | one byte update: the table entry of the low byte of register xor byte, xored with the register shifted right by 8 (TableUpdate, UpdateIsBitwise) |
| Crc.UpdateAll | scripts/generate-icons.js:80-82 | the register after the bytes are fed in order (UpdateAllAppend, UpdateAllIsBitwise, ComputeCrc32) |
| Crc.Crc32 | scripts/generate-icons.js:78-84 | start from 0xFFFFFFFF, update per byte, xor with 0xFFFFFFFF (ComputeCrc32, Crc32IsBitwise, Crc32Iend) |
| Crc.BuildTable | scripts/generate-icons.js:69-76 | the table has 256 entries, each the entry of its index |
| Crc.TableUpdate | scripts/generate-icons.js:81 | one table lookup gives the byte update of the register |
| Crc.ComputeCrc32 | scripts/generate-icons.js:78-84 | the loop computes the CRC-32 of the data: start from 0xFFFFFFFF, update per byte, xor with 0xFFFFFFFF |
| Crc.UpdateIsBitwise | scripts/generate-icons.js:81 | the table-driven byte update equals eight bitwise steps on the register xored with the byte |
| Crc.UpdateAllIsBitwise | scripts/generate-icons.js:80-82 | the table-driven loop equals the bitwise reference on every input |
| Crc.Crc32IsBitwise | scripts/generate-icons.js:78-84 | `crc32` equals the bitwise reference CRC-32 |
| Crc.UpdateAllAppend | scripts/generate-icons.js:80-82 | the CRC of a concatenation continues from the register after the first part |
| Crc.CrcTableExamples | scripts/generate-icons.js:69-84 | entries 0, 1 and 255 are 0, 0x77073096 and 0x2D02EF8D, and the CRC of no bytes is 0 |
| Crc.Crc32Iend | scripts/generate-icons.js:78-84 | the CRC of "IEND" is 0xAE426082 |
| Zlib.BlockHeader | scripts/generate-icons.js:42-44 | five bytes: the last flag, LEN little-endian, and NLEN with LEN + NLEN = 0xFFFF |
| Zlib.StoredBlock | scripts/generate-icons.js:41-45 | a block is 5 + LEN bytes and its payload follows the header |
| Zlib.StoredBlockFields | scripts/generate-icons.js:42-44 | the header fields of a block read back as the final flag, LEN and 0xFFFF - LEN |
| Zlib.StoredBlocksUnfold | scripts/generate-icons.js:38-47 | at an offset before the end, the next block carries min(65535, remaining) bytes and is final exactly when it reaches the end |
| Zlib.StoredBlocks | scripts/generate-icons.js:36-48 | the data cut into blocks of at most 65535 bytes, only the last marked final (StoredBlocksWellFormed, StoredPayloadsConcat, StoredBlocksCount) |
| Zlib.AllocBlock | scripts/generate-icons.js:41-45 | the new buffer holds the header and the copied slice |
| Zlib.DeflateStored | scripts/generate-icons.js:36-48 | the loop produces the stored blocks of the data |
| Zlib.StoredBlocksWellFormed | scripts/generate-icons.js:38-47 | every block has 1 to 65535 payload bytes, NLEN is the complement of LEN, and only the last block is final |
| Zlib.StoredPayloadsConcat | scripts/generate-icons.js:36-48 | the payloads of the blocks concatenate to the data |
| Zlib.StoredBlocksCount | scripts/generate-icons.js:36-48 | there are ceil(length / 65535) blocks |
| Zlib.InflateStoredBlocks | scripts/generate-icons.js:36-52 | a stored-block reader gets non-empty data back from its blocks, with whatever follows them untouched |
| Zlib.NoBytesNoBlocks | scripts/generate-icons.js:38 | empty data gives no block at all |
| Zlib.AdlerSums | scripts/generate-icons.js:55-59 | both running sums stay below 65521 |
| Zlib.AdlerSumsClosedForm | scripts/generate-icons.js:55-59 | a is 1 plus the byte sum, b is the sum of the running values of a, both mod 65521 |
| Zlib.Adler32 | scripts/generate-icons.js:60-61 | the trailer value b * 65536 + a fits in 32 bits |
| Zlib.AdlerOfNothing | scripts/generate-icons.js:55 | the checksum of no bytes is 1 |
| Zlib.ComputeAdler32 | scripts/generate-icons.js:55-61 | the loop computes the Adler-32 of the data |
| Zlib.ZlibHeaderValid | scripts/generate-icons.js:51 | 0x78 0x01 names deflate with a 32K window, passes the mod-31 check and sets no preset dictionary |
| Zlib.ZlibStream | scripts/generate-icons.js:50-63 | the IDAT data: header 0x78 0x01, the stored blocks, and the Adler-32 trailer big-endian (ZlibRoundTrip) |
| Zlib.ZlibRoundTrip | scripts/generate-icons.js:50-63 | a zlib reader gets non-empty data back from header, blocks and Adler-32 trailer |
| Png.IhdrData | scripts/generate-icons.js:12-19 | the IHDR data is 13 bytes |
| Png.Stride | scripts/generate-icons.js:22 | `1 + width * 4` bytes per scanline: the filter byte and four bytes per pixel |
| Png.RowPixels | scripts/generate-icons.js:26-31 | the width * 4 pixel bytes row y reads, from offset y * width * 4, with 0 past the end of the data |
| Png.PixelAt | scripts/generate-icons.js:28-31 | reading `pixelData[i]` into the raw buffer: the byte when i is inside the pixel data, and 0 past its end, as storing `undefined` into a Buffer writes 0 (ScanlineAt) |
| Png.ParseIhdrRoundTrip | scripts/generate-icons.js:12-19 | the IHDR data reads back as the width and height, followed by RGBA 8-bit, non-interlaced |
| Png.Scanlines | scripts/generate-icons.js:22 | the raw data is height * (1 + width * 4) bytes |
| Png.ScanlineAt | scripts/generate-icons.js:22-33 | byte c of row y is the filter byte 0 when c is 0, and otherwise pixel byte (y * width * 4 + c - 1), with 0 past the end of the pixel data |
| Png.PixelSlots | scripts/generate-icons.js:26-31 | the four bytes at dstIdx are the four pixel bytes at srcIdx |
| Png.PackRow | scripts/generate-icons.js:24-32 | one pass of the outer loop writes scanline y and leaves every other byte alone |
| Png.PackScanlines | scripts/generate-icons.js:22-33 | the loops fill the buffer with the scanlines |
| Png.UnfilterScanlines | scripts/generate-icons.js:22-33 | dropping each row's filter byte gives back the pixel data, cut or zero-padded to width * height * 4 bytes |
| Png.ScanlinesFilterBytes | scripts/generate-icons.js:24 | every row starts with filter type 0 |
| Png.PaddedExact | scripts/generate-icons.js:28-31 | pixel data of exactly the image's size is read unchanged |
| Png.MakeChunk | scripts/generate-icons.js:86-95 | a chunk is made exactly when the data length fits in 32 bits; for a four-byte type it is 12 + length bytes: the length big-endian, the type, the data, and the big-endian CRC-32 of type and data |
| Png.Chunk | scripts/generate-icons.js:86-95 | the chunk bytes: length, type, data, CRC-32 of type and data; 12 bytes longer than the data for a four-byte type (ChunkLayout, ParseChunkRoundTrip) |
| Png.ChunkLayout | scripts/generate-icons.js:86-95 | a chunk is 12 + length bytes: length, type, data, and the CRC-32 of type and data |
| Png.ParseChunkRoundTrip | scripts/generate-icons.js:86-95 | a chunk reader gets back type, data and the bytes that follow |
| Png.IendCrcBytes | scripts/generate-icons.js:91-93 | the CRC field of the IEND chunk is AE 42 60 82 |
| Png.IendChunkBytes | scripts/generate-icons.js:101 | the IEND chunk is the 12 bytes 0 0 0 0 'I' 'E' 'N' 'D' AE 42 60 82 |
| Png.CreatePngLayout | scripts/generate-icons.js:97-102 | a file is made exactly when width, height and IDAT length fit in 32 bits, and it is the signature, the IHDR chunk, the IDAT chunk and the IEND chunk |
| Png.CreatePng | scripts/generate-icons.js:8-103 | the file: the signature and the three chunks `makeChunk` builds (IHDR, IDAT, IEND), or none when the width, the height or the IDAT length does not fit in 32 bits (CreatePngLayout, CreatePngRoundTrip) |
| Png.DecodeIdatRoundTrip | scripts/generate-icons.js:21-63 | the IDAT data of an image with rows decodes to its pixels |
| Png.CreatePngRoundTrip | scripts/generate-icons.js:8-103 | a PNG reader gets back the width, the height and the pixels of every image with at least one row |
| Png.NoRowsNotDecodable | scripts/generate-icons.js:36-48 | the model's reader rejects the IDAT data of an image with no rows: after the zlib header only the four trailer bytes remain, fewer than one block header |
| Icon.PixelIff | scripts/generate-icons.js:135 | a byte of the buffer lies in pixel (x, y) exactly when its column and row are x and y |
| Icon.Canvas.constructor | scripts/generate-icons.js:107 | the buffer holds size * size * 4 zero bytes |
| Icon.Canvas.FillBackground | scripts/generate-icons.js:115-120 | every pixel becomes 30, 58, 95, 255 |
| Icon.Canvas.SetPixel | scripts/generate-icons.js:133-141 | an on-canvas pixel has its four bytes at (y * size + x) * 4 set to 255; nothing else changes, and an off-canvas pixel changes nothing |
| Icon.Canvas.DrawRect | scripts/generate-icons.js:143-149 | exactly the on-canvas pixels of the rectangle, corners included, become white; every other byte is unchanged |
| Icon.Canvas.DrawRow | scripts/generate-icons.js:145-147 | the inner loop whitens the pixels of one row between the two columns and nothing else |

## Left out

- File output and directory creation in scripts/generate-icons.js:172-189: I/O, not modelled.
- The letter geometry of `drawIcon` (scripts/generate-icons.js:123-131, 151-167) is left out. It uses floating-point products (`size * 0.15`, `right * 0.7`). The strokes it draws are calls of `drawRect`, which is modelled.
- The React scheduling of state updates is reduced to one `Dispatch` step: a callback, then the effect, then re-rendering. Batched updates and functional updaters running later are left out. `window.setInterval` is reduced to a fresh handle, and the browser firing it is reduced to a `Tick` call.
- Unicode: characters are Dafny `char`s, with no surrogate pairs. `word.length` and `word[i]` count UTF-16 code units in the source, and code points here.
- `wpmToDelay` for non-integer and NaN rates is left out: rates are integers.
- `createPNG` is modelled for natural-number widths and heights. Negative or fractional sizes are left out, as are `Buffer.alloc` limits below 2^32.
- Zlib.BlockHeader: NLEN is written as 65535 - LEN. This equals the source's `blockSize ^ 0xffff` for every LEN up to 65535.
- Zlib.Adler32: `((b << 16) | a) >>> 0` is written as b * 65536 + a. With a and b below 65536 the or is an addition, and `>>> 0` undoes the sign that `<< 16` can set.
- The UI components, the extension's background script and the build configuration are not part of this model. The click clamp of src/components/ProgressBar.tsx:17 only feeds `goToWord`, whose range check is modelled.
- The decoders (`Inflate`, `ZlibDecode`, `DecodePng`) read only what the encoder writes: stored blocks, one IDAT chunk, filter type 0. They are the partners of the round trips, not general readers.

## Behaviour one might expect, and what the code does

- One might expect longer pauses after punctuation. The code has none: every word is shown for `wpmToDelay(wpm)`. The model follows the code.
- One might expect the rate to stay between 50 and 1000 at all times. The code clamps only in `setWpm`, so `useRapidReader(initialWpm)` stores the initial rate as given (`Reader.constructor`, `WpmInRange`).
- One might expect `currentIndex == words.length` once the text has been read, since `play` rewinds from there. The code never gets there: the index is always 0 or inside the list (`NextKeepsIndexInv`). So the rewind branch of `play` never runs (`PlayRewindUnreachable`).
- For a 0-row image the raw data is empty, so the deflate loop writes no block and the IDAT data is not a valid zlib stream (`NoRowsNotDecodable`). The icon sizes 16, 48 and 128 are never affected.
