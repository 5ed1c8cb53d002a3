/**
 * `createPNG` of the icon generator: an 8-bit RGBA, non-interlaced PNG made
 * of the signature and the IHDR, IDAT and IEND chunks.  The IDAT data is the
 * zlib stream of the scanlines, each row one filter byte 0 ("None") and the
 * row's pixels.  A reader of such files is the partner of the round trip.
 */
module Png {
  import opened ByteCodec
  import opened Wrappers
  import opened Arith
  import Crc
  import Zlib

  /** The eight bytes that open every PNG file. */
  const SIGNATURE: seq<byte> := [137, 80, 78, 71, 13, 10, 26, 10]

  /** The chunk types, as the ASCII bytes `Buffer.from` gives. */
  const IHDR: seq<byte> := [73, 72, 68, 82]
  const IDAT: seq<byte> := [73, 68, 65, 84]
  const IEND: seq<byte> := [73, 69, 78, 68]

  /** The chunk `makeChunk` writes for the IEND type and no data: length 0, type, CRC 0xAE426082. */
  const IEND_CHUNK: seq<byte> := [0, 0, 0, 0, 73, 69, 78, 68, 0xAE, 0x42, 0x60, 0x82]

  /** Bit depth 8, colour type 6 (RGBA), then compression, filter and interlace methods 0. */
  const IHDR_TAIL: seq<byte> := [8, 6, 0, 0, 0]

  /** The 13 bytes of the IHDR chunk data. */
  function IhdrData(width: nat, height: nat): (r: seq<byte>)
    requires width < UINT32_LIMIT && height < UINT32_LIMIT
    ensures |r| == 13
  {
    BE32(width) + BE32(height) + IHDR_TAIL
  }

  // ---------------------------------------------------------------------
  // Scanlines

  /** Bytes per scanline: the filter byte and four bytes per pixel. */
  function Stride(width: nat): nat {
    1 + width * 4
  }

  /** `pixelData[i]`; reading past the end gives `undefined`, which a Buffer stores as 0. */
  function PixelAt(pixels: seq<byte>, i: nat): byte {
    if i < |pixels| then pixels[i] else 0
  }

  /** The four bytes per pixel of the pixels of row `y`. */
  function RowPixels(width: nat, pixels: seq<byte>, y: nat): (r: seq<byte>)
    ensures |r| == width * 4
  {
    seq<byte>(width * 4, i requires 0 <= i < width * 4 => PixelAt(pixels, y * (width * 4) + i))
  }

  /** The first `height` scanlines, each the filter byte 0 followed by the row's pixels. */
  function Scanlines(width: nat, height: nat, pixels: seq<byte>): (r: seq<byte>)
    ensures |r| == height * Stride(width)
  {
    if height == 0 then []
    else Scanlines(width, height - 1, pixels) + ([0] + RowPixels(width, pixels, height - 1))
  }

  lemma RowFits(y: nat, height: nat, stride: nat)
    requires y < height
    ensures y * stride + stride <= height * stride
  {
    assert y * stride + stride == (y + 1) * stride;
    MulMonotone(y + 1, height, stride);
  }

  /**
   * The layout `createPNG` writes: byte `c` of scanline `y` is the filter
   * byte 0 for `c == 0`, else byte `c - 1` of the row's pixels.
   */
  lemma {:induction false} ScanlineAt(width: nat, height: nat, pixels: seq<byte>, y: nat, c: nat)
    requires y < height && c < Stride(width)
    ensures y * Stride(width) + c < height * Stride(width)
    ensures Scanlines(width, height, pixels)[y * Stride(width) + c]
      == if c == 0 then 0 else PixelAt(pixels, y * (width * 4) + c - 1)
  {
    var stride := Stride(width);
    RowFits(y, height, stride);
    var prefix := Scanlines(width, height - 1, pixels);
    assert |prefix| == (height - 1) * stride;
    if y == height - 1 {
      assert Scanlines(width, height, pixels)[y * stride + c] == ([0] + RowPixels(width, pixels, y))[c];
    } else {
      ScanlineAt(width, height - 1, pixels, y, c);
    }
  }

  /** The four bytes of pixel `x` of row `y`: at `dst` in the scanlines, at `src` in the pixels. */
  lemma PixelSlots(width: nat, height: nat, pixels: seq<byte>, y: nat, x: nat, dst: nat, src: nat)
    requires y < height && x < width
    requires dst == y * Stride(width) + 1 + x * 4 && src == (y * width + x) * 4
    ensures dst + 4 <= height * Stride(width)
    ensures var spec := Scanlines(width, height, pixels);
      spec[dst] == PixelAt(pixels, src) && spec[dst + 1] == PixelAt(pixels, src + 1)
      && spec[dst + 2] == PixelAt(pixels, src + 2) && spec[dst + 3] == PixelAt(pixels, src + 3)
  {
    assert src == y * (width * 4) + x * 4;
    ScanlineAt(width, height, pixels, y, 1 + x * 4);
    ScanlineAt(width, height, pixels, y, 2 + x * 4);
    ScanlineAt(width, height, pixels, y, 3 + x * 4);
    ScanlineAt(width, height, pixels, y, 4 + x * 4);
  }

  /** One pass of the outer loop of `createPNG`: writes scanline `y` and nothing else. */
  method PackRow(rawData: array<byte>, width: nat, height: nat, pixelData: seq<byte>, y: nat)
    requires y < height && rawData.Length == height * Stride(width)
    modifies rawData
    ensures forall k :: 0 <= k < rawData.Length && !(y * Stride(width) <= k < (y + 1) * Stride(width)) ==>
      rawData[k] == old(rawData[k])
    ensures forall k :: y * Stride(width) <= k < (y + 1) * Stride(width) ==>
      rawData[k] == Scanlines(width, height, pixelData)[k]
  {
    ghost var spec := Scanlines(width, height, pixelData);
    var stride := 1 + width * 4;
    var start := y * stride;
    RowFits(y, height, stride);
    ScanlineAt(width, height, pixelData, y, 0);
    rawData[start] := 0;
    for x := 0 to width
      invariant forall k :: 0 <= k < rawData.Length && !(start <= k < start + stride) ==> rawData[k] == old(rawData[k])
      invariant forall k :: start <= k < start + 1 + x * 4 ==> rawData[k] == spec[k]
    {
      var srcIdx := (y * width + x) * 4;
      var dstIdx := start + 1 + x * 4;
      PixelSlots(width, height, pixelData, y, x, dstIdx, srcIdx);
      rawData[dstIdx] := PixelAt(pixelData, srcIdx);
      rawData[dstIdx + 1] := PixelAt(pixelData, srcIdx + 1);
      rawData[dstIdx + 2] := PixelAt(pixelData, srcIdx + 2);
      rawData[dstIdx + 3] := PixelAt(pixelData, srcIdx + 3);
    }
    assert (y + 1) * stride == start + 1 + width * 4;
  }

  /** The scanline loop of `createPNG`: fills `rawData`, a buffer of `height` rows. */
  method PackScanlines(width: nat, height: nat, pixelData: seq<byte>) returns (rawData: array<byte>)
    ensures fresh(rawData)
    ensures rawData[..] == Scanlines(width, height, pixelData)
  {
    var stride := 1 + width * 4;
    rawData := new byte[height * stride];
    ghost var spec := Scanlines(width, height, pixelData);
    for y := 0 to height
      invariant forall k :: 0 <= k < y * stride ==> rawData[k] == spec[k]
    {
      PackRow(rawData, width, height, pixelData, y);
    }
    assert rawData[..] == spec;
  }

  /** The number of pixel bytes of an image: four per pixel. */
  function PixelBytes(width: nat, height: nat): nat {
    height * (width * 4)
  }

  /** The pixels, read back to `n` bytes the way the packing loop reads them. */
  function Padded(pixels: seq<byte>, n: nat): (r: seq<byte>)
    ensures |r| == n
  {
    seq(n, i requires 0 <= i < n => PixelAt(pixels, i))
  }

  lemma PaddedExact(pixels: seq<byte>)
    ensures Padded(pixels, |pixels|) == pixels
  {
  }

  /** A reader's undo of the filter: drop the filter byte of each of the `height` rows. */
  function Unfilter(raw: seq<byte>, width: nat, height: nat): seq<byte>
    requires |raw| >= height * Stride(width)
  {
    if height == 0 then []
    else
      RowFits(height - 1, height, Stride(width));
      Unfilter(raw, width, height - 1) + raw[(height - 1) * Stride(width) + 1..height * Stride(width)]
  }

  /** Every row starts with filter type 0. */
  predicate FilterBytesNone(raw: seq<byte>, width: nat, height: nat)
    requires |raw| >= height * Stride(width)
  {
    forall y :: 0 <= y < height ==> RowStart(raw, width, height, y) == 0
  }

  function RowStart(raw: seq<byte>, width: nat, height: nat, y: nat): byte
    requires |raw| >= height * Stride(width) && y < height
  {
    RowFits(y, height, Stride(width));
    raw[y * Stride(width)]
  }

  lemma {:induction false} UnfilterPrefix(raw: seq<byte>, more: seq<byte>, width: nat, height: nat)
    requires |raw| >= height * Stride(width)
    ensures Unfilter(raw + more, width, height) == Unfilter(raw, width, height)
  {
    if height > 0 {
      var lo, hi := (height - 1) * Stride(width) + 1, height * Stride(width);
      RowFits(height - 1, height, Stride(width));
      UnfilterPrefix(raw, more, width, height - 1);
      SliceOfPrefix(raw, more, lo, hi);
    }
  }

  lemma SliceOfPrefix(a: seq<byte>, b: seq<byte>, lo: nat, hi: nat)
    requires lo <= hi <= |a|
    ensures (a + b)[lo..hi] == a[lo..hi]
  {
  }

  /** The last scanline is the filter byte and the pixels of the last row. */
  lemma LastScanline(width: nat, height: nat, pixels: seq<byte>)
    requires height > 0
    ensures (height - 1) * Stride(width) + Stride(width) == height * Stride(width)
    ensures Scanlines(width, height, pixels)[(height - 1) * Stride(width)..height * Stride(width)]
      == [0] + RowPixels(width, pixels, height - 1)
  {
    var prefix := Scanlines(width, height - 1, pixels);
    assert |prefix| == (height - 1) * Stride(width);
    assert (height - 1) * Stride(width) + Stride(width) == height * Stride(width);
  }

  /** The padded pixels of `height` rows are those of `height - 1` rows and the last row. */
  lemma PaddedRows(width: nat, height: nat, pixels: seq<byte>)
    requires height > 0
    ensures Padded(pixels, PixelBytes(width, height))
      == Padded(pixels, PixelBytes(width, height - 1)) + RowPixels(width, pixels, height - 1)
  {
    assert PixelBytes(width, height - 1) + width * 4 == PixelBytes(width, height);
    assert (height - 1) * (width * 4) == PixelBytes(width, height - 1);
  }

  /** Every scanline starts with filter type 0. */
  lemma ScanlinesFilterBytes(width: nat, height: nat, pixels: seq<byte>)
    ensures FilterBytesNone(Scanlines(width, height, pixels), width, height)
  {
    forall y | 0 <= y < height
      ensures RowStart(Scanlines(width, height, pixels), width, height, y) == 0
    {
      ScanlineAt(width, height, pixels, y, 0);
    }
  }

  /** Dropping the filter bytes of the scanlines gives the pixels the packing loop read. */
  lemma {:induction false} UnfilterScanlines(width: nat, height: nat, pixels: seq<byte>)
    ensures Unfilter(Scanlines(width, height, pixels), width, height) == Padded(pixels, PixelBytes(width, height))
  {
    if height > 0 {
      var raw := Scanlines(width, height, pixels);
      var prefix := Scanlines(width, height - 1, pixels);
      var stride := Stride(width);
      UnfilterScanlines(width, height - 1, pixels);
      assert raw == prefix + ([0] + RowPixels(width, pixels, height - 1));
      UnfilterPrefix(prefix, [0] + RowPixels(width, pixels, height - 1), width, height - 1);
      LastScanline(width, height, pixels);
      assert raw[(height - 1) * stride + 1..height * stride] == RowPixels(width, pixels, height - 1);
      PaddedRows(width, height, pixels);
    }
  }

  // ---------------------------------------------------------------------
  // Chunks

  /** A chunk: length, type, data, and the CRC-32 of type and data. */
  function Chunk(chunkType: seq<byte>, data: seq<byte>): (r: seq<byte>)
    requires |data| < UINT32_LIMIT
    ensures |r| == 12 + |data| + |chunkType| - 4
  {
    BE32(|data|) + chunkType + data + BE32(Crc.Crc32(Crc.Octets(chunkType + data)) as int)
  }

  /**
   * `makeChunk`: `writeUInt32BE` of the data length throws for lengths of
   * 2^32 and more. For a four-byte type the chunk is the length, the type,
   * the data and the CRC-32 of type and data, big-endian.
   */
  function MakeChunk(chunkType: seq<byte>, data: seq<byte>): (r: Option<seq<byte>>)
    ensures r.Some? <==> |data| < UINT32_LIMIT
    ensures r.Some? ==> r.value == Chunk(chunkType, data)
    ensures r.Some? && |chunkType| == 4 ==>
      && |r.value| == 12 + |data|
      && ReadBE32(r.value[..4]) == |data|
      && r.value[4..8] == chunkType
      && r.value[8..8 + |data|] == data
      && r.value[8 + |data|..] == BE32(Crc.Crc32(Crc.Octets(chunkType + data)) as int)
  {
    if |data| >= UINT32_LIMIT then None
    else if |chunkType| == 4 then ChunkLayout(chunkType, data); Some(Chunk(chunkType, data))
    else Some(Chunk(chunkType, data))
  }

  /** Reads one chunk; gives its type, its data and the bytes after it, if its CRC matches. */
  function ParseChunk(s: seq<byte>): Option<(seq<byte>, seq<byte>, seq<byte>)> {
    if |s| < 12 then None
    else
      var len := ReadBE32(s[..4]);
      if |s| < 12 + len then None
      else if ReadBE32(s[8 + len..12 + len]) != Crc.Crc32(Crc.Octets(s[4..8] + s[8..8 + len])) as int then None
      else Some((s[4..8], s[8..8 + len], s[12 + len..]))
  }

  /** A reader gets back the type and data of what `makeChunk` wrote. */
  lemma ParseChunkRoundTrip(chunkType: seq<byte>, data: seq<byte>, rest: seq<byte>)
    requires |chunkType| == 4 && |data| < UINT32_LIMIT
    ensures ParseChunk(Chunk(chunkType, data) + rest) == Some((chunkType, data, rest))
  {
    var crc := Crc.Crc32(Crc.Octets(chunkType + data)) as int;
    var s := Chunk(chunkType, data) + rest;
    var n := |data|;
    BE32RoundTrip(n);
    BE32RoundTrip(crc);
    ChunkFields(BE32(n), chunkType, data, BE32(crc), rest);
  }

  /** Where the four parts of a chunk sit in the bytes of the chunk and what follows it. */
  lemma ChunkFields(len: seq<byte>, chunkType: seq<byte>, data: seq<byte>, crc: seq<byte>, rest: seq<byte>)
    requires |len| == 4 && |chunkType| == 4 && |crc| == 4
    ensures var s := len + chunkType + data + crc + rest;
      |s| >= 12 + |data| && s[..4] == len && s[4..8] == chunkType && s[8..8 + |data|] == data
      && s[8 + |data|..12 + |data|] == crc && s[12 + |data|..] == rest
  {
  }

  /** The CRC field of the IEND chunk. */
  lemma IendCrcBytes()
    ensures BE32(Crc.Crc32(Crc.Octets(IEND)) as int) == [0xAE, 0x42, 0x60, 0x82]
  {
    assert Crc.Octets(IEND) == [73, 69, 78, 68];
    Crc.Crc32Iend();
    BE32OfRead([0xAE, 0x42, 0x60, 0x82]);
  }

  /** The chunk that ends every file the encoder writes, CRC included. */
  lemma IendChunkBytes()
    ensures Chunk(IEND, []) == IEND_CHUNK
  {
    assert IEND + [] == IEND;
    IendCrcBytes();
    assert BE32(0) == [0, 0, 0, 0];
  }

  // ---------------------------------------------------------------------
  // The file

  /**
   * `createPNG(width, height, pixelData)`: `None` where the source throws a
   * RangeError, that is where `writeUInt32BE` is given a width, a height or
   * an IDAT length of 2^32 or more.
   */
  function CreatePng(width: nat, height: nat, pixelData: seq<byte>): Option<seq<byte>> {
    if width >= UINT32_LIMIT || height >= UINT32_LIMIT then None
    else
      var ihdr := MakeChunk(IHDR, IhdrData(width, height));
      var idat := MakeChunk(IDAT, Zlib.ZlibStream(Scanlines(width, height, pixelData)));
      var iend := MakeChunk(IEND, []);
      if ihdr.None? || idat.None? || iend.None? then None
      else Some(SIGNATURE + ihdr.value + idat.value + iend.value)
  }

  /**
   * The file is the signature, the IHDR chunk of the 13 bytes of size and
   * format, the IDAT chunk of the zlib stream of the scanlines and the
   * fixed IEND chunk; it is refused exactly when a size field overflows.
   */
  lemma CreatePngLayout(width: nat, height: nat, pixelData: seq<byte>)
    ensures CreatePng(width, height, pixelData).Some? <==>
      (width < UINT32_LIMIT && height < UINT32_LIMIT
        && |Zlib.ZlibStream(Scanlines(width, height, pixelData))| < UINT32_LIMIT)
    ensures CreatePng(width, height, pixelData).Some? ==>
      var idat := Zlib.ZlibStream(Scanlines(width, height, pixelData));
      CreatePng(width, height, pixelData).value
        == SIGNATURE + Chunk(IHDR, IhdrData(width, height)) + Chunk(IDAT, idat) + IEND_CHUNK
  {
    IendChunkBytes();
  }

  /** The layout of one chunk: 4 length bytes, the type, the data, then the CRC of type and data. */
  lemma ChunkLayout(chunkType: seq<byte>, data: seq<byte>)
    requires |chunkType| == 4 && |data| < UINT32_LIMIT
    ensures var c := Chunk(chunkType, data);
      |c| == 12 + |data|
      && ReadBE32(c[..4]) == |data|
      && c[4..8] == chunkType
      && c[8..8 + |data|] == data
      && c[8 + |data|..] == BE32(Crc.Crc32(Crc.Octets(chunkType + data)) as int)
      && ReadBE32(c[8 + |data|..]) == Crc.Crc32(Crc.Octets(chunkType + data)) as int
  {
    var c := Chunk(chunkType, data);
    var crc := Crc.Crc32(Crc.Octets(chunkType + data)) as int;
    BE32RoundTrip(|data|);
    BE32RoundTrip(crc);
    assert c[..4] == BE32(|data|);
    assert c[8 + |data|..] == BE32(crc);
  }

  /** Width, height and the RGBA bytes of an image. */
  datatype Image = Image(width: nat, height: nat, pixels: seq<byte>)

  /** Reads the IHDR data: dimensions, then the fixed format bytes. */
  function ParseIhdr(data: seq<byte>): Option<(nat, nat)> {
    if |data| != 13 || data[8..] != IHDR_TAIL then None
    else Some((ReadBE32(data[..4]), ReadBE32(data[4..8])))
  }

  /** Decodes the pixel data of IDAT bytes for an image of the given size. */
  function DecodeIdat(idat: seq<byte>, width: nat, height: nat): Option<seq<byte>> {
    match Zlib.ZlibDecode(idat)
      case None => None
      case Some(raw) =>
        if |raw| != height * Stride(width) || !FilterBytesNone(raw, width, height) then None
        else Some(Unfilter(raw, width, height))
  }

  /** A reader of the files the encoder writes: signature, IHDR, one IDAT, IEND, nothing after. */
  function DecodePng(file: seq<byte>): Option<Image> {
    if |file| < 8 || file[..8] != SIGNATURE then None
    else match ParseChunk(file[8..])
      case None => None
      case Some(c1) =>
        match ParseIhdr(c1.1)
          case None => None
          case Some(size) =>
            match ParseChunk(c1.2)
              case None => None
              case Some(c2) =>
                match ParseChunk(c2.2)
                  case None => None
                  case Some(c3) =>
                    if c1.0 != IHDR || c2.0 != IDAT || c3.0 != IEND || c3.1 != [] || c3.2 != [] then None
                    else match DecodeIdat(c2.1, size.0, size.1)
                      case None => None
                      case Some(pixels) => Some(Image(size.0, size.1, pixels))
  }

  lemma ParseIhdrRoundTrip(width: nat, height: nat)
    requires width < UINT32_LIMIT && height < UINT32_LIMIT
    ensures ParseIhdr(IhdrData(width, height)) == Some((width, height))
  {
    var d := IhdrData(width, height);
    assert d[..4] == BE32(width) && d[4..8] == BE32(height) && d[8..] == IHDR_TAIL;
    BE32RoundTrip(width);
    BE32RoundTrip(height);
  }

  lemma DecodeIdatRoundTrip(width: nat, height: nat, pixelData: seq<byte>)
    requires height > 0
    ensures DecodeIdat(Zlib.ZlibStream(Scanlines(width, height, pixelData)), width, height)
      == Some(Padded(pixelData, PixelBytes(width, height)))
  {
    var raw := Scanlines(width, height, pixelData);
    assert raw != [] by {
      assert |raw| == height * Stride(width) >= Stride(width);
    }
    Zlib.ZlibRoundTrip(raw);
    UnfilterScanlines(width, height, pixelData);
    ScanlinesFilterBytes(width, height, pixelData);
  }

  lemma SplitAfterSignature(c1: seq<byte>, c2: seq<byte>, c3: seq<byte>)
    ensures var file := SIGNATURE + c1 + c2 + c3;
      |file| >= 8 && file[..8] == SIGNATURE && file[8..] == c1 + (c2 + (c3 + []))
  {
    var file := SIGNATURE + c1 + c2 + c3;
    assert file == SIGNATURE + (c1 + (c2 + (c3 + [])));
  }

  /** The reader accepts a file of the three chunks when it accepts their contents. */
  lemma DecodeChunks(ihdr: seq<byte>, idat: seq<byte>, width: nat, height: nat, pixels: seq<byte>)
    requires |ihdr| == 13 && |idat| < UINT32_LIMIT
    requires ParseIhdr(ihdr) == Some((width, height))
    requires DecodeIdat(idat, width, height) == Some(pixels)
    ensures DecodePng(SIGNATURE + Chunk(IHDR, ihdr) + Chunk(IDAT, idat) + Chunk(IEND, []))
      == Some(Image(width, height, pixels))
  {
    var c1, c2, c3 := Chunk(IHDR, ihdr), Chunk(IDAT, idat), Chunk(IEND, []);
    SplitAfterSignature(c1, c2, c3);
    ParseChunkRoundTrip(IHDR, ihdr, c2 + (c3 + []));
    ParseChunkRoundTrip(IDAT, idat, c3 + []);
    ParseChunkRoundTrip(IEND, [], []);
  }

  /**
   * Reading a file `createPNG` wrote gives back its size and pixels (the
   * pixel data cut or zero-padded to `width * height * 4` bytes), for every
   * image with at least one row.
   */
  lemma CreatePngRoundTrip(width: nat, height: nat, pixelData: seq<byte>)
    requires CreatePng(width, height, pixelData).Some? && height > 0
    ensures DecodePng(CreatePng(width, height, pixelData).value)
      == Some(Image(width, height, Padded(pixelData, PixelBytes(width, height))))
  {
    ParseIhdrRoundTrip(width, height);
    DecodeIdatRoundTrip(width, height, pixelData);
    DecodeChunks(IhdrData(width, height), Zlib.ZlibStream(Scanlines(width, height, pixelData)),
      width, height, Padded(pixelData, PixelBytes(width, height)));
  }

  /** With no rows the model's reader rejects the IDAT data: after the zlib
      header only the four trailer bytes remain, fewer than one block header. */
  lemma NoRowsNotDecodable(width: nat, pixelData: seq<byte>)
    requires CreatePng(width, 0, pixelData).Some?
    ensures DecodeIdat(Zlib.ZlibStream(Scanlines(width, 0, pixelData)), width, 0) == None
  {
    var s := Zlib.ZlibStream([]);
    Zlib.NoBytesNoBlocks(BE32(1));
    assert s == Zlib.ZLIB_HEADER + [] + BE32(1);
    assert s[2..] == BE32(1);
  }
}
