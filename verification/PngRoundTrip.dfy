/**
 What the encoder writes, the reference decoder reads back: the pixels, cut or
 padded to the image. Exactly the images the format cannot express are refused.
 */
module PngRoundTrip {
  import opened Words
  import opened Checksums
  import opened Png
  import opened PngDecoder

  lemma BeRoundTrip(v: u32)
    ensures FromBe32(Be32(v)) == v
  {
    var a, b, c: nat := v / 0x100, v / 0x1_0000, v / 0x100_0000;
    assert v == 0x100 * a + v % 0x100;
    assert b == a / 0x100 && a == 0x100 * b + a % 0x100;
    assert c == b / 0x100 && b == 0x100 * c + b % 0x100;
  }

  // --- chunks -----------------------------------------------------------------------------

  lemma ChunkParts(length: seq<u8>, kind: seq<u8>, data: seq<u8>, crc: seq<u8>, rest: seq<u8>)
    requires |length| == |kind| == |crc| == 4
    ensures var b, n := length + kind + data + crc + rest, |data|;
            && |b| == 12 + n + |rest| && b[..4] == length && b[4..8] == kind && b[8..8 + n] == data
            && b[4..8 + n] == kind + data && b[8 + n..12 + n] == crc && b[12 + n..] == rest
  {}

  /** A written chunk is read back, unless it is longer than the format allows. */
  lemma ChunkRoundTrip(kind: seq<u8>, data: seq<u8>, rest: seq<u8>)
    requires |kind| == 4 && |data| < TWO32
    ensures ParseChunk(ChunkBytes(kind, data) + rest) == if |data| <= LIMIT then Some((Chunk(kind, data), rest)) else None
  {
    hide Be32, FromBe32, Crc, CrcContinued, TableCrc;
    var length, crc := Be32(|data|), Be32(CrcContinued(Crc(kind), data));
    assert ChunkBytes(kind, data) + rest == length + kind + data + crc + rest;
    ChunkParts(length, kind, data, crc, rest);
    BeRoundTrip(|data|);
    BeRoundTrip(CrcContinued(Crc(kind), data));
    CrcChains(kind, data);
    CrcByTable(kind + data);
  }

  // --- the zlib stream -----------------------------------------------------------------------

  lemma LengthRoundTrip(n: nat)
    requires n <= 0xFFFF
    ensures FromLe(Le(n, 2)) == n
  {
    Pow256Values();
    FromLeOfLe(n, 2);
  }

  /** One stored block in front of a stream. */
  lemma BlockRoundTrip(final: bool, chunk: seq<u8>, rest: seq<u8>)
    requires |chunk| <= STORED_BLOCK_MAX
    ensures InflateStored(StoredBlock(final, chunk) + rest) ==
            if final then Some((chunk, rest)) else
            match InflateStored(rest) case None => None case Some((data, after)) => Some((chunk + data, after))
  {
    hide Le, FromLe;
    var n := |chunk|;
    var b := StoredBlock(final, chunk) + rest;
    assert b == [if final then 1 else 0] + Le(n, 2) + Le(0xFFFF - n, 2) + chunk + rest;
    assert b[1..3] == Le(n, 2) && b[3..5] == Le(0xFFFF - n, 2) && b[5..5 + n] == chunk && b[5 + n..] == rest;
    LengthRoundTrip(n);
    LengthRoundTrip(0xFFFF - n);
  }

  lemma {:induction false} BlocksRoundTrip(data: seq<u8>, rest: seq<u8>)
    ensures InflateStored(StoredBlocks(data) + rest) == Some((data, rest))
    decreases |data|
  {
    hide StoredBlock, InflateStored;
    if |data| <= STORED_BLOCK_MAX {
      BlockRoundTrip(true, data, rest);
    } else {
      var chunk, more := data[..STORED_BLOCK_MAX], data[STORED_BLOCK_MAX..];
      BlocksRoundTrip(more, rest);
      BlockRoundTrip(false, chunk, StoredBlocks(more) + rest);
      assert StoredBlock(false, chunk) + StoredBlocks(more) + rest == StoredBlock(false, chunk) + (StoredBlocks(more) + rest);
      assert chunk + more == data;
    }
  }

  lemma ZlibRoundTrip(data: seq<u8>)
    ensures ZlibDecode(Zlib(data)) == Some(data)
  {
    hide StoredBlocks, InflateStored, Be32, FromBe32, Adler;
    var b := Zlib(data);
    assert b[0] == 0x78 && b[1] == 0x01 && b[2..] == StoredBlocks(data) + Be32(Adler(data));
    BlocksRoundTrip(data, Be32(Adler(data)));
    BeRoundTrip(Adler(data));
  }

  // --- scanlines ---------------------------------------------------------------------------------

  lemma StretchJoins(pixels: seq<u8>, start: nat, a: nat, b: nat)
    ensures Stretch(pixels, start, a) + Stretch(pixels, start + a, b) == Stretch(pixels, start, a + b)
  {}

  lemma {:induction false} ScanlinesRoundTrip(pixels: seq<u8>, stride: nat, row: nat, height: nat)
    requires row <= height
    ensures Unfilter(Scanlines(pixels, stride, row, height), stride, height - row) ==
            Some(Stretch(pixels, row * stride, (height - row) * stride))
    decreases height - row
  {
    hide Stretch, Scanlines, Unfilter;
    if row == height {
      NoRows(pixels, stride, height);
      EmptyImage(pixels, row * stride, stride);
      assert (height - row) * stride == 0;
    } else {
      ScanlinesRoundTrip(pixels, stride, row + 1, height);
      var line, rest := Stretch(pixels, row * stride, stride), Scanlines(pixels, stride, row + 1, height);
      OneLine(pixels, stride, row, height);
      LineRoundTrip(line, rest, height - row - 1);
      RowsAdd(row, height, stride);
      StretchJoins(pixels, row * stride, stride, (height - row - 1) * stride);
    }
  }

  lemma EmptyImage(pixels: seq<u8>, start: nat, stride: nat)
    ensures Unfilter([], stride, 0) == Some([]) && Stretch(pixels, start, 0) == []
  {}

  lemma OneLine(pixels: seq<u8>, stride: nat, row: nat, height: nat)
    requires row < height
    ensures Scanlines(pixels, stride, row, height) ==
            [0] + Stretch(pixels, row * stride, stride) + Scanlines(pixels, stride, row + 1, height)
  {}

  lemma LineRoundTrip(line: seq<u8>, rest: seq<u8>, height: nat)
    requires Unfilter(rest, |line|, height).Some?
    ensures Unfilter([0] + line + rest, |line|, height + 1) == Some(line + Unfilter(rest, |line|, height).value)
  {
    var raw := [0] + line + rest;
    assert raw[1..1 + |line|] == line && raw[1 + |line|..] == rest;
  }

  lemma RowsAdd(row: nat, height: nat, stride: nat)
    requires row < height
    ensures row * stride + stride == (row + 1) * stride
    ensures stride + (height - row - 1) * stride == (height - row) * stride
    ensures (height - row - 1) * stride >= 0
  {}

  // --- the file -----------------------------------------------------------------------------------

  /** The compressed stream of an image. */
  function Stream(width: u32, height: u32, pixels: seq<u8>): seq<u8> { Zlib(Scanlines(pixels, width * 4, 0, height)) }

  // --- how long the stream is -----------------------------------------------------------------

  /** How many stored blocks some bytes take: at least one. */
  function BlockCount(n: nat): nat { if n == 0 then 1 else (n + STORED_BLOCK_MAX - 1) / STORED_BLOCK_MAX }

  /** The bytes of an image's scanlines, filter bytes included. */
  function ScanlineBytes(width: nat, height: nat): nat { height * (4 * width + 1) }

  /** The length of the compressed stream, from the dimensions alone. */
  function StreamLength(width: nat, height: nat): nat {
    var n := ScanlineBytes(width, height);
    2 + 5 * BlockCount(n) + n + 4
  }

  lemma {:induction false} BlocksLength(data: seq<u8>)
    ensures |StoredBlocks(data)| == |data| + 5 * BlockCount(|data|)
    decreases |data|
  {
    if |data| > STORED_BLOCK_MAX { BlocksLength(data[STORED_BLOCK_MAX..]); }
  }

  lemma {:induction false} ScanlinesLength(pixels: seq<u8>, stride: nat, row: nat, height: nat)
    requires row <= height
    ensures |Scanlines(pixels, stride, row, height)| == (height - row) * (stride + 1)
    decreases height - row
  {
    hide Stretch;
    if row < height {
      ScanlinesLength(pixels, stride, row + 1, height);
      OneMore(height - row - 1, stride + 1);
    }
  }

  lemma OneMore(rows: nat, n: nat)
    ensures n + rows * n == (rows + 1) * n
  {}

  /** The stream is as long as the dimensions say, whatever the pixels. */
  lemma StreamLengthIs(width: u32, height: u32, pixels: seq<u8>)
    ensures |Stream(width, height, pixels)| == StreamLength(width, height)
  {
    hide StoredBlocks, Scanlines, Adler, BlockCount;
    var raw := Scanlines(pixels, width * 4, 0, height);
    ScanlinesLength(pixels, width * 4, 0, height);
    BlocksLength(raw);
  }

  /** The images the format can express, by their dimensions. */
  predicate Expressible(width: nat, height: nat) {
    1 <= width <= LIMIT && 1 <= height <= LIMIT && StreamLength(width, height) <= LIMIT
  }

  /** The picture an image should give: its pixels cut or zero-padded to its size. */
  function Expected(width: u32, height: u32, pixels: seq<u8>): Picture {
    Picture(width, height, Stretch(pixels, 0, ImageBytes(width, height)))
  }

  function ImageBytes(width: nat, height: nat): nat { height * (width * 4) }

  lemma PictureRoundTrip(width: u32, height: u32, pixels: seq<u8>)
    ensures DecodePicture(HeaderData(width, height), Stream(width, height, pixels)) ==
            if 1 <= width <= LIMIT && 1 <= height <= LIMIT
            then Some(Expected(width, height, pixels)) else None
  {
    hide Be32, FromBe32, Zlib, ZlibDecode, Scanlines, Unfilter, Stretch;
    var header := HeaderData(width, height);
    assert header[..4] == Be32(width) && header[4..8] == Be32(height) && header[8..] == [8, 6, 0, 0, 0];
    BeRoundTrip(width);
    BeRoundTrip(height);
    ZlibRoundTrip(Scanlines(pixels, width * 4, 0, height));
    ScanlinesRoundTrip(pixels, width * 4, 0, height);
    assert 0 * (width * 4) == 0;
  }

  /** The chunks of an encoded file. */
  lemma ChunksRoundTrip(header: seq<u8>, stream: seq<u8>)
    requires |header| == 13 && |stream| < TWO32
    ensures ParseChunks(ChunkBytes(IHDR, header) + ChunkBytes(IDAT, stream) + ChunkBytes(IEND, [])) ==
            if |stream| <= LIMIT then Some([Chunk(IHDR, header), Chunk(IDAT, stream), Chunk(IEND, [])]) else None
  {
    hide ChunkBytes, ParseChunk;
    var a, b, c := ChunkBytes(IHDR, header), ChunkBytes(IDAT, stream), ChunkBytes(IEND, []);
    assert a + b + c == a + (b + c) && c + [] == c;
    ChunkRoundTrip(IHDR, header, b + c);
    ChunkRoundTrip(IDAT, stream, c);
    ChunkRoundTrip(IEND, [], []);
    NotEmpty(IHDR, header, b + c);
    NotEmpty(IDAT, stream, c);
    NotEmpty(IEND, [], []);
    assert ParseChunks([]) == Some([]);
    assert ParseChunks(c) == Some([Chunk(IEND, [])] + []);
    if |stream| <= LIMIT {
      assert ParseChunks(b + c) == Some([Chunk(IDAT, stream)] + ([Chunk(IEND, [])] + []));
      assert ParseChunks(a + (b + c)) == Some([Chunk(IHDR, header)] + ([Chunk(IDAT, stream)] + ([Chunk(IEND, [])] + [])));
      assert [Chunk(IHDR, header)] + ([Chunk(IDAT, stream)] + ([Chunk(IEND, [])] + [])) ==
             [Chunk(IHDR, header), Chunk(IDAT, stream), Chunk(IEND, [])];
    } else {
      assert ParseChunks(b + c) == None;
    }
  }

  lemma NotEmpty(kind: seq<u8>, data: seq<u8>, rest: seq<u8>)
    ensures ChunkBytes(kind, data) + rest != []
  {
    assert |Be32(|data| % TWO32)| == 4;
  }

  /**
   The round trip, exactly: for all dimensions whose stream length fits its
   32-bit field, the file decodes to the image's pixels, cut or padded, if the
   format can express the dimensions, and is refused if it cannot.
   */
  lemma RoundTrip(width: u32, height: u32, pixels: seq<u8>)
    requires StreamLength(width, height) < TWO32
    ensures Decode(Encoded(width, height, pixels)) ==
            if Expressible(width, height) then Some(Expected(width, height, pixels)) else None
  {
    hide ChunkBytes, ParseChunks, Zlib, Scanlines, Stretch, DecodePicture, WellOrdered, JoinData, Expected, StreamLength;
    StreamLengthIs(width, height, pixels);
    var header, stream := HeaderData(width, height), Stream(width, height, pixels);
    var a, b, c := ChunkBytes(IHDR, header), ChunkBytes(IDAT, stream), ChunkBytes(IEND, []);
    Reassociate(SIGNATURE, a, b, c);
    SignatureOff(a + b + c);
    ChunksRoundTrip(header, stream);
    PictureRoundTrip(width, height, pixels);
    OneImageChunk(header, stream);
  }

  /** No image of width zero decodes, nor one of height zero. */
  lemma EmptyRefused(size: u32, pixels: seq<u8>)
    requires size < 0x100_0000
    ensures Decode(Encoded(0, size, pixels)) == None && Decode(Encoded(size, 0, pixels)) == None
  {
    hide Decode, Encoded, Expected;
    RoundTrip(0, size, pixels);
    RoundTrip(size, 0, pixels);
  }

  /** An image of 32,768 by 16,384 pixels is encoded, but its stream is longer than a chunk may be. */
  lemma LargeRefused(pixels: seq<u8>)
    ensures Decode(Encoded(0x8000, 0x4000, pixels)) == None
  {
    hide Decode, Encoded, Expected;
    assert ScanlineBytes(0x8000, 0x4000) == 0x8000_4000;
    RoundTrip(0x8000, 0x4000, pixels);
  }

  lemma SignatureOff(body: seq<u8>)
    ensures |SIGNATURE + body| >= 8 && (SIGNATURE + body)[..8] == SIGNATURE && (SIGNATURE + body)[8..] == body
  {}

  lemma Reassociate(s: seq<u8>, a: seq<u8>, b: seq<u8>, c: seq<u8>)
    ensures s + a + b + c == s + (a + b + c)
  {}

  lemma OneImageChunk(header: seq<u8>, stream: seq<u8>)
    ensures var chunks := [Chunk(IHDR, header), Chunk(IDAT, stream), Chunk(IEND, [])];
            WellOrdered(chunks) && JoinData(chunks[1..|chunks| - 1]) == stream
  {
    var chunks := [Chunk(IHDR, header), Chunk(IDAT, stream), Chunk(IEND, [])];
    assert chunks[1..2] == [Chunk(IDAT, stream)];
    assert JoinData([Chunk(IDAT, stream)]) == stream + JoinData([]);
    assert stream + [] == stream;
  }

  // --- the file, byte by byte --------------------------------------------------------------------

  /** Four bytes, most significant first, as a number. */
  function BigEndian(b: seq<u8>): int
    requires |b| == 4
  {
    0x100_0000 * (b[0] as int) + 0x1_0000 * (b[1] as int) + 0x100 * (b[2] as int) + b[3]
  }

  lemma BeMeans(v: u32)
    ensures BigEndian(Be32(v)) == v
  {
    var a, b := v / 0x100, v / 0x1_0000;
    assert a / 0x100 == b && b / 0x100 == v / 0x100_0000;
  }

  /** A chunk: its length, its four letters, its data, its checksum. */
  lemma ChunkMeans(kind: seq<u8>, data: seq<u8>)
    requires |kind| == 4
    ensures var b := ChunkBytes(kind, data);
            && |b| == 12 + |data| && BigEndian(b[..4]) == |data| % TWO32 && b[4..8] == kind && b[8..8 + |data|] == data
            && BigEndian(b[8 + |data|..]) == Crc(kind + data)
  {
    hide Crc, CrcContinued, Be32, BigEndian;
    BeMeans(|data| % TWO32);
    BeMeans(Crc(kind + data));
    CrcChains(kind, data);
    var b := ChunkBytes(kind, data);
    assert b == Be32(|data| % TWO32) + kind + data + Be32(Crc(kind + data)) + [];
    ChunkParts(Be32(|data| % TWO32), kind, data, Be32(Crc(kind + data)), []);
    assert b[8 + |data|..] == b[8 + |data|..12 + |data|];
  }

  /** A slice of the middle of three parts. */
  lemma Inside(a: seq<u8>, b: seq<u8>, c: seq<u8>, i: nat, j: nat)
    requires i <= j <= |b|
    ensures (a + b + c)[|a| + i..|a| + j] == b[i..j]
  {}

  /**
   A file: the PNG signature, an IHDR chunk with the size and an 8-bit RGBA
   format, an IDAT chunk with a zlib stream, and an empty IEND chunk.
   */
  predicate FileShape(f: seq<u8>, width: u32, height: u32) {
    && |f| >= 57 && f[..8] == [137, 80, 78, 71, 13, 10, 26, 10]
    && BigEndian(f[8..12]) == 13 && f[12..16] == [73, 72, 68, 82]
    && BigEndian(f[16..20]) == width && BigEndian(f[20..24]) == height && f[24..29] == [8, 6, 0, 0, 0]
    && f[37..41] == [73, 68, 65, 84] && f[41..43] == [0x78, 0x01]
    && BigEndian(f[|f| - 12..|f| - 8]) == 0 && f[|f| - 8..|f| - 4] == [73, 69, 78, 68]
  }

  lemma FileMeans(width: u32, height: u32, pixels: seq<u8>)
    ensures FileShape(Encoded(width, height, pixels), width, height)
  {
    hide ChunkBytes, HeaderData, BigEndian, Zlib, Scanlines, FileShape;
    var lines := Scanlines(pixels, width * 4, 0, height);
    ZlibStarts(lines);
    ShapeOf(width, height, Zlib(lines));
  }

  lemma ShapeOf(width: u32, height: u32, stream: seq<u8>)
    requires |stream| >= 2 && stream[..2] == [0x78, 0x01]
    ensures FileShape(SIGNATURE + ChunkBytes(IHDR, HeaderData(width, height)) + ChunkBytes(IDAT, stream) + ChunkBytes(IEND, []), width, height)
  {
    hide ChunkBytes, HeaderData, BigEndian, FileShape, Crc;
    ChunkMeans(IDAT, stream);
    ChunkMeans(IEND, []);
    HeaderChunk(width, height);
    StreamStart(ChunkBytes(IDAT, stream), stream);
    ShapeFrom(width, height, ChunkBytes(IHDR, HeaderData(width, height)), ChunkBytes(IDAT, stream), ChunkBytes(IEND, []));
  }

  lemma StreamStart(m: seq<u8>, stream: seq<u8>)
    requires |stream| >= 2 && |m| == 12 + |stream| && m[8..8 + |stream|] == stream
    ensures m[8..10] == stream[..2]
  {
    assert m[8..10] == m[8..8 + |stream|][..2];
  }

  lemma ShapeFrom(width: u32, height: u32, h: seq<u8>, m: seq<u8>, e: seq<u8>)
    requires |h| == 25 && |m| >= 14 && |e| == 12
    requires BigEndian(h[..4]) == 13 && h[4..8] == IHDR && BigEndian(h[8..12]) == width && BigEndian(h[12..16]) == height && h[16..21] == [8, 6, 0, 0, 0]
    requires m[4..8] == IDAT && m[8..10] == [0x78, 0x01] && BigEndian(e[..4]) == 0 && e[4..8] == IEND
    ensures FileShape(SIGNATURE + h + m + e, width, height)
  {
    hide BigEndian;
    FileSlices(SIGNATURE, h, m, e);
  }

  lemma HeaderChunk(width: u32, height: u32)
    ensures var h := ChunkBytes(IHDR, HeaderData(width, height));
            && |h| == 25 && BigEndian(h[..4]) == 13 && h[4..8] == IHDR
            && BigEndian(h[8..12]) == width && BigEndian(h[12..16]) == height && h[16..21] == [8, 6, 0, 0, 0]
  {
    hide ChunkBytes, HeaderData, BigEndian, Crc;
    var header := HeaderData(width, height);
    var h := ChunkBytes(IHDR, header);
    ChunkMeans(IHDR, header);
    HeaderMeans(width, height);
    assert h[8..12] == h[8..21][..4] && h[12..16] == h[8..21][4..8] && h[16..21] == h[8..21][8..];
  }

  lemma HeaderMeans(width: u32, height: u32)
    ensures var b := HeaderData(width, height);
            BigEndian(b[..4]) == width && BigEndian(b[4..8]) == height && b[8..] == [8, 6, 0, 0, 0]
  {
    hide Be32, BigEndian;
    BeMeans(width);
    BeMeans(height);
    var b := HeaderData(width, height);
    assert b[..4] == Be32(width) && b[4..8] == Be32(height);
  }

  lemma FileSlices(a: seq<u8>, h: seq<u8>, m: seq<u8>, e: seq<u8>)
    requires |a| == 8 && |h| == 25 && |m| >= 14 && |e| == 12
    ensures var f := a + h + m + e;
            && |f| == 45 + |m| && f[..8] == a && f[8..12] == h[..4] && f[12..16] == h[4..8] && f[16..20] == h[8..12] && f[20..24] == h[12..16]
            && f[24..29] == h[16..21] && f[37..41] == m[4..8] && f[41..43] == m[8..10]
            && f[|f| - 12..|f| - 8] == e[..4] && f[|f| - 8..|f| - 4] == e[4..8]
  {
    var f := a + h + m + e;
    assert f == a + h + (m + e);
    Inside(a, h, m + e, 0, 4); Inside(a, h, m + e, 4, 8); Inside(a, h, m + e, 8, 12); Inside(a, h, m + e, 12, 16); Inside(a, h, m + e, 16, 21);
    Inside(a + h, m, e, 4, 8); Inside(a + h, m, e, 8, 10);
  }

  lemma ZlibStarts(data: seq<u8>)
    ensures |Zlib(data)| >= 2 && Zlib(data)[..2] == [0x78, 0x01]
  {
    hide Be32, Adler, StoredBlocks;
  }

  /** Row by row, a line is a zero byte and then its pixels, zeros where there are none. */
  lemma ScanlineMeans(pixels: seq<u8>, stride: nat, height: nat, row: nat)
    requires row < height
    ensures var lines, at := Scanlines(pixels, stride, 0, height), row * (stride + 1);
            && |lines| == height * (stride + 1) && 0 <= at && at + 1 + stride <= |lines| && lines[at] == 0
            && var line := lines[at + 1..at + 1 + stride];
            forall k :: 0 <= k < stride ==> line[k] == if row * stride + k < |pixels| then pixels[row * stride + k] else 0
  {
    hide Scanlines, Stretch;
    ScanlinesLength(pixels, stride, 0, height);
    LinesFrom(pixels, stride, 0, height, row);
  }

  lemma {:induction false} LinesFrom(pixels: seq<u8>, stride: nat, first: nat, height: nat, row: nat)
    requires first <= row < height
    ensures var lines, at := Scanlines(pixels, stride, first, height), (row - first) * (stride + 1);
            0 <= at && at + 1 + stride <= |lines| && lines[at] == 0 && lines[at + 1..at + 1 + stride] == Stretch(pixels, row * stride, stride)
    decreases row - first
  {
    hide Stretch;
    var rest := Scanlines(pixels, stride, first + 1, height);
    var line := [0] + Stretch(pixels, first * stride, stride);
    assert Scanlines(pixels, stride, first, height) == line + rest;
    if first < row {
      LinesFrom(pixels, stride, first + 1, height, row);
      OneMore(row - first - 1, stride + 1);
      Later(line, rest, (row - first - 1) * (stride + 1), stride);
    } else {
      assert line[1..1 + stride] == Stretch(pixels, first * stride, stride);
    }
  }

  lemma Later(line: seq<u8>, rest: seq<u8>, at: nat, n: nat)
    requires at + 1 + n <= |rest|
    ensures (line + rest)[|line| + at] == rest[at] && (line + rest)[|line| + at + 1..|line| + at + 1 + n] == rest[at + 1..at + 1 + n]
  {}
}
