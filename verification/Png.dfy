/**
 The PNG encoder for frame captures (png.rs): scanlines with no filter, a zlib
 stream of stored deflate blocks, and checked chunks.
 */
module Png {
  import opened Words
  import opened Checksums

  const SIGNATURE: seq<u8> := [0x89, 0x50, 0x4E, 0x47, 0x0D, 0x0A, 0x1A, 0x0A]
  const IHDR: seq<u8> := [0x49, 0x48, 0x44, 0x52]
  const IDAT: seq<u8> := [0x49, 0x44, 0x41, 0x54]
  const IEND: seq<u8> := [0x49, 0x45, 0x4E, 0x44]

  const STORED_BLOCK_MAX: nat := 0xFFFF

  /** The big-endian bytes of a word (`u32::to_be_bytes`). */
  function Be32(v: u32): (bytes: seq<u8>)
    ensures |bytes| == 4
  {
    [v / 0x100_0000, v / 0x1_0000 % 0x100, v / 0x100 % 0x100, v % 0x100]
  }

  function Zeros(n: nat): seq<u8> { seq(n, _ => 0) }

  /** A stretch of a pixel buffer, zeros beyond its end. */
  function Stretch(pixels: seq<u8>, start: nat, n: nat): (r: seq<u8>)
    ensures |r| == n
    ensures forall k :: 0 <= k < n ==> r[k] == if start + k < |pixels| then pixels[start + k] else 0
  {
    if start >= |pixels| then Zeros(n)
    else if start + n <= |pixels| then pixels[start..start + n]
    else pixels[start..] + Zeros(start + n - |pixels|)
  }

  /** The scanlines from a row on, each after its filter byte. */
  function Scanlines(pixels: seq<u8>, stride: nat, row: nat, height: nat): seq<u8>
    requires row <= height
    decreases height - row
  {
    if row == height then [] else [0] + Stretch(pixels, row * stride, stride) + Scanlines(pixels, stride, row + 1, height)
  }

  /** One stored deflate block. */
  function StoredBlock(final: bool, chunk: seq<u8>): seq<u8>
    requires |chunk| <= STORED_BLOCK_MAX
  {
    [if final then 1 else 0] + Le(|chunk|, 2) + Le(0xFFFF - |chunk|, 2) + chunk
  }

  function StoredBlocks(data: seq<u8>): seq<u8>
    decreases |data|
  {
    if |data| <= STORED_BLOCK_MAX then StoredBlock(true, data)
    else StoredBlock(false, data[..STORED_BLOCK_MAX]) + StoredBlocks(data[STORED_BLOCK_MAX..])
  }

  function Zlib(data: seq<u8>): seq<u8> { [0x78, 0x01] + StoredBlocks(data) + Be32(Adler(data)) }

  /** A chunk; its length field keeps 32 bits of the length. */
  function ChunkBytes(kind: seq<u8>, data: seq<u8>): seq<u8> {
    Be32(|data| % TWO32) + kind + data + Be32(CrcContinued(Crc(kind), data))
  }

  function HeaderData(width: u32, height: u32): (bytes: seq<u8>)
    ensures |bytes| == 13
  {
    Be32(width) + Be32(height) + [8, 6, 0, 0, 0]
  }

  function Encoded(width: u32, height: u32, pixels: seq<u8>): seq<u8> {
    SIGNATURE + ChunkBytes(IHDR, HeaderData(width, height))
    + ChunkBytes(IDAT, Zlib(Scanlines(pixels, width * 4, 0, height))) + ChunkBytes(IEND, [])
  }

  // --- the encoder ------------------------------------------------------------------------

  /** Writes the scanlines row by row, cutting or padding the buffer. */
  method FilterRows(width: u32, height: u32, pixels: seq<u8>) returns (raw: seq<u8>)
    ensures raw == Scanlines(pixels, width * 4, 0, height)
  {
    hide Stretch, Scanlines, Zeros;
    raw := [];
    var stride: nat := width * 4;
    for row := 0 to height
      invariant raw + Scanlines(pixels, stride, row, height) == Scanlines(pixels, stride, 0, height)
    {
      var start: nat := row * stride;
      var end: nat := start + stride;
      var stop := if end < |pixels| then end else |pixels|;
      var available := if start <= stop then pixels[start..stop] else [];
      StretchIs(pixels, start, stride, available);
      RowStep(raw, available, pixels, stride, row, height);
      raw := raw + [0];
      raw := raw + available;
      raw := raw + Zeros(stride - |available|);
    }
    NoRows(pixels, stride, height);
  }

  lemma RowStep(raw: seq<u8>, available: seq<u8>, pixels: seq<u8>, stride: nat, row: nat, height: nat)
    requires row < height && |available| <= stride
    requires Stretch(pixels, row * stride, stride) == available + Zeros(stride - |available|)
    ensures raw + Scanlines(pixels, stride, row, height) ==
            raw + [0] + available + Zeros(stride - |available|) + Scanlines(pixels, stride, row + 1, height)
  {
    hide Stretch, Zeros;
    Appended(raw, [0], available, Zeros(stride - |available|), Scanlines(pixels, stride, row + 1, height));
    assert [0] + (available + Zeros(stride - |available|)) == [0] + available + Zeros(stride - |available|);
  }

  lemma NoRows(pixels: seq<u8>, stride: nat, height: nat)
    ensures Scanlines(pixels, stride, height, height) == []
  {}

  lemma StretchIs(pixels: seq<u8>, start: nat, n: nat, available: seq<u8>)
    requires var stop := if start + n < |pixels| then start + n else |pixels|;
             available == if start <= stop then pixels[start..stop] else []
    ensures |available| <= n && Stretch(pixels, start, n) == available + Zeros(n - |available|)
  {}

  /** Wraps data in stored blocks of at most 65,535 bytes. */
  method ZlibStored(data: seq<u8>) returns (out: seq<u8>)
    ensures out == Zlib(data)
  {
    hide StoredBlock, Adler;
    out := [0x78, 0x01];
    var offset := 0;
    while true
      invariant 0 <= offset <= |data|
      invariant out + StoredBlocks(data[offset..]) == [0x78, 0x01] + StoredBlocks(data)
      decreases |data| - offset
    {
      var stop := if offset + STORED_BLOCK_MAX < |data| then offset + STORED_BLOCK_MAX else |data|;
      var chunk := data[offset..stop];
      ghost var left := data[offset..];
      offset := stop;
      var final := offset >= |data|;
      assert final ==> chunk == left;
      assert !final ==> chunk == left[..STORED_BLOCK_MAX] && data[offset..] == left[STORED_BLOCK_MAX..];
      out := out + StoredBlock(final, chunk);
      if final { break; }
    }
    var sum := Adler32(data);
    out := out + Be32(sum);
  }

  /** Appends one checked chunk. */
  method WriteChunk(out: seq<u8>, kind: seq<u8>, data: seq<u8>) returns (r: seq<u8>)
    requires |kind| == 4
    ensures r == out + ChunkBytes(kind, data)
  {
    hide Be32, Crc, CrcContinued;
    var crc := Crc32(kind);
    crc := Crc32Continue(crc, data);
    r := out + Be32(|data| % TWO32);
    r := r + kind;
    r := r + data;
    r := r + Be32(crc);
    Appended(out, Be32(|data| % TWO32), kind, data, Be32(crc));
  }

  lemma Appended(out: seq<u8>, a: seq<u8>, b: seq<u8>, c: seq<u8>, d: seq<u8>)
    ensures out + a + b + c + d == out + (a + b + c + d)
  {}

  method EncodeRgba(width: u32, height: u32, pixels: seq<u8>) returns (png: seq<u8>)
    ensures png == Encoded(width, height, pixels)
  {
    hide Scanlines, Zlib, ChunkBytes;
    var raw := FilterRows(width, height, pixels);
    png := SIGNATURE;
    png := WriteChunk(png, IHDR, HeaderData(width, height));
    var stream := ZlibStored(raw);
    png := WriteChunk(png, IDAT, stream);
    png := WriteChunk(png, IEND, []);
  }
}
