/**
 A reference PNG decoder for what the encoder uses: chunks and header of RFC
 2083 (sections 3.2, 3.4, 4.1 and 6.2), zlib streams of RFC 1950 (section 2.2), and the
 stored blocks of RFC 1951 (section 3.2.4). Written from the formats, not from
 the encoder; checksums are the reference ones.
 */
module PngDecoder {
  import opened Words
  import opened Checksums
  import opened Png

  /** The largest length and dimension the format allows. */
  const LIMIT: nat := 0x7FFF_FFFF

  datatype Chunk = Chunk(kind: seq<u8>, data: seq<u8>)

  datatype Picture = Picture(width: nat, height: nat, pixels: seq<u8>)

  function FromBe32(b: seq<u8>): nat
    requires |b| == 4
  {
    b[0] as nat * 0x100_0000 + b[1] as nat * 0x1_0000 + b[2] as nat * 0x100 + b[3] as nat
  }

  /** One chunk: length, type, data, checksum of type and data. */
  function ParseChunk(b: seq<u8>): (r: Option<(Chunk, seq<u8>)>)
    ensures r.Some? ==> |r.value.1| < |b|
  {
    if |b| < 12 then None else
    var n := FromBe32(b[..4]);
    if n > LIMIT || |b| < 12 + n then None
    else if FromBe32(b[8 + n..12 + n]) != TableCrc(b[4..8 + n]) then None
    else Some((Chunk(b[4..8], b[8..8 + n]), b[12 + n..]))
  }

  function ParseChunks(b: seq<u8>): Option<seq<Chunk>>
    decreases |b|
  {
    if b == [] then Some([]) else
    match ParseChunk(b)
    case None => None
    case Some((chunk, rest)) =>
      match ParseChunks(rest) case None => None case Some(chunks) => Some([chunk] + chunks)
  }

  /** The data of consecutive image chunks, joined. */
  function JoinData(chunks: seq<Chunk>): seq<u8> { if chunks == [] then [] else chunks[0].data + JoinData(chunks[1..]) }

  /** Stored blocks up to the final one, and what follows it. */
  function InflateStored(b: seq<u8>): Option<(seq<u8>, seq<u8>)>
    decreases |b|
  {
    if |b| < 5 || b[0] / 2 % 4 != 0 then None else
    var n := FromLe(b[1..3]);
    if FromLe(b[3..5]) != 0xFFFF - n || |b| < 5 + n then None
    else if b[0] % 2 == 1 then Some((b[5..5 + n], b[5 + n..]))
    else
      match InflateStored(b[5 + n..])
      case None => None
      case Some((data, rest)) => Some((b[5..5 + n] + data, rest))
  }

  function ZlibDecode(b: seq<u8>): Option<seq<u8>> {
    if |b| < 2 || b[0] % 16 != 8 || b[0] / 16 > 7 || (b[0] as nat * 0x100 + b[1] as nat) % 31 != 0 || b[1] / 32 % 2 == 1 then None else
    match InflateStored(b[2..])
    case None => None
    case Some((data, rest)) => if |rest| == 4 && FromBe32(rest) == Adler(data) then Some(data) else None
  }

  /** Scanlines without their filter bytes, which must say there is no filter. */
  function Unfilter(raw: seq<u8>, stride: nat, height: nat): Option<seq<u8>>
    decreases height
  {
    if height == 0 then (if raw == [] then Some([]) else None)
    else if |raw| < 1 + stride || raw[0] != 0 then None
    else
      match Unfilter(raw[1 + stride..], stride, height - 1)
      case None => None
      case Some(rest) => Some(raw[1..1 + stride] + rest)
  }

  /** Eight-bit RGBA, no interlace, dimensions neither zero nor above the limit. */
  predicate HeaderValid(data: seq<u8>) {
    && |data| == 13 && data[8..] == [8, 6, 0, 0, 0]
    && 1 <= FromBe32(data[..4]) <= LIMIT && 1 <= FromBe32(data[4..8]) <= LIMIT
  }

  function DecodePicture(header: seq<u8>, stream: seq<u8>): Option<Picture>
  {
    if !HeaderValid(header) then None else
    var width, height := FromBe32(header[..4]), FromBe32(header[4..8]);
    match ZlibDecode(stream)
    case None => None
    case Some(raw) =>
      match Unfilter(raw, width * 4, height)
      case None => None
      case Some(pixels) => Some(Picture(width, height, pixels))
  }

  /** Signature, header, image chunks, end: in that order and nothing else. */
  predicate WellOrdered(chunks: seq<Chunk>) {
    && |chunks| >= 3 && chunks[0].kind == IHDR && chunks[|chunks| - 1] == Chunk(IEND, [])
    && forall k :: 0 < k < |chunks| - 1 ==> chunks[k].kind == IDAT
  }

  function Decode(png: seq<u8>): Option<Picture> {
    if |png| < 8 || png[..8] != SIGNATURE then None else
    match ParseChunks(png[8..])
    case None => None
    case Some(chunks) =>
      if !WellOrdered(chunks) then None
      else DecodePicture(chunks[0].data, JoinData(chunks[1..|chunks| - 1]))
  }
}
