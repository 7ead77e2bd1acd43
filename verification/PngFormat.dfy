/** A reader of PNG streams as the standards describe them: chunks by section 3.2 of
    RFC 2083, the zlib wrapper by section 2.2 of RFC 1950, and stored blocks by section
    3.2.4 of RFC 1951. It reads 8-bit RGBA without interlace, unfiltered and
    uncompressed, in any number of IDAT chunks and blocks. */
module PngFormat {
  import opened Checksums
  import opened Wrappers

  type Bytes = seq<Byte>

  datatype Read<T> = Read(value: T, rest: Bytes)

  datatype Chunk = Chunk(kind: Bytes, payload: Bytes)

  datatype Image = Image(width: nat, height: nat, pixels: Bytes)

  const SIGNATURE: Bytes := [0x89, 0x50, 0x4E, 0x47, 0x0D, 0x0A, 0x1A, 0x0A]
  const IHDR: Bytes := [0x49, 0x48, 0x44, 0x52]
  const IDAT: Bytes := [0x49, 0x44, 0x41, 0x54]
  const IEND: Bytes := [0x49, 0x45, 0x4E, 0x44]

  /** Network byte order. */
  function Value(b: Bytes): nat
    requires |b| == 4
  {
    b[0] as nat * 0x100_0000 + b[1] as nat * 0x1_0000 + b[2] as nat * 0x100 + b[3] as nat
  }

  // ---- Chunks ---------------------------------------------------------------------------------

  /** Length, type, payload, and the checksum of type and payload. */
  function ReadChunk(b: Bytes): Option<Read<Chunk>>
  {
    if |b| < 12 then None
    else
      var n := Value(b[..4]);
      if |b| < n + 12 || Value(b[8 + n..12 + n]) != Crc(b[4..8 + n]) then None
      else Some(Read(Chunk(b[4..8], b[8..8 + n]), b[12 + n..]))
  }

  /** The chunks up to IEND, which ends the stream. */
  function ReadChunks(b: Bytes): Option<seq<Chunk>>
    decreases |b|
  {
    match ReadChunk(b)
    case None => None
    case Some(r) =>
      if r.value.kind == IEND then if r.rest == [] then Some([r.value]) else None
      else
        match ReadChunks(r.rest)
        case None => None
        case Some(more) => Some([r.value] + more)
  }

  /** The payloads of consecutive IDAT chunks are one stream. */
  function ImageData(chunks: seq<Chunk>): Option<Bytes>
  {
    if chunks == [] then Some([])
    else if chunks[0].kind != IDAT then None
    else
      match ImageData(chunks[1..])
      case None => None
      case Some(rest) => Some(chunks[0].payload + rest)
  }

  // ---- The zlib stream ----------------------------------------------------------------------------

  /** Blocks: a final bit, type 00, LEN and its complement, LEN bytes. */
  function ReadStored(b: Bytes): Option<Read<Bytes>>
    decreases |b|
  {
    if |b| < 5 || b[0] / 2 % 4 != 0 then None
    else
      var len, complement := b[1] as nat + 256 * b[2] as nat, b[3] as nat + 256 * b[4] as nat;
      if len + complement != 0xFFFF || |b| < 5 + len then None
      else if b[0] % 2 == 1 then Some(Read(b[5..5 + len], b[5 + len..]))
      else
        match ReadStored(b[5 + len..])
        case None => None
        case Some(r) => Some(Read(b[5..5 + len] + r.value, r.rest))
  }

  /** Method deflate, a header divisible by 31, no dictionary, and the checksum of the
      uncompressed bytes after the last block. */
  function ReadZlib(b: Bytes): Option<Bytes>
  {
    if |b| < 2 || b[0] % 16 != 8 || b[0] / 16 > 7 || (b[0] as nat * 256 + b[1] as nat) % 31 != 0 || b[1] / 32 % 2 != 0 then None
    else
      match ReadStored(b[2..])
      case None => None
      case Some(r) => if |r.rest| == 4 && Value(r.rest) == Adler(r.value) then Some(r.value) else None
  }

  // ---- Scanlines -------------------------------------------------------------------------------------

  /** `rows` scanlines of `row` bytes, each behind its filter byte 0. */
  function Unfilter(row: nat, rows: nat, raw: Bytes): Option<Bytes>
  {
    if rows == 0 then if raw == [] then Some([]) else None
    else if |raw| < row + 1 || raw[0] != 0 then None
    else
      match Unfilter(row, rows - 1, raw[row + 1..])
      case None => None
      case Some(pixels) => Some(raw[1..row + 1] + pixels)
  }

  // ---- The image ---------------------------------------------------------------------------------------

  function ReadImage(header: Bytes, data: Bytes): Option<Image>
    requires |header| == 13
  {
    var width, height := Value(header[..4]), Value(header[4..8]);
    if width == 0 || height == 0 || header[8..] != [8, 6, 0, 0, 0] then None
    else
      match ReadZlib(data)
      case None => None
      case Some(raw) =>
        match Unfilter(width * 4, height, raw)
        case None => None
        case Some(pixels) => Some(Image(width, height, pixels))
  }

  function ReadPng(b: Bytes): Option<Image>
  {
    if |b| < 8 || b[..8] != SIGNATURE then None
    else
      match ReadChunks(b[8..])
      case None => None
      case Some(chunks) =>
        if |chunks| < 2 || chunks[0].kind != IHDR || |chunks[0].payload| != 13 || chunks[|chunks| - 1] != Chunk(IEND, []) then None
        else
          match ImageData(chunks[1..|chunks| - 1])
          case None => None
          case Some(data) => ReadImage(chunks[0].payload, data)
  }
}
