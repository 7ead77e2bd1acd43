/** The PNG writer: stored deflate blocks, chunk framing and two checksums. What it
    writes is read back by the standards' reader. */
module PngWriter {
  import opened Checksums
  import opened PngFormat
  import opened Wrappers

  const BLOCK := 65535

  // ---- The bytes -------------------------------------------------------------------------------

  function BigEndian(v: nat): (b: Bytes)
    requires v < WORD
    ensures |b| == 4 && Value(b) == v
  {
    Digits(v);
    [v / 0x100_0000, v / 0x1_0000 % 256, v / 0x100 % 256, v % 256]
  }

  lemma Digits(v: nat)
    requires v < WORD
    ensures v / 0x100_0000 < 256
    ensures v / 0x100_0000 * 0x100_0000 + v / 0x1_0000 % 256 * 0x1_0000 + v / 0x100 % 256 * 0x100 + v % 256 == v
  {
    var a := v / 0x100;
    var b := a / 0x100;
    assert v / 0x1_0000 == b && v / 0x100_0000 == b / 0x100;
    assert v == 0x100 * a + v % 0x100 && a == 0x100 * b + a % 0x100 && b == 0x100 * (b / 0x100) + b % 0x100;
  }

  /** A chunk's length field is 32 bits wide: it wraps. */
  function ChunkBytes(kind: Bytes, payload: Bytes): Bytes
  {
    CrcFits(kind + payload);
    BigEndian(|payload| % WORD) + kind + payload + BigEndian(Crc(kind + payload))
  }

  function Scanlines(row: nat, pixels: Bytes): Bytes
    requires row > 0
  {
    if |pixels| < row then [] else [0] + pixels[..row] + Scanlines(row, pixels[row..])
  }

  function BlockHeader(len: nat, final: bool): (b: Bytes)
    requires len <= BLOCK
    ensures |b| == 5
  {
    [if final then 1 else 0, len % 256, len / 256, 255 - len % 256, 255 - len / 256]
  }

  function StoredBlocks(raw: Bytes): Bytes
  {
    if |raw| <= BLOCK then BlockHeader(|raw|, true) + raw
    else BlockHeader(BLOCK, false) + raw[..BLOCK] + StoredBlocks(raw[BLOCK..])
  }

  function ZlibBytes(raw: Bytes): Bytes
  {
    [0x78, 0x01] + StoredBlocks(raw) + BigEndian(Adler(raw))
  }

  function HeaderBytes(width: nat, height: nat): Bytes
    requires width < WORD && height < WORD
  {
    BigEndian(width) + BigEndian(height) + [8, 6, 0, 0, 0]
  }

  function PngBytes(width: nat, height: nat, pixels: Bytes): Bytes
    requires 0 < width < WORD && 0 < height < WORD
  {
    SIGNATURE + ChunkBytes(IHDR, HeaderBytes(width, height))
    + ChunkBytes(IDAT, ZlibBytes(Scanlines(width * 4, pixels))) + ChunkBytes(IEND, [])
  }

  // ---- Writing them ------------------------------------------------------------------------------

  /** `put_u32_be`. */
  method PutU32(out: Bytes, v: nat) returns (out': Bytes)
    requires v < WORD
    ensures out' == out + BigEndian(v)
  {
    out' := out + [v / 0x100_0000] + [v / 0x1_0000 % 256] + [v / 0x100 % 256] + [v % 256];
  }

  /** `put_chunk`. */
  method PutChunk(out: Bytes, kind: Bytes, payload: Bytes) returns (out': Bytes)
    requires |kind| == 4
    ensures out' == out + ChunkBytes(kind, payload)
  {
    hide Crc, BigEndian, Value;
    out' := PutU32(out, |payload| % WORD);
    var typeAt := |out'|;
    out' := out' + kind;
    out' := out' + payload;
    assert out'[typeAt..typeAt + 4 + |payload|] == kind + payload;
    var crc := Crc32(out'[typeAt..typeAt + 4 + |payload|]);
    out' := PutU32(out', crc);
    assert ChunkBytes(kind, payload) == BigEndian(|payload| % WORD) + (kind + payload) + BigEndian(crc);
  }

  /** The scanline loop of `encode_rgba8`. */
  method WriteScanlines(row: nat, height: nat, pixels: Bytes) returns (raw: Bytes)
    requires row > 0 && |pixels| == height * row
    ensures raw == Scanlines(row, pixels)
  {
    hide Scanlines;
    raw := [];
    assert pixels[0 * row..] == pixels;
    for y := 0 to height
      invariant y * row <= |pixels|
      invariant raw + Scanlines(row, pixels[y * row..]) == Scanlines(row, pixels)
    {
      RowBounds(y, height, row);
      NextScanline(row, pixels, y * row, raw);
      raw := raw + [0];
      raw := raw + pixels[y * row..y * row + row];
    }
    assert pixels[height * row..] == [];
    NoScanlines(row);
  }

  lemma NoScanlines(row: nat)
    requires row > 0
    ensures Scanlines(row, []) == []
  {
  }

  lemma NextScanline(row: nat, pixels: Bytes, at: nat, raw: Bytes)
    requires row > 0 && at + row <= |pixels|
    ensures raw + [0] + pixels[at..at + row] + Scanlines(row, pixels[at + row..]) == raw + Scanlines(row, pixels[at..])
  {
    var rest := pixels[at..];
    assert rest[..row] == pixels[at..at + row] && rest[row..] == pixels[at + row..];
    assert Scanlines(row, rest) == [0] + rest[..row] + Scanlines(row, rest[row..]);
    Regroup(raw, [0], rest[..row], Scanlines(row, rest[row..]));
  }

  lemma Regroup(a: Bytes, b: Bytes, c: Bytes, d: Bytes)
    ensures a + b + c + d == a + (b + c + d)
  {
  }

  lemma RowBounds(y: nat, height: nat, row: nat)
    requires y < height
    ensures (y + 1) * row == y * row + row <= height * row
  {
    assert height * row == (y + 1) * row + (height - y - 1) * row;
  }

  /** The block loop of `encode_rgba8`. */
  method WriteZlib(raw: Bytes) returns (zlib: Bytes)
    ensures zlib == ZlibBytes(raw)
  {
    hide StoredBlocks, BlockHeader;
    zlib := [0x78, 0x01];
    var at, done := 0, false;
    assert raw[0..] == raw;
    while !done
      invariant at <= |raw|
      invariant if done then zlib == [0x78, 0x01] + StoredBlocks(raw)
                else zlib + StoredBlocks(raw[at..]) == [0x78, 0x01] + StoredBlocks(raw)
      decreases |raw| - at, if done then 0 else 1
    {
      var block := if |raw| - at < BLOCK then |raw| - at else BLOCK;
      var final := at + block == |raw|;
      NextBlock(raw, at, zlib);
      zlib := PutBlockHeader(zlib, block, final);
      zlib := zlib + raw[at..at + block];
      at := at + block;
      done := at >= |raw|;
    }
    var adler := Adler32(raw);
    hide Adler;
    zlib := PutU32(zlib, adler);
  }

  /** The five bytes before a block: the final bit, LEN low byte first, its complement. */
  method PutBlockHeader(out: Bytes, block: nat, final: bool) returns (out': Bytes)
    requires block <= BLOCK
    ensures out' == out + BlockHeader(block, final)
  {
    out' := out + [if final then 1 else 0];
    out' := out' + [block % 256] + [block / 256];
    out' := out' + [255 - block % 256] + [255 - block / 256];
  }

  lemma NextBlock(raw: Bytes, at: nat, zlib: Bytes)
    requires at <= |raw|
    ensures var block := if |raw| - at < BLOCK then |raw| - at else BLOCK;
            var final := at + block == |raw|;
            zlib + BlockHeader(block, final) + raw[at..at + block] + (if final then [] else StoredBlocks(raw[at + block..]))
            == zlib + StoredBlocks(raw[at..])
  {
    hide BlockHeader;
    var block := if |raw| - at < BLOCK then |raw| - at else BLOCK;
    var rest := raw[at..];
    assert rest[..block] == raw[at..at + block] && rest[block..] == raw[at + block..];
    if at + block == |raw| {
      assert rest == raw[at..at + block];
      assert StoredBlocks(rest) == BlockHeader(block, true) + rest;
      assert zlib + BlockHeader(block, true) + rest + [] == zlib + (BlockHeader(block, true) + rest);
    } else {
      assert StoredBlocks(rest) == BlockHeader(BLOCK, false) + rest[..BLOCK] + StoredBlocks(rest[BLOCK..]);
      Regroup(zlib, BlockHeader(block, false), rest[..block], StoredBlocks(rest[block..]));
    }
  }

  /** `encode_rgba8`. A wrong size is answered with no bytes. */
  method EncodeRgba8(width: int, height: int, pixels: Bytes) returns (png: Bytes)
    requires width < 0x8000_0000 && height < 0x8000_0000
    ensures png == [] <==> width <= 0 || height <= 0 || |pixels| != width * height * 4
    ensures png != [] ==> png == PngBytes(width, height, pixels)
  {
    hide ChunkBytes, BigEndian, Scanlines, ZlibBytes, Value;
    if width <= 0 || height <= 0 || |pixels| != width * height * 4 {
      return [];
    }
    png := SIGNATURE;
    var header := PutU32([], width);
    header := PutU32(header, height);
    header := header + [8, 6, 0, 0, 0];
    assert header == HeaderBytes(width, height);
    png := PutChunk(png, IHDR, header);
    var row := width * 4;
    RowTimesHeight(width, height);
    var raw := WriteScanlines(row, height, pixels);
    var zlib := WriteZlib(raw);
    png := PutChunk(png, IDAT, zlib);
    png := PutChunk(png, IEND, []);
  }

  lemma RowTimesHeight(width: nat, height: nat)
    ensures width * height * 4 == height * (width * 4)
  {
  }

  // ---- Reading them back ----------------------------------------------------------------------------

  lemma Split<T>(a: seq<T>, b: seq<T>)
    ensures (a + b)[..|a|] == a && (a + b)[|a|..] == b
  {
  }

  lemma ChunkReadsBack(kind: Bytes, payload: Bytes, rest: Bytes)
    requires |kind| == 4 && |payload| < WORD
    ensures ReadChunk(ChunkBytes(kind, payload) + rest) == Some(Read(Chunk(kind, payload), rest))
  {
    hide Crc, BigEndian, Value;
    CrcFits(kind + payload);
    var b, n := ChunkBytes(kind, payload) + rest, |payload|;
    assert b[..4] == BigEndian(n);
    assert b[4..8 + n] == kind + payload;
    assert b[8 + n..12 + n] == BigEndian(Crc(kind + payload));
    assert b[4..8] == kind && b[8..8 + n] == payload && b[12 + n..] == rest;
  }

  lemma BlockReadsBack(data: Bytes, final: bool, rest: Bytes)
    requires |data| <= BLOCK
    ensures ReadStored(BlockHeader(|data|, final) + data + rest) ==
              if final then Some(Read(data, rest))
              else match ReadStored(rest) case None => None case Some(r) => Some(Read(data + r.value, r.rest))
  {
    var b := BlockHeader(|data|, final) + data + rest;
    assert b[5..5 + |data|] == data && b[5 + |data|..] == rest;
  }

  lemma {:induction false} BlocksReadBack(raw: Bytes, rest: Bytes)
    ensures ReadStored(StoredBlocks(raw) + rest) == Some(Read(raw, rest))
  {
    hide ReadStored, BlockHeader;
    if |raw| <= BLOCK {
      BlockReadsBack(raw, true, rest);
    } else {
      var first, more := raw[..BLOCK], raw[BLOCK..];
      BlocksReadBack(more, rest);
      hide StoredBlocks;
      BlockReadsBack(first, false, StoredBlocks(more) + rest);
      StoredBlocksStep(raw);
      Reassociate(BlockHeader(BLOCK, false) + first, StoredBlocks(more), rest);
      assert raw == first + more;
    }
  }

  lemma StoredBlocksStep(raw: Bytes)
    requires |raw| > BLOCK
    ensures StoredBlocks(raw) == BlockHeader(BLOCK, false) + raw[..BLOCK] + StoredBlocks(raw[BLOCK..])
  {
  }

  lemma Reassociate<T>(a: seq<T>, b: seq<T>, c: seq<T>)
    ensures a + b + c == a + (b + c)
  {
  }

  lemma ZlibReadsBack(raw: Bytes)
    ensures ReadZlib(ZlibBytes(raw)) == Some(raw)
  {
    AdlerFits(raw);
    hide Adler, StoredBlocks, ReadStored, BigEndian, Value;
    var sum := BigEndian(Adler(raw));
    BlocksReadBack(raw, sum);
    var zlib := ZlibBytes(raw);
    assert zlib[2..] == StoredBlocks(raw) + sum;
    assert zlib[0] == 0x78 && zlib[1] == 0x01;
  }

  lemma {:induction false} ScanlinesReadBack(row: nat, rows: nat, pixels: Bytes)
    requires row > 0 && |pixels| == rows * row
    ensures Unfilter(row, rows, Scanlines(row, pixels)) == Some(pixels)
  {
    if rows > 0 {
      RowBounds(0, rows, row);
      RowBounds(rows - 1, rows, row);
      var raw, first, more := Scanlines(row, pixels), pixels[..row], pixels[row..];
      assert |more| == (rows - 1) * row;
      ScanlinesReadBack(row, rows - 1, more);
      assert raw == [0] + first + Scanlines(row, more);
      hide Scanlines;
      assert raw[1..row + 1] == first && raw[row + 1..] == Scanlines(row, more);
      assert pixels == first + more;
    }
  }

  lemma HeaderReadsBack(width: nat, height: nat, data: Bytes, raw: Bytes, pixels: Bytes)
    requires 0 < width < WORD && 0 < height < WORD
    requires ReadZlib(data) == Some(raw) && Unfilter(width * 4, height, raw) == Some(pixels)
    ensures |HeaderBytes(width, height)| == 13
    ensures ReadImage(HeaderBytes(width, height), data) == Some(Image(width, height, pixels))
  {
    hide BigEndian;
    var header := HeaderBytes(width, height);
    assert header[..4] == BigEndian(width);
    assert header[4..8] == BigEndian(height);
    assert header[8..] == [8, 6, 0, 0, 0];
    hide HeaderBytes, Value;
    assert Value(header[..4]) == width && Value(header[4..8]) == height;
  }

  lemma ThreeChunksReadBack(header: Bytes, data: Bytes)
    requires |header| < WORD && |data| < WORD
    ensures ReadChunks(ChunkBytes(IHDR, header) + ChunkBytes(IDAT, data) + ChunkBytes(IEND, [])) ==
              Some([Chunk(IHDR, header), Chunk(IDAT, data), Chunk(IEND, [])])
  {
    hide ChunkBytes, ReadChunk, ReadChunks;
    var x, y, z := Chunk(IHDR, header), Chunk(IDAT, data), Chunk(IEND, []);
    var a, b, c := ChunkBytes(IHDR, header), ChunkBytes(IDAT, data), ChunkBytes(IEND, []);
    ChunkReadsBack(IEND, [], []);
    assert c + [] == c;
    LastChunk(c);
    ChunkReadsBack(IDAT, data, c);
    NextChunk(b + c, Chunk(IDAT, data), c);
    assert [y] + [z] == [y, z];
    ChunkReadsBack(IHDR, header, b + c);
    NextChunk(a + (b + c), Chunk(IHDR, header), b + c);
    assert [x] + [y, z] == [x, y, z];
    assert a + b + c == a + (b + c);
  }

  lemma LastChunk(b: Bytes)
    requires ReadChunk(b) == Some(Read(Chunk(IEND, []), []))
    ensures ReadChunks(b) == Some([Chunk(IEND, [])])
  {
  }

  lemma NextChunk(b: Bytes, chunk: Chunk, rest: Bytes)
    requires ReadChunk(b) == Some(Read(chunk, rest)) && chunk.kind != IEND
    requires ReadChunks(rest).Some?
    ensures ReadChunks(b) == Some([chunk] + ReadChunks(rest).value)
  {
  }

  /** The stream's length: five bytes of framing for each started block. */
  lemma {:induction false} StoredLength(raw: Bytes)
    ensures |StoredBlocks(raw)| == |raw| + 5 * (if raw == [] then 1 else (|raw| + BLOCK - 1) / BLOCK)
  {
    if |raw| > BLOCK {
      StoredLength(raw[BLOCK..]);
    }
  }

  lemma {:induction false} ScanlinesLength(row: nat, rows: nat, pixels: Bytes)
    requires row > 0 && |pixels| == rows * row
    ensures |Scanlines(row, pixels)| == rows * row + rows
  {
    if rows > 0 {
      RowBounds(0, rows, row);
      RowBounds(rows - 1, rows, row);
      ScanlinesLength(row, rows - 1, pixels[row..]);
    }
  }

  /** The stream of so many bytes, at least one: five more for each stored block, and six. */
  function ZlibSize(raw: nat): nat
  {
    raw + 5 * ((raw + BLOCK - 1) / BLOCK) + 6
  }

  /** The length field of the image's one data chunk does not wrap. */
  predicate FitsInOneChunk(width: nat, height: nat)
  {
    ZlibSize(height * (width * 4) + height) < WORD
  }

  /** `FitsInOneChunk` is exact: it says whether the data chunk's length field states
      the length of its payload. */
  lemma LengthFieldIsExact(width: nat, height: nat, pixels: Bytes)
    requires width > 0 && height > 0 && |pixels| == height * (width * 4)
    ensures var data := ZlibBytes(Scanlines(width * 4, pixels));
            && (|data| < WORD <==> FitsInOneChunk(width, height))
            && (Value(ChunkBytes(IDAT, data)[..4]) == |data| <==> FitsInOneChunk(width, height))
  {
    hide *;
    ImageLength(width, height, pixels);
    FieldIsTheLength(ZlibBytes(Scanlines(width * 4, pixels)));
  }

  lemma ImageLength(width: nat, height: nat, pixels: Bytes)
    requires width > 0 && height > 0 && |pixels| == height * (width * 4)
    ensures |ZlibBytes(Scanlines(width * 4, pixels))| < WORD <==> FitsInOneChunk(width, height)
  {
    hide ZlibSize, ZlibBytes, Scanlines;
    var row := width * 4;
    assert FitsInOneChunk(width, height) <==> ZlibSize(height * row + height) < WORD;
    hide FitsInOneChunk;
    ScanlinesLength(row, height, pixels);
    RowBounds(0, height, row);
    ZlibLength(Scanlines(row, pixels));
  }

  lemma ZlibLength(raw: Bytes)
    requires raw != []
    ensures |ZlibBytes(raw)| == ZlibSize(|raw|)
  {
    hide Adler, StoredBlocks, BigEndian;
    StoredLength(raw);
  }

  lemma FieldIsTheLength(data: Bytes)
    ensures Value(ChunkBytes(IDAT, data)[..4]) == |data| <==> |data| < WORD
  {
    hide Crc, Value;
    var field := BigEndian(|data| % WORD);
    hide BigEndian;
    assert ChunkBytes(IDAT, data)[..4] == field;
  }

  lemma StreamReadsBack(header: Bytes, data: Bytes)
    requires |header| == 13 && |data| < WORD
    ensures ReadPng(SIGNATURE + ChunkBytes(IHDR, header) + ChunkBytes(IDAT, data) + ChunkBytes(IEND, [])) == ReadImage(header, data)
  {
    hide ChunkBytes, ReadChunks, ReadImage;
    ThreeChunksReadBack(header, data);
    var a, b, c := ChunkBytes(IHDR, header), ChunkBytes(IDAT, data), ChunkBytes(IEND, []);
    assert SIGNATURE + a + b + c == SIGNATURE + (a + b + c);
    Split(SIGNATURE, a + b + c);
    var chunks := [Chunk(IHDR, header), Chunk(IDAT, data), Chunk(IEND, [])];
    assert chunks[1..2] == [Chunk(IDAT, data)];
    OneDataChunk(data);
  }

  lemma OneDataChunk(data: Bytes)
    ensures ImageData([Chunk(IDAT, data)]) == Some(data)
  {
    assert [Chunk(IDAT, data)][1..] == [];
    assert data + [] == data;
  }

  /** Every image whose stream fits 32 bits is read back: width, height and each pixel. */
  lemma PngReadsBack(width: nat, height: nat, pixels: Bytes)
    requires 0 < width < WORD && 0 < height < WORD && |pixels| == width * height * 4 && FitsInOneChunk(width, height)
    ensures ReadPng(PngBytes(width, height, pixels)) == Some(Image(width, height, pixels))
  {
    hide ChunkBytes, ReadPng, ReadImage, ZlibBytes, HeaderBytes, Scanlines, Unfilter, ReadZlib, FitsInOneChunk;
    RowTimesHeight(width, height);
    var raw := Scanlines(width * 4, pixels);
    ScanlinesReadBack(width * 4, height, pixels);
    ZlibReadsBack(raw);
    HeaderReadsBack(width, height, ZlibBytes(raw), raw, pixels);
    LengthFieldIsExact(width, height, pixels);
    StreamReadsBack(HeaderBytes(width, height), ZlibBytes(raw));
  }
}
