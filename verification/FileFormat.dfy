/** The parts of a `.prly` file: header, index entries, block envelopes, end block. */
module FileFormat {
  import opened Keys
  import opened Nodes

  datatype FileError = InvalidFileFormat | ChecksumMismatch | Io | Deserialization

  datatype FileResult<+T> = Success(value: T) | Failure(error: FileError) {
    predicate IsFailure() { Failure? }

    function PropagateFailure<U>(): FileResult<U>
      requires Failure?
    {
      Failure(error)
    }

    function Extract(): T
      requires Success?
    {
      value
    }
  }

  const FILE_SIGNATURE: Bytes := [0x50, 0x52, 0x4C, 0x59, 0x54, 0x52, 0x56, 0x32]
  const REVERSED_SIGNATURE: Bytes := [0x32, 0x56, 0x52, 0x54, 0x59, 0x4C, 0x52, 0x50]
  const FORMAT_VERSION: Byte := 0x02
  const TAG_CHUNK_INDEX_BLOCK: Byte := 0x20
  const TAG_METADATA_BLOCK: Byte := 0x01
  const TAG_EOF_BLOCK: Byte := 0xFF
  const CHUNK_HASH_SIZE: nat := 32
  const HEADER_SIZE: nat := 42
  const ENTRY_SIZE: nat := 45
  const ENVELOPE_SIZE: nat := 9
  const EOF_SIZE: nat := 57
  const U32_LIMIT: nat := 0x1_0000_0000
  const U64_LIMIT: nat := 0x1_0000_0000_0000_0000

  // ----- big-endian integers

  /** The `width` low-order bytes of a number, the most significant first. */
  function BigEndian(n: nat, width: nat): (b: Bytes)
    ensures |b| == width
  {
    if width == 0 then [] else BigEndian(n / 256, width - 1) + [n % 256]
  }

  function FromBigEndian(b: Bytes): nat {
    if b == [] then 0 else FromBigEndian(b[..|b| - 1]) * 256 + b[|b| - 1]
  }

  ghost function Limit(width: nat): nat {
    if width == 0 then 1 else 256 * Limit(width - 1)
  }

  lemma {:induction false} NumberRoundTrip(n: nat, width: nat)
    requires n < Limit(width)
    ensures FromBigEndian(BigEndian(n, width)) == n
    decreases width
  {
    if width > 0 {
      NumberRoundTrip(n / 256, width - 1);
      var b := BigEndian(n, width);
      assert b[..width - 1] == BigEndian(n / 256, width - 1);
    }
  }

  lemma Limits()
    ensures Limit(4) == U32_LIMIT && Limit(8) == U64_LIMIT
  {
    assert Limit(1) == 256 * Limit(0) && Limit(2) == 256 * Limit(1) && Limit(3) == 256 * Limit(2);
    assert Limit(4) == 256 * Limit(3) && Limit(5) == 256 * Limit(4) && Limit(6) == 256 * Limit(5);
    assert Limit(7) == 256 * Limit(6) && Limit(8) == 256 * Limit(7);
  }

  lemma U32RoundTrip(n: nat)
    requires n < U32_LIMIT
    ensures FromBigEndian(BigEndian(n, 4)) == n
  {
    hide BigEndian, FromBigEndian, Limit;
    Limits();
    NumberRoundTrip(n, 4);
  }

  lemma U64RoundTrip(n: nat)
    requires n < U64_LIMIT
    ensures FromBigEndian(BigEndian(n, 8)) == n
  {
    hide BigEndian, FromBigEndian, Limit;
    Limits();
    NumberRoundTrip(n, 8);
  }

  // ----- a cursor over bytes

  /** Writing at a position: what is there is overwritten, a gap is filled with
      zeros, and the end grows as needed. */
  ghost function Overwrite(bytes: Bytes, pos: nat, b: Bytes): Bytes {
    var front := if pos <= |bytes| then bytes[..pos] else bytes + Zeros(pos - |bytes|);
    front + b + (if pos + |b| <= |bytes| then bytes[pos + |b|..] else [])
  }

  function Zeros(n: nat): (b: Bytes)
    ensures |b| == n && forall i :: 0 <= i < n ==> b[i] == 0
  {
    seq(n, i => 0)
  }

  /** Reading `n` bytes at a position; there may not be that many. */
  function ReadAt(bytes: Bytes, pos: nat, n: nat): FileResult<Bytes> {
    if n == 0 then Success([])
    else if pos + n <= |bytes| then Success(bytes[pos..pos + n])
    else Failure(Io)
  }

  /** `std::io::Cursor`, as far as reading, writing and seeking from the start go. */
  class ByteCursor {
    var bytes: Bytes
    var pos: nat

    constructor (b: Bytes)
      ensures bytes == b && pos == 0
    {
      bytes, pos := b, 0;
    }

    method Seek(p: nat)
      modifies this
      ensures pos == p && bytes == old(bytes)
    {
      pos := p;
    }

    method WriteAll(b: Bytes)
      modifies this
      ensures bytes == Overwrite(old(bytes), old(pos), b) && pos == old(pos) + |b|
    {
      var front := if pos <= |bytes| then bytes[..pos] else bytes + Zeros(pos - |bytes|);
      bytes := front + b + (if pos + |b| <= |bytes| then bytes[pos + |b|..] else []);
      pos := pos + |b|;
    }

    method ReadExact(n: nat) returns (r: FileResult<Bytes>)
      modifies this
      ensures bytes == old(bytes) && r == ReadAt(bytes, old(pos), n)
      ensures r.Success? ==> pos == old(pos) + n
    {
      r := ReadAt(bytes, pos, n);
      if r.Success? { pos := pos + n; }
    }
  }

  lemma WriteAtEnd(bytes: Bytes, b: Bytes)
    ensures Overwrite(bytes, |bytes|, b) == bytes + b
  {
  }

  lemma WriteAtStart(front: Bytes, rest: Bytes, b: Bytes)
    requires |b| == |front|
    ensures Overwrite(front + rest, 0, b) == b + rest
  {
  }

  /** Two writes in a row are one write. */
  lemma WriteTwice(bytes: Bytes, pos: nat, b: Bytes, c: Bytes)
    ensures Overwrite(Overwrite(bytes, pos, b), pos + |b|, c) == Overwrite(bytes, pos, b + c)
  {
    var front := if pos <= |bytes| then bytes[..pos] else bytes + Zeros(pos - |bytes|);
    assert |front| == pos;
    var once, both := Overwrite(bytes, pos, b), Overwrite(bytes, pos, b + c);
    assert once[..pos + |b|] == front + b;
  }

  /** Reading a part back. */
  lemma ReadBack(a: Bytes, b: Bytes, c: Bytes)
    ensures ReadAt(a + b + c, |a|, |b|) == Success(b)
  {
  }

  lemma SliceOfSlice(bytes: Bytes, pos: nat, n: nat, i: nat, j: nat)
    requires i <= j <= n && pos + n <= |bytes|
    ensures bytes[pos..pos + n][i..j] == bytes[pos + i..pos + j]
  {
    var part := bytes[pos..pos + n];
    forall k | 0 <= k < j - i
      ensures part[i..j][k] == bytes[pos + i..pos + j][k]
    {
      assert part[i..j][k] == part[i + k];
    }
  }

  // ----- header

  datatype FileHeader = FileHeader(
    signature: Bytes, version: Byte, headerFlags: Byte,
    offsetMetadata: nat, offsetChunkIndex: nat, offsetEof: nat, reserved: Bytes)
  {
    /** The field widths of the source. */
    ghost predicate Fits() {
      && |signature| == 8 && |reserved| == 8
      && offsetMetadata < U64_LIMIT && offsetChunkIndex < U64_LIMIT && offsetEof < U64_LIMIT
    }

    ghost function Encoded(): Bytes {
      signature + [version] + [headerFlags]
      + BigEndian(offsetMetadata, 8) + BigEndian(offsetChunkIndex, 8) + BigEndian(offsetEof, 8) + reserved
    }

    method WriteTo(writer: ByteCursor)
      modifies writer
      ensures writer.bytes == Overwrite(old(writer.bytes), old(writer.pos), Encoded())
      ensures writer.pos == old(writer.pos) + |Encoded()|
    {
      hide Overwrite, BigEndian;
      ghost var bytes, pos := writer.bytes, writer.pos;
      ghost var b := signature;
      writer.WriteAll(signature);
      WriteTwice(bytes, pos, b, [version]);
      b := b + [version];
      writer.WriteAll([version]);
      WriteTwice(bytes, pos, b, [headerFlags]);
      b := b + [headerFlags];
      writer.WriteAll([headerFlags]);
      WriteTwice(bytes, pos, b, BigEndian(offsetMetadata, 8));
      b := b + BigEndian(offsetMetadata, 8);
      writer.WriteAll(BigEndian(offsetMetadata, 8));
      WriteTwice(bytes, pos, b, BigEndian(offsetChunkIndex, 8));
      b := b + BigEndian(offsetChunkIndex, 8);
      writer.WriteAll(BigEndian(offsetChunkIndex, 8));
      WriteTwice(bytes, pos, b, BigEndian(offsetEof, 8));
      b := b + BigEndian(offsetEof, 8);
      writer.WriteAll(BigEndian(offsetEof, 8));
      WriteTwice(bytes, pos, b, reserved);
      writer.WriteAll(reserved);
    }
  }

  function NewHeader(offsetMetadata: nat, offsetChunkIndex: nat, offsetEof: nat): FileHeader {
    FileHeader(FILE_SIGNATURE, FORMAT_VERSION, 0, offsetMetadata, offsetChunkIndex, offsetEof, Zeros(8))
  }

  ghost function HeaderFrom(b: Bytes): FileHeader
    requires |b| == HEADER_SIZE
  {
    FileHeader(b[0..8], b[8], b[9], FromBigEndian(b[10..18]), FromBigEndian(b[18..26]), FromBigEndian(b[26..34]), b[34..42])
  }

  ghost function HeaderAt(bytes: Bytes, pos: nat): FileResult<FileHeader> {
    if pos + HEADER_SIZE <= |bytes| then Success(HeaderFrom(bytes[pos..pos + HEADER_SIZE])) else Failure(Io)
  }

  method ReadHeader(reader: ByteCursor) returns (r: FileResult<FileHeader>)
    modifies reader
    ensures reader.bytes == old(reader.bytes) && r == HeaderAt(reader.bytes, old(reader.pos))
    ensures r.Success? ==> reader.pos == old(reader.pos) + HEADER_SIZE
  {
    hide FromBigEndian;
    ghost var bytes, pos := reader.bytes, reader.pos;
    if pos + HEADER_SIZE <= |bytes| { HeaderSlices(bytes, pos); }
    var signature :- reader.ReadExact(8);
    var version :- reader.ReadExact(1);
    var headerFlags :- reader.ReadExact(1);
    var offsetMetadata :- reader.ReadExact(8);
    var offsetChunkIndex :- reader.ReadExact(8);
    var offsetEof :- reader.ReadExact(8);
    var reserved :- reader.ReadExact(8);
    r := Success(FileHeader(signature, version[0], headerFlags[0], FromBigEndian(offsetMetadata),
      FromBigEndian(offsetChunkIndex), FromBigEndian(offsetEof), reserved));
  }

  lemma HeaderSlices(bytes: Bytes, pos: nat)
    requires pos + HEADER_SIZE <= |bytes|
    ensures HeaderFrom(bytes[pos..pos + HEADER_SIZE]) ==
      FileHeader(bytes[pos..pos + 8], bytes[pos + 8], bytes[pos + 9], FromBigEndian(bytes[pos + 10..pos + 18]),
        FromBigEndian(bytes[pos + 18..pos + 26]), FromBigEndian(bytes[pos + 26..pos + 34]), bytes[pos + 34..pos + 42])
  {
    hide FromBigEndian;
    SliceOfSlice(bytes, pos, HEADER_SIZE, 0, 8);
    SliceOfSlice(bytes, pos, HEADER_SIZE, 10, 18);
    SliceOfSlice(bytes, pos, HEADER_SIZE, 18, 26);
    SliceOfSlice(bytes, pos, HEADER_SIZE, 26, 34);
    SliceOfSlice(bytes, pos, HEADER_SIZE, 34, 42);
  }

  /** A header reads back as it was written. */
  lemma HeaderRoundTrip(h: FileHeader)
    requires h.Fits()
    ensures |h.Encoded()| == HEADER_SIZE && HeaderFrom(h.Encoded()) == h
    ensures var b := h.Encoded();
            && b[0..8] == h.signature && b[8] == h.version && b[9] == h.headerFlags
            && b[10..18] == BigEndian(h.offsetMetadata, 8) && b[18..26] == BigEndian(h.offsetChunkIndex, 8)
            && b[26..34] == BigEndian(h.offsetEof, 8) && b[34..42] == h.reserved
  {
    hide BigEndian, FromBigEndian;
    var b := h.Encoded();
    U64RoundTrip(h.offsetMetadata);
    U64RoundTrip(h.offsetChunkIndex);
    U64RoundTrip(h.offsetEof);
    assert b[0..8] == h.signature && b[34..42] == h.reserved;
    assert b[10..18] == BigEndian(h.offsetMetadata, 8);
    assert b[18..26] == BigEndian(h.offsetChunkIndex, 8);
    assert b[26..34] == BigEndian(h.offsetEof, 8);
  }

  // ----- index entries

  datatype ChunkIndexEntry = ChunkIndexEntry(hash: Hash, offset: nat, length: nat, chunkTypeFlags: Byte) {
    ghost predicate Fits() {
      |hash.digest| == CHUNK_HASH_SIZE && offset < U64_LIMIT && length < U32_LIMIT
    }

    ghost function Encoded(): Bytes {
      hash.digest + BigEndian(offset, 8) + BigEndian(length, 4) + [chunkTypeFlags]
    }

    method WriteTo(writer: ByteCursor)
      modifies writer
      ensures writer.bytes == Overwrite(old(writer.bytes), old(writer.pos), Encoded())
      ensures writer.pos == old(writer.pos) + |Encoded()|
    {
      hide Overwrite, BigEndian;
      ghost var bytes, pos := writer.bytes, writer.pos;
      ghost var b := hash.digest;
      writer.WriteAll(hash.digest);
      WriteTwice(bytes, pos, b, BigEndian(offset, 8));
      b := b + BigEndian(offset, 8);
      writer.WriteAll(BigEndian(offset, 8));
      WriteTwice(bytes, pos, b, BigEndian(length, 4));
      b := b + BigEndian(length, 4);
      writer.WriteAll(BigEndian(length, 4));
      WriteTwice(bytes, pos, b, [chunkTypeFlags]);
      writer.WriteAll([chunkTypeFlags]);
    }
  }

  ghost function EntryFrom(b: Bytes): ChunkIndexEntry
    requires |b| == ENTRY_SIZE
  {
    ChunkIndexEntry(Hash(b[0..32]), FromBigEndian(b[32..40]), FromBigEndian(b[40..44]), b[44])
  }

  ghost function EntryAt(bytes: Bytes, pos: nat): FileResult<ChunkIndexEntry> {
    if pos + ENTRY_SIZE <= |bytes| then Success(EntryFrom(bytes[pos..pos + ENTRY_SIZE])) else Failure(Io)
  }

  method ReadEntry(reader: ByteCursor) returns (r: FileResult<ChunkIndexEntry>)
    modifies reader
    ensures reader.bytes == old(reader.bytes) && r == EntryAt(reader.bytes, old(reader.pos))
    ensures r.Success? ==> reader.pos == old(reader.pos) + ENTRY_SIZE
  {
    hide FromBigEndian;
    ghost var bytes, pos := reader.bytes, reader.pos;
    if pos + ENTRY_SIZE <= |bytes| {
      SliceOfSlice(bytes, pos, ENTRY_SIZE, 0, 32);
      SliceOfSlice(bytes, pos, ENTRY_SIZE, 32, 40);
      SliceOfSlice(bytes, pos, ENTRY_SIZE, 40, 44);
    }
    var hash :- reader.ReadExact(32);
    var offset :- reader.ReadExact(8);
    var length :- reader.ReadExact(4);
    var chunkTypeFlags :- reader.ReadExact(1);
    r := Success(ChunkIndexEntry(Hash(hash), FromBigEndian(offset), FromBigEndian(length), chunkTypeFlags[0]));
  }

  /** An index entry reads back as it was written. */
  lemma EntryRoundTrip(x: ChunkIndexEntry)
    requires x.Fits()
    ensures |x.Encoded()| == ENTRY_SIZE && EntryFrom(x.Encoded()) == x
    ensures var b := x.Encoded();
            && b[0..32] == x.hash.digest && b[32..40] == BigEndian(x.offset, 8) && b[40..44] == BigEndian(x.length, 4)
            && b[44] == x.chunkTypeFlags
  {
    hide BigEndian, FromBigEndian;
    var b := x.Encoded();
    U64RoundTrip(x.offset);
    U32RoundTrip(x.length);
    assert b[0..32] == x.hash.digest && b[32..40] == BigEndian(x.offset, 8) && b[40..44] == BigEndian(x.length, 4);
  }

  // ----- block envelopes

  datatype BlockEnvelope = BlockEnvelope(tag: Byte, contentLength: nat, contentChecksum: nat) {
    ghost predicate Fits() {
      contentLength < U32_LIMIT && contentChecksum < U32_LIMIT
    }

    ghost function Encoded(): Bytes {
      [tag] + BigEndian(contentLength, 4) + BigEndian(contentChecksum, 4)
    }

    method WriteTo(writer: ByteCursor)
      modifies writer
      ensures writer.bytes == Overwrite(old(writer.bytes), old(writer.pos), Encoded())
      ensures writer.pos == old(writer.pos) + |Encoded()|
    {
      hide Overwrite, BigEndian;
      ghost var bytes, pos := writer.bytes, writer.pos;
      writer.WriteAll([tag]);
      WriteTwice(bytes, pos, [tag], BigEndian(contentLength, 4));
      writer.WriteAll(BigEndian(contentLength, 4));
      WriteTwice(bytes, pos, [tag] + BigEndian(contentLength, 4), BigEndian(contentChecksum, 4));
      writer.WriteAll(BigEndian(contentChecksum, 4));
    }
  }

  ghost function EnvelopeFrom(b: Bytes): BlockEnvelope
    requires |b| == ENVELOPE_SIZE
  {
    BlockEnvelope(b[0], FromBigEndian(b[1..5]), FromBigEndian(b[5..9]))
  }

  ghost function EnvelopeAt(bytes: Bytes, pos: nat): FileResult<BlockEnvelope> {
    if pos + ENVELOPE_SIZE <= |bytes| then Success(EnvelopeFrom(bytes[pos..pos + ENVELOPE_SIZE])) else Failure(Io)
  }

  method ReadEnvelope(reader: ByteCursor) returns (r: FileResult<BlockEnvelope>)
    modifies reader
    ensures reader.bytes == old(reader.bytes) && r == EnvelopeAt(reader.bytes, old(reader.pos))
    ensures r.Success? ==> reader.pos == old(reader.pos) + ENVELOPE_SIZE
  {
    hide FromBigEndian;
    ghost var bytes, pos := reader.bytes, reader.pos;
    if pos + ENVELOPE_SIZE <= |bytes| {
      SliceOfSlice(bytes, pos, ENVELOPE_SIZE, 1, 5);
      SliceOfSlice(bytes, pos, ENVELOPE_SIZE, 5, 9);
    }
    var tag :- reader.ReadExact(1);
    var contentLength :- reader.ReadExact(4);
    var contentChecksum :- reader.ReadExact(4);
    r := Success(BlockEnvelope(tag[0], FromBigEndian(contentLength), FromBigEndian(contentChecksum)));
  }

  /** An envelope reads back as it was written. */
  lemma EnvelopeRoundTrip(x: BlockEnvelope)
    requires x.Fits()
    ensures |x.Encoded()| == ENVELOPE_SIZE && EnvelopeFrom(x.Encoded()) == x
    ensures var b := x.Encoded();
            b[0] == x.tag && b[1..5] == BigEndian(x.contentLength, 4) && b[5..9] == BigEndian(x.contentChecksum, 4)
  {
    hide BigEndian, FromBigEndian;
    var b := x.Encoded();
    U32RoundTrip(x.contentLength);
    U32RoundTrip(x.contentChecksum);
    assert b[1..5] == BigEndian(x.contentLength, 4) && b[5..9] == BigEndian(x.contentChecksum, 4);
  }

  // ----- end block, with the overall checksum that the source enables

  datatype EofBlock = EofBlock(
    tag: Byte, offsetMetadata: nat, offsetChunkIndex: nat, signature: Bytes, overallChecksum: Bytes)
  {
    ghost predicate Fits() {
      offsetMetadata < U64_LIMIT && offsetChunkIndex < U64_LIMIT && |signature| == 8 && |overallChecksum| == 32
    }

    ghost function Encoded(): Bytes {
      [tag] + BigEndian(offsetMetadata, 8) + BigEndian(offsetChunkIndex, 8) + signature + overallChecksum
    }

    method WriteTo(writer: ByteCursor)
      modifies writer
      ensures writer.bytes == Overwrite(old(writer.bytes), old(writer.pos), Encoded())
      ensures writer.pos == old(writer.pos) + |Encoded()|
    {
      hide Overwrite, BigEndian;
      ghost var bytes, pos := writer.bytes, writer.pos;
      ghost var b := [tag];
      writer.WriteAll([tag]);
      WriteTwice(bytes, pos, b, BigEndian(offsetMetadata, 8));
      b := b + BigEndian(offsetMetadata, 8);
      writer.WriteAll(BigEndian(offsetMetadata, 8));
      WriteTwice(bytes, pos, b, BigEndian(offsetChunkIndex, 8));
      b := b + BigEndian(offsetChunkIndex, 8);
      writer.WriteAll(BigEndian(offsetChunkIndex, 8));
      WriteTwice(bytes, pos, b, signature);
      b := b + signature;
      writer.WriteAll(signature);
      WriteTwice(bytes, pos, b, overallChecksum);
      writer.WriteAll(overallChecksum);
    }
  }

  ghost function EofFrom(b: Bytes): EofBlock
    requires |b| == EOF_SIZE
  {
    EofBlock(b[0], FromBigEndian(b[1..9]), FromBigEndian(b[9..17]), b[17..25], b[25..57])
  }

  ghost function EofAt(bytes: Bytes, pos: nat): FileResult<EofBlock> {
    if pos + EOF_SIZE <= |bytes| then Success(EofFrom(bytes[pos..pos + EOF_SIZE])) else Failure(Io)
  }

  method ReadEof(reader: ByteCursor) returns (r: FileResult<EofBlock>)
    modifies reader
    ensures reader.bytes == old(reader.bytes) && r == EofAt(reader.bytes, old(reader.pos))
  {
    hide FromBigEndian;
    ghost var bytes, pos := reader.bytes, reader.pos;
    if pos + EOF_SIZE <= |bytes| {
      SliceOfSlice(bytes, pos, EOF_SIZE, 1, 9);
      SliceOfSlice(bytes, pos, EOF_SIZE, 9, 17);
      SliceOfSlice(bytes, pos, EOF_SIZE, 17, 25);
      SliceOfSlice(bytes, pos, EOF_SIZE, 25, 57);
    }
    var tag :- reader.ReadExact(1);
    var offsetMetadata :- reader.ReadExact(8);
    var offsetChunkIndex :- reader.ReadExact(8);
    var signature :- reader.ReadExact(8);
    var overallChecksum :- reader.ReadExact(32);
    r := Success(EofBlock(
      tag[0], FromBigEndian(offsetMetadata), FromBigEndian(offsetChunkIndex), signature, overallChecksum));
  }

  /** An end block reads back as it was written. */
  lemma EofRoundTrip(x: EofBlock)
    requires x.Fits()
    ensures |x.Encoded()| == EOF_SIZE && EofFrom(x.Encoded()) == x
    ensures var b := x.Encoded();
            && b[0] == x.tag && b[1..9] == BigEndian(x.offsetMetadata, 8) && b[9..17] == BigEndian(x.offsetChunkIndex, 8)
            && b[17..25] == x.signature && b[25..57] == x.overallChecksum
  {
    hide BigEndian, FromBigEndian;
    var b := x.Encoded();
    U64RoundTrip(x.offsetMetadata);
    U64RoundTrip(x.offsetChunkIndex);
    assert b[1..9] == BigEndian(x.offsetMetadata, 8) && b[9..17] == BigEndian(x.offsetChunkIndex, 8);
    assert b[17..25] == x.signature && b[25..57] == x.overallChecksum;
  }
}
