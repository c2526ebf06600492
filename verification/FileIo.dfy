/** Writing a tree's chunks to a `.prly` file and reading them back. */
module FileIo {
  import opened Sequences
  import opened Keys
  import opened Items
  import opened Nodes
  import opened FileFormat

  datatype Metadata = Metadata(
    rootHash: Option<Hash>, treeConfig: TreeConfig, createdAt: string, description: Option<string>,
    totalChunkDataBytes: nat)

  /** The code that the file module calls into: JSON, CRC-32 and BLAKE3. */
  datatype Codecs = Codecs(
    json: Metadata -> Bytes, fromJson: Bytes -> Option<Metadata>, crc: Bytes -> nat, blake3: Bytes -> Bytes)

  /** What is assumed of it: JSON round-trips, and checksums have their widths. */
  ghost predicate Dependable(f: Codecs) {
    && (forall m :: f.fromJson(f.json(m)) == Some(m))
    && (forall b :: f.crc(b) < U32_LIMIT)
    && (forall b :: |f.blake3(b)| == 32)
  }

  /** What a file holds. */
  datatype Contents = Contents(rootHash: Option<Hash>, treeConfig: TreeConfig, chunks: Chunks, description: Option<string>)

  // ----- the layout

  /** The chunk data in the order the chunks come in, and the index entries. */
  ghost function DataOf(chunks: Chunks, order: seq<Hash>): Bytes
    requires forall h :: h in order ==> h in chunks
  {
    if order == [] then []
    else DataOf(chunks, order[..|order| - 1]) + chunks[order[|order| - 1]]
  }

  ghost function EntriesOf(chunks: Chunks, order: seq<Hash>): (es: seq<ChunkIndexEntry>)
    requires forall h :: h in order ==> h in chunks
    ensures |es| == |order|
  {
    if order == [] then [] else
    var init, h := order[..|order| - 1], order[|order| - 1];
    EntriesOf(chunks, init) + [ChunkIndexEntry(h, HEADER_SIZE + |DataOf(chunks, init)|, |chunks[h]| % U32_LIMIT, 0)]
  }

  ghost function EntriesBytes(es: seq<ChunkIndexEntry>): Bytes {
    if es == [] then [] else EntriesBytes(es[..|es| - 1]) + es[|es| - 1].Encoded()
  }

  ghost function IndexBytes(es: seq<ChunkIndexEntry>): Bytes {
    BigEndian(|es| % U32_LIMIT, 4) + EntriesBytes(es)
  }

  ghost function Block(f: Codecs, tag: Byte, content: Bytes): (b: Bytes)
    ensures |b| == ENVELOPE_SIZE + |content|
  {
    BlockEnvelope(tag, |content| % U32_LIMIT, f.crc(content)).Encoded() + content
  }

  /** The file up to its end block. */
  ghost function BodyOf(f: Codecs, data: Bytes, index: Bytes, json: Bytes): Bytes {
    var offsetIndex := HEADER_SIZE + |data|;
    var offsetMetadata := offsetIndex + ENVELOPE_SIZE + |index|;
    var offsetEof := offsetMetadata + ENVELOPE_SIZE + |json|;
    NewHeader(offsetMetadata, offsetIndex, offsetEof).Encoded() + data
      + Block(f, TAG_CHUNK_INDEX_BLOCK, index) + Block(f, TAG_METADATA_BLOCK, json)
  }

  ghost function FileOf(f: Codecs, data: Bytes, index: Bytes, json: Bytes): Bytes {
    var offsetIndex := HEADER_SIZE + |data|;
    var body := BodyOf(f, data, index, json);
    var offsetMetadata := offsetIndex + ENVELOPE_SIZE + |index|;
    body + EofBlock(TAG_EOF_BLOCK, offsetMetadata, offsetIndex, REVERSED_SIGNATURE, f.blake3(body)).Encoded()
  }

  ghost predicate ByHash(es: seq<ChunkIndexEntry>) {
    forall i, j :: 0 <= i < j < |es| ==> Pos(es[i].hash.digest) <= Pos(es[j].hash.digest)
  }

  /** `order` runs through the chunks once, and `entries` are its entries sorted by
      hash. */
  ghost predicate Indexes(chunks: Chunks, order: seq<Hash>, entries: seq<ChunkIndexEntry>) {
    && (forall h :: h in order <==> h in chunks) && Distinct(order)
    && multiset(entries) == multiset(EntriesOf(chunks, order)) && ByHash(entries)
  }

  /** A file of these chunks and metadata, with the chunks in some order. */
  ghost predicate Encodes(f: Codecs, chunks: Chunks, metadata: Metadata, file: Bytes) {
    exists order, entries :: EncodesAs(f, chunks, metadata, file, order, entries)
  }

  ghost predicate EncodesAs(f: Codecs, chunks: Chunks, metadata: Metadata, file: Bytes,
                            order: seq<Hash>, entries: seq<ChunkIndexEntry>) {
    && Indexes(chunks, order, entries) && metadata.totalChunkDataBytes == |DataOf(chunks, order)|
    && file == FileOf(f, DataOf(chunks, order), IndexBytes(entries), f.json(metadata))
  }

  // ----- writing

  /** `sort_by_key` by hash. */
  method SortByHash(entries: seq<ChunkIndexEntry>) returns (sorted: seq<ChunkIndexEntry>)
    ensures multiset(sorted) == multiset(entries) && ByHash(sorted)
  {
    sorted := [];
    for i := 0 to |entries|
      invariant multiset(sorted) == multiset(entries[..i]) && ByHash(sorted)
    {
      assert entries[..i + 1] == entries[..i] + [entries[i]];
      sorted := InsertByHash(sorted, entries[i]);
    }
    assert entries[..|entries|] == entries;
  }

  method InsertByHash(sorted: seq<ChunkIndexEntry>, x: ChunkIndexEntry) returns (sorted': seq<ChunkIndexEntry>)
    requires ByHash(sorted)
    ensures multiset(sorted') == multiset(sorted) + multiset{x} && ByHash(sorted')
  {
    hide ByHash;
    var p := |sorted|;
    while p > 0 && !KeyLeq(sorted[p - 1].hash.digest, x.hash.digest)
      invariant 0 <= p <= |sorted|
      invariant p < |sorted| ==> Pos(x.hash.digest) <= Pos(sorted[p].hash.digest)
    {
      p := p - 1;
    }
    CutInTwo(sorted, p);
    Inserted(sorted[..p], x, sorted[p..]);
    return sorted[..p] + [x] + sorted[p..];
  }

  lemma CutInTwo<T>(s: seq<T>, p: nat)
    requires p <= |s|
    ensures s[..p] + s[p..] == s
    ensures p > 0 ==> s[..p][p - 1] == s[p - 1]
    ensures p < |s| ==> s[p..][0] == s[p]
  {
  }

  lemma Inserted(a: seq<ChunkIndexEntry>, x: ChunkIndexEntry, c: seq<ChunkIndexEntry>)
    requires ByHash(a + c)
    requires a != [] ==> Pos(a[|a| - 1].hash.digest) <= Pos(x.hash.digest)
    requires c != [] ==> Pos(x.hash.digest) <= Pos(c[0].hash.digest)
    ensures multiset(a + [x] + c) == multiset(a + c) + multiset{x} && ByHash(a + [x] + c)
  {
    hide ByHash;
    ByHashParts(a, c);
    ByHashOne(x);
    ByHashJoin(a, [x]);
    ByHashJoin(a + [x], c);
  }

  lemma ByHashOne(x: ChunkIndexEntry)
    ensures ByHash([x])
  {
  }

  lemma ByHashJoin(a: seq<ChunkIndexEntry>, c: seq<ChunkIndexEntry>)
    requires ByHash(a) && ByHash(c)
    requires forall i, j :: 0 <= i < |a| && 0 <= j < |c| ==> Pos(a[i].hash.digest) <= Pos(c[j].hash.digest)
    ensures ByHash(a + c)
  {
  }

  lemma ByHashParts(a: seq<ChunkIndexEntry>, c: seq<ChunkIndexEntry>)
    requires ByHash(a + c)
    ensures ByHash(a) && ByHash(c)
    ensures forall i :: 0 <= i < |a| ==> Pos(a[i].hash.digest) <= Pos(a[|a| - 1].hash.digest)
    ensures forall i :: 0 <= i < |c| ==> Pos(c[0].hash.digest) <= Pos(c[i].hash.digest)
    ensures forall i, j :: 0 <= i < |a| && 0 <= j < |c| ==> Pos(a[i].hash.digest) <= Pos(c[j].hash.digest)
  {
    var s := a + c;
    assert forall i :: 0 <= i < |a| ==> s[i] == a[i];
    assert forall j :: 0 <= j < |c| ==> s[|a| + j] == c[j];
    forall i, j | 0 <= i < j < |c|
      ensures Pos(c[i].hash.digest) <= Pos(c[j].hash.digest)
    {
      assert s[|a| + i] == c[i] && s[|a| + j] == c[j];
    }
    forall i, j | 0 <= i < |a| && 0 <= j < |c|
      ensures Pos(a[i].hash.digest) <= Pos(c[j].hash.digest)
    {
      assert s[i] == a[i] && s[|a| + j] == c[j];
    }
  }

  method WriteIndex(entries: seq<ChunkIndexEntry>) returns (content: Bytes)
    ensures content == IndexBytes(entries)
  {
    hide Overwrite, BigEndian, ChunkIndexEntry.Encoded;
    var writer := new ByteCursor([]);
    WriteAtEnd([], BigEndian(|entries| % U32_LIMIT, 4));
    EmptySides(BigEndian(|entries| % U32_LIMIT, 4), BigEndian(|entries| % U32_LIMIT, 4));
    writer.WriteAll(BigEndian(|entries| % U32_LIMIT, 4));
    for i := 0 to |entries|
      invariant writer.bytes == BigEndian(|entries| % U32_LIMIT, 4) + EntriesBytes(entries[..i])
      invariant writer.pos == |writer.bytes|
    {
      assert entries[..i + 1][..i] == entries[..i];
      WriteAtEnd(writer.bytes, entries[i].Encoded());
      Associative(BigEndian(|entries| % U32_LIMIT, 4), EntriesBytes(entries[..i]), entries[i].Encoded());
      entries[i].WriteTo(writer);
    }
    assert entries[..|entries|] == entries;
    content := writer.bytes;
  }

  method WriteBlock(f: Codecs, writer: ByteCursor, tag: Byte, content: Bytes)
    requires writer.pos == |writer.bytes|
    modifies writer
    ensures writer.bytes == old(writer.bytes) + Block(f, tag, content) && writer.pos == |writer.bytes|
  {
    hide Overwrite, BlockEnvelope.Encoded;
    var envelope := BlockEnvelope(tag, |content| % U32_LIMIT, f.crc(content));
    WriteAtEnd(writer.bytes, envelope.Encoded());
    WriteAtEnd(writer.bytes + envelope.Encoded(), content);
    Associative(writer.bytes, envelope.Encoded(), content);
    envelope.WriteTo(writer);
    writer.WriteAll(content);
  }

  /** Collects the chunks in some order, with their index entries. */
  method CollectChunks(chunks: Chunks) returns (data: Bytes, entries: seq<ChunkIndexEntry>, ghost order: seq<Hash>)
    ensures (forall h :: h in order <==> h in chunks) && Distinct(order)
    ensures data == DataOf(chunks, order) && entries == EntriesOf(chunks, order)
  {
    hide DataOf, EntriesOf;
    data, entries, order := [], [], [];
    NothingCollected(chunks);
    var offset := HEADER_SIZE;
    var rest := chunks.Keys;
    while rest != {}
      invariant rest <= chunks.Keys && forall h :: h in order <==> h in chunks.Keys - rest
      invariant Distinct(order)
      invariant data == DataOf(chunks, order) && entries == EntriesOf(chunks, order) && offset == HEADER_SIZE + |data|
      decreases rest
    {
      var hash :| hash in rest;
      assert hash !in order;
      OneCollected(chunks, order, hash);
      data := data + chunks[hash];
      entries := entries + [ChunkIndexEntry(hash, offset, |chunks[hash]| % U32_LIMIT, 0)];
      offset := offset + |chunks[hash]|;
      order := order + [hash];
      rest := rest - {hash};
    }
  }

  lemma NothingCollected(chunks: Chunks)
    ensures DataOf(chunks, []) == [] && EntriesOf(chunks, []) == []
  {
  }

  lemma OneCollected(chunks: Chunks, order: seq<Hash>, hash: Hash)
    requires (forall h :: h in order ==> h in chunks) && hash in chunks
    ensures forall h :: h in order + [hash] <==> h in order || h == hash
    ensures DataOf(chunks, order + [hash]) == DataOf(chunks, order) + chunks[hash]
    ensures EntriesOf(chunks, order + [hash]) ==
      EntriesOf(chunks, order)
      + [ChunkIndexEntry(hash, HEADER_SIZE + |DataOf(chunks, order)|, |chunks[hash]| % U32_LIMIT, 0)]
  {
    assert (order + [hash])[..|order|] == order;
  }

  /** Puts the parts together: chunk data and blocks after the space for the header,
      then the header, then the end block. */
  method Assemble(f: Codecs, data: Bytes, index: Bytes, json: Bytes) returns (file: Bytes)
    ensures file == FileOf(f, data, index, json)
  {
    hide Overwrite, FileHeader.Encoded, EofBlock.Encoded, Block, BigEndian;
    var writer := new ByteCursor(Zeros(HEADER_SIZE));
    writer.Seek(HEADER_SIZE);
    WriteAtEnd(writer.bytes, data);
    writer.WriteAll(data);
    var offsetIndex := writer.pos;
    WriteBlock(f, writer, TAG_CHUNK_INDEX_BLOCK, index);
    var offsetMetadata := writer.pos;
    WriteBlock(f, writer, TAG_METADATA_BLOCK, json);
    var offsetEof := writer.pos;
    var header := NewHeader(offsetMetadata, offsetIndex, offsetEof);
    HeaderLength(header);
    HeaderInPlace(f, data, index, json, header);
    writer.Seek(0);
    header.WriteTo(writer);
    ghost var body := BodyOf(f, data, index, json);
    assert writer.bytes == body;
    assert writer.bytes[0..offsetEof] == writer.bytes;
    var checksum := f.blake3(writer.bytes[0..offsetEof]);
    var eof := EofBlock(TAG_EOF_BLOCK, offsetMetadata, offsetIndex, REVERSED_SIGNATURE, checksum);
    WriteAtEnd(body, eof.Encoded());
    writer.Seek(offsetEof);
    eof.WriteTo(writer);
    file := writer.bytes;
  }

  /** `write_prly_tree_v2`, at a given time. The chunks may come in any order. */
  method WriteTree(f: Codecs, rootHash: Option<Hash>, treeConfig: TreeConfig, chunks: Chunks,
                   description: Option<string>, createdAt: string)
    returns (file: Bytes)
    ensures exists total: nat :: Encodes(f, chunks, Metadata(rootHash, treeConfig, createdAt, description, total), file)
  {
    hide FileOf, IndexBytes, DataOf, EntriesOf, ByHash;
    var data, unsorted, order := CollectChunks(chunks);
    var sorted := SortByHash(unsorted);
    var index := WriteIndex(sorted);
    var metadata := Metadata(rootHash, treeConfig, createdAt, description, |data|);
    file := Assemble(f, data, index, f.json(metadata));
    assert EncodesAs(f, chunks, metadata, file, order, sorted);
  }

  lemma HeaderLength(h: FileHeader)
    requires |h.signature| == 8 && |h.reserved| == 8
    ensures |h.Encoded()| == HEADER_SIZE
  {
    hide BigEndian;
  }

  /** The finished header replaces the space kept for it. */
  lemma HeaderInPlace(f: Codecs, data: Bytes, index: Bytes, json: Bytes, header: FileHeader)
    requires |header.Encoded()| == HEADER_SIZE
    requires var offsetIndex := HEADER_SIZE + |data|; var offsetMetadata := offsetIndex + ENVELOPE_SIZE + |index|;
             header == NewHeader(offsetMetadata, offsetIndex, offsetMetadata + ENVELOPE_SIZE + |json|)
    ensures Overwrite(Zeros(HEADER_SIZE) + data + Block(f, TAG_CHUNK_INDEX_BLOCK, index) + Block(f, TAG_METADATA_BLOCK, json),
              0, header.Encoded()) == BodyOf(f, data, index, json)
    ensures |BodyOf(f, data, index, json)| == header.offsetEof
  {
    hide Overwrite, FileHeader.Encoded, Block, BigEndian, Zeros;
    var b, c := Block(f, TAG_CHUNK_INDEX_BLOCK, index), Block(f, TAG_METADATA_BLOCK, json);
    assert Zeros(HEADER_SIZE) + data + b + c == Zeros(HEADER_SIZE) + (data + b + c);
    assert header.Encoded() + data + b + c == header.Encoded() + (data + b + c);
    WriteAtStart(Zeros(HEADER_SIZE), data + b + c, header.Encoded());
  }

  // ----- reading

  ghost function BlockAt(f: Codecs, file: Bytes, pos: nat, tag: Byte): FileResult<Bytes> {
    var envelope :- EnvelopeAt(file, pos);
    if envelope.tag != tag then Failure(InvalidFileFormat) else
    var content :- ReadAt(file, pos + ENVELOPE_SIZE, envelope.contentLength);
    if f.crc(content) != envelope.contentChecksum then Failure(ChecksumMismatch) else Success(content)
  }

  ghost function EntriesAt(content: Bytes, pos: nat, n: nat): FileResult<seq<ChunkIndexEntry>> {
    if n == 0 then Success([]) else
    var init :- EntriesAt(content, pos, n - 1);
    var last :- EntryAt(content, pos + ENTRY_SIZE * (n - 1));
    Success(init + [last])
  }

  ghost function IndexIn(content: Bytes): FileResult<seq<ChunkIndexEntry>> {
    var count :- ReadAt(content, 0, 4);
    EntriesAt(content, 4, FromBigEndian(count))
  }

  ghost function ChunksAt(file: Bytes, entries: seq<ChunkIndexEntry>): FileResult<Chunks> {
    if entries == [] then Success(map[]) else
    var chunks :- ChunksAt(file, entries[..|entries| - 1]);
    var x := entries[|entries| - 1];
    if x.offset + x.length > |file| then Failure(InvalidFileFormat)
    else Success(chunks[x.hash := file[x.offset..x.offset + x.length]])
  }

  /** The checks on the end block. */
  ghost function EndChecked(f: Codecs, file: Bytes, offsetEof: nat): FileResult<bool>
    requires offsetEof <= |file|
  {
    var eof :- EofAt(file, offsetEof);
    if eof.tag != TAG_EOF_BLOCK || eof.signature != REVERSED_SIGNATURE then Failure(InvalidFileFormat)
    else if f.blake3(file[..offsetEof]) != eof.overallChecksum then Failure(ChecksumMismatch)
    else Success(true)
  }

  /** What reading a file gives: the contents, or the first error. */
  ghost function ReadOf(f: Codecs, file: Bytes): FileResult<Contents> {
    if HeaderAt(file, 0).Failure? then Failure(InvalidFileFormat) else
    var header := HeaderAt(file, 0).value;
    if header.signature != FILE_SIGNATURE || header.version != FORMAT_VERSION || header.offsetEof > |file|
    then Failure(InvalidFileFormat) else
    var index :- BlockAt(f, file, header.offsetChunkIndex, TAG_CHUNK_INDEX_BLOCK);
    var entries :- IndexIn(index);
    var json :- BlockAt(f, file, header.offsetMetadata, TAG_METADATA_BLOCK);
    if f.fromJson(json).None? then Failure(Deserialization) else
    var metadata := f.fromJson(json).value;
    var chunks :- ChunksAt(file, entries);
    var _ :- EndChecked(f, file, header.offsetEof);
    Success(Contents(metadata.rootHash, metadata.treeConfig, chunks, metadata.description))
  }

  lemma {:induction false} EntriesFail(content: Bytes, pos: nat, i: nat, n: nat)
    requires i <= n && EntriesAt(content, pos, i).Failure?
    ensures EntriesAt(content, pos, n) == EntriesAt(content, pos, i)
    decreases n
  {
    if i < n { EntriesFail(content, pos, i, n - 1); }
  }

  lemma {:induction false} ChunksFail(file: Bytes, entries: seq<ChunkIndexEntry>, i: nat)
    requires i <= |entries| && ChunksAt(file, entries[..i]).Failure?
    ensures ChunksAt(file, entries) == ChunksAt(file, entries[..i])
    decreases |entries|
  {
    if i < |entries| {
      assert entries[..|entries| - 1][..i] == entries[..i];
      ChunksFail(file, entries[..|entries| - 1], i);
    } else {
      assert entries[..i] == entries;
    }
  }

  method ReadBlock(f: Codecs, reader: ByteCursor, tag: Byte) returns (r: FileResult<Bytes>)
    modifies reader
    ensures reader.bytes == old(reader.bytes) && r == BlockAt(f, reader.bytes, old(reader.pos), tag)
  {
    hide EnvelopeAt, ReadAt;
    var envelope :- ReadEnvelope(reader);
    if envelope.tag != tag { return Failure(InvalidFileFormat); }
    var content :- reader.ReadExact(envelope.contentLength);
    if f.crc(content) != envelope.contentChecksum { return Failure(ChecksumMismatch); }
    return Success(content);
  }

  method ReadIndex(content: Bytes) returns (r: FileResult<seq<ChunkIndexEntry>>)
    ensures r == IndexIn(content)
  {
    hide EntryAt, FromBigEndian;
    var reader := new ByteCursor(content);
    var count :- reader.ReadExact(4);
    var n := FromBigEndian(count);
    var entries: seq<ChunkIndexEntry> := [];
    for i := 0 to n
      invariant reader.bytes == content && reader.pos == 4 + ENTRY_SIZE * i
      invariant EntriesAt(content, 4, i) == Success(entries)
    {
      var x := ReadEntry(reader);
      if x.Failure? {
        EntriesFail(content, 4, i + 1, n);
        return Failure(x.error);
      }
      entries := entries + [x.value];
    }
    return Success(entries);
  }

  method ExtractChunks(file: Bytes, entries: seq<ChunkIndexEntry>) returns (r: FileResult<Chunks>)
    ensures r == ChunksAt(file, entries)
  {
    var chunks: Chunks := map[];
    for i := 0 to |entries|
      invariant ChunksAt(file, entries[..i]) == Success(chunks)
    {
      var x := entries[i];
      assert entries[..i + 1][..i] == entries[..i];
      if x.offset + x.length > |file| || (x.offset >= |file| && x.length > 0) {
        ChunksFail(file, entries, i + 1);
        return Failure(InvalidFileFormat);
      }
      chunks := chunks[x.hash := file[x.offset..x.offset + x.length]];
    }
    assert entries[..|entries|] == entries;
    return Success(chunks);
  }

  /** `read_prly_tree_v2`. */
  method ReadTree(f: Codecs, file: Bytes) returns (r: FileResult<Contents>)
    ensures r == ReadOf(f, file)
  {
    hide BlockAt, IndexIn, ChunksAt, EofAt, HeaderAt;
    var reader := new ByteCursor(file);
    var header := ReadHeader(reader);
    if header.Failure? { return Failure(InvalidFileFormat); }
    if header.value.signature != FILE_SIGNATURE { return Failure(InvalidFileFormat); }
    if header.value.version != FORMAT_VERSION { return Failure(InvalidFileFormat); }
    if header.value.offsetEof > |file| { return Failure(InvalidFileFormat); }
    var toChecksum := file[..header.value.offsetEof];
    reader.Seek(header.value.offsetChunkIndex);
    var index :- ReadBlock(f, reader, TAG_CHUNK_INDEX_BLOCK);
    var entries :- ReadIndex(index);
    reader.Seek(header.value.offsetMetadata);
    var json :- ReadBlock(f, reader, TAG_METADATA_BLOCK);
    var metadata := f.fromJson(json);
    if metadata.None? { return Failure(Deserialization); }
    var chunks :- ExtractChunks(file, entries);
    reader.Seek(header.value.offsetEof);
    var eof :- ReadEof(reader);
    if eof.tag != TAG_EOF_BLOCK { return Failure(InvalidFileFormat); }
    if eof.signature != REVERSED_SIGNATURE { return Failure(InvalidFileFormat); }
    if f.blake3(toChecksum) != eof.overallChecksum { return Failure(ChecksumMismatch); }
    return Success(Contents(metadata.value.rootHash, metadata.value.treeConfig, chunks, metadata.value.description));
  }

  // ----- the round trip

  /** A block reads back when its length fits. */
  lemma BlockReadsBack(f: Codecs, a: Bytes, tag: Byte, content: Bytes, c: Bytes)
    requires Dependable(f) && |content| < U32_LIMIT
    ensures BlockAt(f, a + Block(f, tag, content) + c, |a|, tag) == Success(content)
  {
    hide BlockEnvelope.Encoded, EnvelopeFrom, ReadAt;
    var envelope := BlockEnvelope(tag, |content| % U32_LIMIT, f.crc(content));
    var head := envelope.Encoded();
    var file := a + Block(f, tag, content) + c;
    EnvelopeRoundTrip(envelope);
    assert file == a + head + (content + c) == (a + head) + content + c;
    PartOf(a, head, content + c);
    ReadBack(a + head, content, c);
  }

  lemma PartOf(a: Bytes, b: Bytes, c: Bytes)
    ensures |a| + |b| <= |a + b + c| && (a + b + c)[|a|..|a| + |b|] == b
  {
  }

  ghost predicate AllFit(es: seq<ChunkIndexEntry>) {
    forall i :: 0 <= i < |es| ==> es[i].Fits()
  }

  lemma {:induction false} EntriesLength(es: seq<ChunkIndexEntry>)
    requires forall i :: 0 <= i < |es| ==> |es[i].hash.digest| == CHUNK_HASH_SIZE
    ensures |EntriesBytes(es)| == ENTRY_SIZE * |es|
    decreases |es|
  {
    hide BigEndian;
    if es != [] { EntriesLength(es[..|es| - 1]); }
  }

  lemma {:induction false} EntriesReadBack(a: Bytes, es: seq<ChunkIndexEntry>, c: Bytes)
    requires AllFit(es)
    ensures EntriesAt(a + EntriesBytes(es) + c, |a|, |es|) == Success(es)
    decreases |es|
  {
    hide ChunkIndexEntry.Encoded, EntryFrom;
    if es != [] {
      var init, x := es[..|es| - 1], es[|es| - 1];
      assert a + EntriesBytes(es) + c == a + EntriesBytes(init) + (x.Encoded() + c);
      EntriesReadBack(a, init, x.Encoded() + c);
      EntriesLength(init);
      EntryRoundTrip(x);
      PartOf(a + EntriesBytes(init), x.Encoded(), c);
      assert a + EntriesBytes(es) + c == (a + EntriesBytes(init)) + x.Encoded() + c;
      assert init + [x] == es;
    }
  }

  lemma IndexReadsBack(es: seq<ChunkIndexEntry>)
    requires AllFit(es) && |es| < U32_LIMIT
    ensures IndexIn(IndexBytes(es)) == Success(es)
  {
    hide BigEndian, FromBigEndian, EntriesAt, EntriesBytes, ChunkIndexEntry.Fits;
    var count, bytes := BigEndian(|es| % U32_LIMIT, 4), EntriesBytes(es);
    U32RoundTrip(|es|);
    ReadBack([], count, bytes);
    EntriesReadBack(count, es, []);
    assert [] + count + bytes == IndexBytes(es) == count + bytes + [];
  }

  /** What the file keeps of a chunk: a length that does not fit is cut. */
  ghost function Cut(chunk: Bytes): Bytes {
    chunk[..|chunk| % U32_LIMIT]
  }

  ghost function CutAll(chunks: Chunks): Chunks {
    map h | h in chunks :: Cut(chunks[h])
  }

  /** An entry points at its chunk in the file. */
  ghost predicate PointsAt(file: Bytes, chunks: Chunks, x: ChunkIndexEntry) {
    x.hash in chunks && x.offset + x.length <= |file| && file[x.offset..x.offset + x.length] == Cut(chunks[x.hash])
  }

  lemma {:induction false} ChunksReadBack(file: Bytes, chunks: Chunks, es: seq<ChunkIndexEntry>)
    requires forall x :: x in es ==> PointsAt(file, chunks, x)
    ensures ChunksAt(file, es).Success?
    ensures var m := ChunksAt(file, es).value;
            && (forall h :: h in m <==> exists x :: x in es && x.hash == h)
            && (forall h :: h in m ==> h in chunks && m[h] == Cut(chunks[h]))
    decreases |es|
  {
    hide Cut;
    if es != [] {
      var init, x := es[..|es| - 1], es[|es| - 1];
      assert es == init + [x];
      ChunksReadBack(file, chunks, init);
      assert PointsAt(file, chunks, x);
    }
  }

  lemma {:induction false} OrderSplits(chunks: Chunks, order: seq<Hash>, i: nat)
    requires (forall h :: h in order ==> h in chunks) && i < |order|
    ensures |DataOf(chunks, order[..i])| + |chunks[order[i]]| <= |DataOf(chunks, order)|
    ensures DataOf(chunks, order)[|DataOf(chunks, order[..i])|..][..|chunks[order[i]]|] == chunks[order[i]]
    ensures EntriesOf(chunks, order)[i] ==
              ChunkIndexEntry(order[i], HEADER_SIZE + |DataOf(chunks, order[..i])|, |chunks[order[i]]| % U32_LIMIT, 0)
    decreases |order|
  {
    var init, h := order[..|order| - 1], order[|order| - 1];
    if i < |order| - 1 {
      OrderSplits(chunks, init, i);
      assert init[..i] == order[..i] && init[i] == order[i];
      var a, n := |DataOf(chunks, order[..i])|, |chunks[order[i]]|;
      SliceOfPrefix(DataOf(chunks, init), chunks[h], a, n);
    } else {
      assert order[..i] == init;
    }
  }

  lemma SliceOfPrefix(s: Bytes, r: Bytes, a: nat, n: nat)
    requires a + n <= |s|
    ensures (s + r)[a..][..n] == s[a..][..n]
  {
  }

  /** The recorded extents tile the data region: the first chunk starts right after
      the header, each next one where the one before ends, and the last one ends
      where the index block begins. */
  lemma {:induction false} ExtentsTile(chunks: Chunks, order: seq<Hash>)
    requires (forall h :: h in order ==> h in chunks) && (forall h :: h in chunks ==> |chunks[h]| < U32_LIMIT)
    ensures var es := EntriesOf(chunks, order); var end := HEADER_SIZE + |DataOf(chunks, order)|;
            && (es != [] ==> es[0].offset == HEADER_SIZE && es[|es| - 1].offset + es[|es| - 1].length == end)
            && (es == [] ==> end == HEADER_SIZE)
            && (forall i :: 0 <= i < |es| - 1 ==> es[i].offset + es[i].length == es[i + 1].offset)
    decreases |order|
  {
    hide DataOf, EntriesOf;
    NothingCollected(chunks);
    if order != [] {
      var init, h := order[..|order| - 1], order[|order| - 1];
      ExtentsTile(chunks, init);
      OneCollected(chunks, init, h);
      assert init + [h] == order;
    }
  }

  /** Each entry of the index points at its chunk. */
  lemma EntriesPoint(chunks: Chunks, order: seq<Hash>, entries: seq<ChunkIndexEntry>, head: Bytes, rest: Bytes)
    requires Indexes(chunks, order, entries) && |head| == HEADER_SIZE
    ensures forall x :: x in entries ==> PointsAt(head + DataOf(chunks, order) + rest, chunks, x)
    ensures forall h :: h in chunks <==> exists x :: x in entries && x.hash == h
    ensures forall x :: x in entries ==>
              x.offset <= HEADER_SIZE + |DataOf(chunks, order)| && x.length < U32_LIMIT && x.hash in chunks
  {
    hide DataOf, EntriesOf, ByHash;
    forall x | x in entries
      ensures PointsAt(head + DataOf(chunks, order) + rest, chunks, x)
      ensures x.offset <= HEADER_SIZE + |DataOf(chunks, order)| && x.length < U32_LIMIT && x.hash in chunks
    {
      assert x in multiset(EntriesOf(chunks, order));
      var i :| 0 <= i < |order| && EntriesOf(chunks, order)[i] == x;
      EntryPoints(chunks, order, i, head, rest);
    }
    forall h | h in chunks
      ensures exists x :: x in entries && x.hash == h
    {
      var i :| 0 <= i < |order| && order[i] == h;
      EntryPoints(chunks, order, i, head, rest);
      assert EntriesOf(chunks, order)[i] in multiset(entries);
    }
  }

  lemma EntryPoints(chunks: Chunks, order: seq<Hash>, i: nat, head: Bytes, rest: Bytes)
    requires (forall h :: h in order ==> h in chunks) && i < |order| && |head| == HEADER_SIZE
    ensures var x := EntriesOf(chunks, order)[i];
            && PointsAt(head + DataOf(chunks, order) + rest, chunks, x) && x.hash == order[i]
            && x.offset <= HEADER_SIZE + |DataOf(chunks, order)| && x.length < U32_LIMIT
  {
    hide DataOf, EntriesOf;
    OrderSplits(chunks, order, i);
    var data, a, chunk := DataOf(chunks, order), |DataOf(chunks, order[..i])|, chunks[order[i]];
    MiddleSlice(head, data, rest, a, |chunk|, |chunk| % U32_LIMIT);
  }

  lemma MiddleSlice(head: Bytes, data: Bytes, rest: Bytes, a: nat, n: nat, m: nat)
    requires a + n <= |data| && m <= n
    ensures (head + data + rest)[|head| + a..|head| + a + m] == data[a..][..n][..m]
  {
  }

  ghost function HeaderOf(data: Bytes, index: Bytes, json: Bytes): FileHeader {
    var offsetIndex := HEADER_SIZE + |data|;
    var offsetMetadata := offsetIndex + ENVELOPE_SIZE + |index|;
    NewHeader(offsetMetadata, offsetIndex, offsetMetadata + ENVELOPE_SIZE + |json|)
  }

  ghost function EofOf(f: Codecs, data: Bytes, index: Bytes, json: Bytes): EofBlock {
    var h := HeaderOf(data, index, json);
    EofBlock(TAG_EOF_BLOCK, h.offsetMetadata, h.offsetChunkIndex, REVERSED_SIGNATURE, f.blake3(BodyOf(f, data, index, json)))
  }

  /** The five parts of a file, and where they start. */
  lemma FileParts(f: Codecs, data: Bytes, index: Bytes, json: Bytes)
    ensures var h := HeaderOf(data, index, json);
            var hb, eb := h.Encoded(), EofOf(f, data, index, json).Encoded();
            var bi, bm := Block(f, TAG_CHUNK_INDEX_BLOCK, index), Block(f, TAG_METADATA_BLOCK, json);
            var file, body := FileOf(f, data, index, json), BodyOf(f, data, index, json);
            && |hb| == HEADER_SIZE && |body| == h.offsetEof && file == body + eb + []
            && file == [] + hb + (data + bi + bm + eb) && file == hb + data + (bi + bm + eb)
            && file == (hb + data) + bi + (bm + eb) && |hb + data| == h.offsetChunkIndex
            && file == (hb + data + bi) + bm + eb && |hb + data + bi| == h.offsetMetadata
  {
    hide FileHeader.Encoded, EofBlock.Encoded, Block;
    HeaderLength(HeaderOf(data, index, json));
  }

  lemma EndReadsBack(f: Codecs, data: Bytes, index: Bytes, json: Bytes)
    requires Dependable(f) && |FileOf(f, data, index, json)| < U64_LIMIT
    ensures HeaderOf(data, index, json).offsetEof <= |FileOf(f, data, index, json)|
    ensures EndChecked(f, FileOf(f, data, index, json), HeaderOf(data, index, json).offsetEof) == Success(true)
  {
    hide FileHeader.Encoded, EofBlock.Encoded, Block, EofFrom, BodyOf, FileOf;
    var body, eof := BodyOf(f, data, index, json), EofOf(f, data, index, json);
    FileParts(f, data, index, json);
    EofRoundTrip(eof);
    PartOf(body, eof.Encoded(), []);
    PartOf([], body, eof.Encoded());
    assert [] + body + eof.Encoded() == body + eof.Encoded() + [];
  }

  lemma HeaderReadsBack(f: Codecs, data: Bytes, index: Bytes, json: Bytes)
    requires |FileOf(f, data, index, json)| < U64_LIMIT
    ensures HeaderAt(FileOf(f, data, index, json), 0) == Success(HeaderOf(data, index, json))
  {
    hide FileHeader.Encoded, EofBlock.Encoded, Block, HeaderFrom, BodyOf, FileOf;
    var h := HeaderOf(data, index, json);
    FileParts(f, data, index, json);
    HeaderRoundTrip(h);
    PartOf([], h.Encoded(), data + Block(f, TAG_CHUNK_INDEX_BLOCK, index) + Block(f, TAG_METADATA_BLOCK, json)
                            + EofOf(f, data, index, json).Encoded());
  }

  lemma BlocksReadBack(f: Codecs, data: Bytes, index: Bytes, json: Bytes)
    requires Dependable(f) && |index| < U32_LIMIT && |json| < U32_LIMIT
    ensures var file, h := FileOf(f, data, index, json), HeaderOf(data, index, json);
            && BlockAt(f, file, h.offsetChunkIndex, TAG_CHUNK_INDEX_BLOCK) == Success(index)
            && BlockAt(f, file, h.offsetMetadata, TAG_METADATA_BLOCK) == Success(json)
  {
    hide *;
    var hb, eb := HeaderOf(data, index, json).Encoded(), EofOf(f, data, index, json).Encoded();
    var bi, bm := Block(f, TAG_CHUNK_INDEX_BLOCK, index), Block(f, TAG_METADATA_BLOCK, json);
    FileParts(f, data, index, json);
    BlockReadsBack(f, hb + data, TAG_CHUNK_INDEX_BLOCK, index, bm + eb);
    BlockReadsBack(f, hb + data + bi, TAG_METADATA_BLOCK, json, eb);
  }

  lemma IndexedChunksReadBack(f: Codecs, chunks: Chunks, order: seq<Hash>, entries: seq<ChunkIndexEntry>, json: Bytes)
    requires Indexes(chunks, order, entries)
    ensures ChunksAt(FileOf(f, DataOf(chunks, order), IndexBytes(entries), json), entries) == Success(CutAll(chunks))
    ensures forall x :: x in entries ==>
              && x.offset <= |FileOf(f, DataOf(chunks, order), IndexBytes(entries), json)|
              && x.length < U32_LIMIT && x.hash in chunks
  {
    hide FileHeader.Encoded, EofBlock.Encoded, Block, FileOf, DataOf, IndexBytes, EntriesOf, ByHash, Cut, PointsAt,
      ChunksAt;
    var data, index := DataOf(chunks, order), IndexBytes(entries);
    var file := FileOf(f, data, index, json);
    var hb := HeaderOf(data, index, json).Encoded();
    var rest := Block(f, TAG_CHUNK_INDEX_BLOCK, index) + Block(f, TAG_METADATA_BLOCK, json)
                + EofOf(f, data, index, json).Encoded();
    FileParts(f, data, index, json);
    EntriesPoint(chunks, order, entries, hb, rest);
    assert |file| >= HEADER_SIZE + |data|;
    ChunksReadBack(file, chunks, entries);
    var m := ChunksAt(file, entries).value;
    assert m.Keys == CutAll(chunks).Keys;
    assert m == CutAll(chunks);
  }

  /** The two blocks of a file fit their 32-bit lengths, and its offsets 64 bits. */
  ghost predicate BlocksFit(f: Codecs, chunks: Chunks, metadata: Metadata, file: Bytes) {
    && (forall h :: h in chunks ==> |h.digest| == CHUNK_HASH_SIZE)
    && 4 + ENTRY_SIZE * |chunks| < U32_LIMIT && |f.json(metadata)| < U32_LIMIT && |file| < U64_LIMIT
  }

  /** What a written file reads back as: everything that was written, except that
      chunks whose length does not fit 32 bits are cut. */
  lemma WrittenReadsBack(f: Codecs, chunks: Chunks, metadata: Metadata, file: Bytes)
    requires Dependable(f) && Encodes(f, chunks, metadata, file) && BlocksFit(f, chunks, metadata, file)
    ensures ReadOf(f, file)
         == Success(Contents(metadata.rootHash, metadata.treeConfig, CutAll(chunks), metadata.description))
  {
    hide FileOf, DataOf, IndexBytes, EntriesOf, ByHash, ChunksAt, BlockAt, EndChecked, HeaderAt, IndexIn, CutAll;
    var order, entries :| EncodesAs(f, chunks, metadata, file, order, entries);
    var data, index, json := DataOf(chunks, order), IndexBytes(entries), f.json(metadata);
    IndexedChunksReadBack(f, chunks, order, entries, json);
    EntryCount(chunks, order, entries);
    HeaderReadsBack(f, data, index, json);
    BlocksReadBack(f, data, index, json);
    EndReadsBack(f, data, index, json);
    assert AllFit(entries);
    IndexReadsBack(entries);
  }

  /** There is one index entry for each chunk. */
  lemma EntryCount(chunks: Chunks, order: seq<Hash>, entries: seq<ChunkIndexEntry>)
    requires Indexes(chunks, order, entries)
    requires forall x :: x in entries ==> x.hash in chunks
    requires forall h :: h in chunks ==> |h.digest| == CHUNK_HASH_SIZE
    ensures |entries| == |chunks| && |IndexBytes(entries)| == 4 + ENTRY_SIZE * |chunks|
  {
    hide EntriesBytes, BigEndian, EntriesOf, ByHash;
    DistinctCount(order);
    assert (set h | h in order) == chunks.Keys;
    assert |entries| == |multiset(entries)| == |EntriesOf(chunks, order)|;
    forall i | 0 <= i < |entries|
      ensures |entries[i].hash.digest| == CHUNK_HASH_SIZE
    {
      assert entries[i] in entries;
    }
    EntriesLength(entries);
  }

  /** Reading gives back what was written exactly when every chunk's length fits 32
      bits: for any root, configuration, description and chunk map, and any order of
      the chunks. */
  lemma RoundTripIff(f: Codecs, chunks: Chunks, metadata: Metadata, file: Bytes)
    requires Dependable(f) && Encodes(f, chunks, metadata, file) && BlocksFit(f, chunks, metadata, file)
    ensures ReadOf(f, file)
         == Success(Contents(metadata.rootHash, metadata.treeConfig, chunks, metadata.description))
        <==> forall h :: h in chunks ==> |chunks[h]| < U32_LIMIT
  {
    hide Encodes, BlocksFit, ReadOf;
    WrittenReadsBack(f, chunks, metadata, file);
    if forall h :: h in chunks ==> |chunks[h]| < U32_LIMIT {
      forall h | h in chunks
        ensures CutAll(chunks)[h] == chunks[h]
      {
        assert chunks[h][..|chunks[h]|] == chunks[h];
      }
      assert CutAll(chunks) == chunks;
    }
    if CutAll(chunks) == chunks {
      forall h | h in chunks
        ensures |chunks[h]| < U32_LIMIT
      {
        assert |Cut(chunks[h])| < U32_LIMIT;
      }
    }
  }

  /** A file that does not read back: a single chunk of `2^32` bytes is written whole,
      but its index entry says that it is empty. */
  lemma LongChunkIsLost(f: Codecs, h: Hash, metadata: Metadata, file: Bytes)
    requires Dependable(f) && Encodes(f, map[h := Zeros(U32_LIMIT)], metadata, file)
    requires BlocksFit(f, map[h := Zeros(U32_LIMIT)], metadata, file)
    ensures ReadOf(f, file) == Success(Contents(metadata.rootHash, metadata.treeConfig, map[h := []], metadata.description))
  {
    hide Encodes, BlocksFit, ReadOf, Dependable;
    var chunks := map[h := Zeros(U32_LIMIT)];
    WrittenReadsBack(f, chunks, metadata, file);
    assert Cut(chunks[h]) == [];
    assert CutAll(chunks) == map[h := []];
  }

  // ----- any file that reads

  /** What the index of a file, as read, says of a chunk. */
  ghost predicate Named(file: Bytes, entries: seq<ChunkIndexEntry>, h: Hash, chunk: Bytes) {
    exists x :: x in entries && x.hash == h && x.offset + x.length <= |file| && chunk == file[x.offset..x.offset + x.length]
  }

  lemma {:induction false} ChunksAreNamed(file: Bytes, entries: seq<ChunkIndexEntry>)
    requires ChunksAt(file, entries).Success?
    ensures forall x :: x in entries ==> x.hash in ChunksAt(file, entries).value
    ensures forall h :: h in ChunksAt(file, entries).value ==> Named(file, entries, h, ChunksAt(file, entries).value[h])
    decreases |entries|
  {
    if entries != [] {
      var init, x := entries[..|entries| - 1], entries[|entries| - 1];
      assert entries == init + [x];
      ChunksAreNamed(file, init);
      forall h | h in ChunksAt(file, entries).value
        ensures Named(file, entries, h, ChunksAt(file, entries).value[h])
      {
        if h == x.hash {
          assert x in entries;
        } else {
          assert Named(file, init, h, ChunksAt(file, init).value[h]);
        }
      }
    }
  }

  /** Whatever file reads without an error: the chunks it gives are exactly those its
      index names, each one a slice of the file that its entry names. */
  lemma ReadChunksAreSlices(f: Codecs, file: Bytes) returns (entries: seq<ChunkIndexEntry>)
    requires ReadOf(f, file).Success?
    ensures var header := HeaderAt(file, 0).value;
            var index := BlockAt(f, file, header.offsetChunkIndex, TAG_CHUNK_INDEX_BLOCK);
            index.Success? && IndexIn(index.value) == Success(entries)
    ensures var chunks := ReadOf(f, file).value.chunks;
            && (forall h :: h in chunks <==> exists x :: x in entries && x.hash == h)
            && (forall h :: h in chunks ==> Named(file, entries, h, chunks[h]))
  {
    hide BlockAt, IndexIn, ChunksAt, EndChecked, HeaderAt, Named;
    var index := BlockAt(f, file, HeaderAt(file, 0).value.offsetChunkIndex, TAG_CHUNK_INDEX_BLOCK);
    entries := IndexIn(index.value).value;
    ChunksAreNamed(file, entries);
    NamedIsIndexed(file, entries);
  }

  lemma NamedIsIndexed(file: Bytes, entries: seq<ChunkIndexEntry>)
    ensures forall h, chunk :: Named(file, entries, h, chunk) ==> exists x :: x in entries && x.hash == h
  {
  }

  /** The end checksum seals a file: two files that both read, under a hash function
      without collisions, have equal bodies exactly when their end checksums are
      equal. */
  lemma ChecksumSeals(f: Codecs, a: Bytes, b: Bytes)
    requires ReadOf(f, a).Success? && ReadOf(f, b).Success?
    requires forall x, y :: f.blake3(x) == f.blake3(y) ==> x == y
    ensures var endA, endB := HeaderAt(a, 0).value.offsetEof, HeaderAt(b, 0).value.offsetEof;
            && endA <= |a| && endB <= |b| && EofAt(a, endA).Success? && EofAt(b, endB).Success?
            && (EofAt(a, endA).value.overallChecksum == EofAt(b, endB).value.overallChecksum <==> a[..endA] == b[..endB])
  {
    hide BlockAt, IndexIn, ChunksAt, HeaderAt, EofAt;
    EndIsSealed(f, a);
    EndIsSealed(f, b);
  }

  lemma EndIsSealed(f: Codecs, file: Bytes)
    requires ReadOf(f, file).Success?
    ensures var end := HeaderAt(file, 0).value.offsetEof;
            && end <= |file| && EofAt(file, end).Success?
            && EofAt(file, end).value.overallChecksum == f.blake3(file[..end])
  {
    hide BlockAt, IndexIn, ChunksAt, HeaderAt, EofAt;
  }
}
