/** The bytes of a written file, position by position. */
module FileLayout {
  import opened Keys
  import opened Nodes
  import opened Bounds
  import opened FileFormat
  import opened FileIo

  // ----- numbers and byte strings in place

  ghost predicate Digit(file: Bytes, p: nat, w: nat, n: nat, j: nat)
    requires j < w && p + w <= |file|
  {
    file[p + j] == n / Power(256, w - 1 - j) % 256
  }

  /** The `w` low-order bytes of the number stand at `p`, the most significant first. */
  ghost predicate NumberAt(file: Bytes, p: nat, w: nat, n: nat) {
    p + w <= |file| && forall j :: 0 <= j < w ==> Digit(file, p, w, n, j)
  }

  ghost predicate BytesAt(file: Bytes, p: nat, b: Bytes) {
    p + |b| <= |file| && file[p..p + |b|] == b
  }

  lemma TwoAt(file: Bytes, p: nat, a: Bytes, b: Bytes)
    requires BytesAt(file, p, a + b)
    ensures BytesAt(file, p, a) && BytesAt(file, p + |a|, b)
  {
    var whole := file[p..p + |a + b|];
    assert whole[..|a|] == a && whole[|a|..] == b;
    assert file[p..p + |a|] == whole[..|a|];
    assert file[p + |a|..p + |a| + |b|] == whole[|a|..];
  }

  lemma OneAt(file: Bytes, p: nat, x: Byte)
    requires BytesAt(file, p, [x])
    ensures p < |file| && file[p] == x
  {
    assert file[p..p + 1][0] == file[p];
  }

  lemma InPlace(a: Bytes, b: Bytes, c: Bytes)
    ensures BytesAt(a + b + c, |a|, b)
  {
  }

  lemma DivideTwice(n: nat, b: nat)
    requires b > 0
    ensures n / 256 / b == n / (256 * b)
  {
    var q := n / (256 * b);
    assert q * (256 * b) <= n < (q + 1) * (256 * b);
    var m := n / 256;
    assert q * b <= m by {
      assert 256 * (q * b) <= n;
    }
    assert m < (q + 1) * b by {
      assert n < 256 * ((q + 1) * b);
    }
    QuotientIs(m, b, q);
  }

  lemma QuotientIs(m: nat, b: nat, q: nat)
    requires b > 0 && q * b <= m < (q + 1) * b
    ensures m / b == q
  {
    var r := m / b;
    assert r * b <= m < (r + 1) * b;
    if r < q { Multiply(r + 1, b, q, b); }
    if q < r { Multiply(q + 1, b, r, b); }
  }

  /** Big-endian bytes are the digits to base 256. */
  lemma {:induction false} Digits(n: nat, w: nat, j: nat)
    requires j < w
    ensures BigEndian(n, w)[j] == n / Power(256, w - 1 - j) % 256
    decreases w
  {
    if j < w - 1 {
      Digits(n / 256, w - 1, j);
      DivideTwice(n, Power(256, w - 2 - j));
      assert Power(256, w - 1 - j) == 256 * Power(256, w - 2 - j);
    }
  }

  lemma NumberWritten(file: Bytes, p: nat, w: nat, n: nat)
    requires BytesAt(file, p, BigEndian(n, w))
    ensures NumberAt(file, p, w, n)
  {
    hide BigEndian, Power;
    forall j | 0 <= j < w
      ensures Digit(file, p, w, n, j)
    {
      Digits(n, w, j);
      assert file[p..p + w][j] == file[p + j];
    }
  }

  // ----- the parts of a file

  ghost predicate HeaderLaid(file: Bytes, offsetMetadata: nat, offsetIndex: nat, offsetEof: nat) {
    && |file| >= 42
    && file[0..8] == [0x50, 0x52, 0x4C, 0x59, 0x54, 0x52, 0x56, 0x32] && file[8] == 0x02 && file[9] == 0
    && NumberAt(file, 10, 8, offsetMetadata) && NumberAt(file, 18, 8, offsetIndex) && NumberAt(file, 26, 8, offsetEof)
    && file[34..42] == [0, 0, 0, 0, 0, 0, 0, 0]
  }

  ghost predicate BlockLaid(f: Codecs, file: Bytes, p: nat, tag: Byte, content: Bytes) {
    && p + 9 + |content| <= |file| && file[p] == tag
    && NumberAt(file, p + 1, 4, |content| % 0x1_0000_0000) && NumberAt(file, p + 5, 4, f.crc(content))
    && file[p + 9..p + 9 + |content|] == content
  }

  ghost predicate EntryLaid(file: Bytes, p: nat, x: ChunkIndexEntry) {
    && p + 45 <= |file| && file[p..p + 32] == x.hash.digest
    && NumberAt(file, p + 32, 8, x.offset) && NumberAt(file, p + 40, 4, x.length) && file[p + 44] == x.chunkTypeFlags
  }

  ghost predicate EndLaid(f: Codecs, file: Bytes, p: nat, offsetMetadata: nat, offsetIndex: nat) {
    && |file| == p + 57 && file[p] == 0xFF
    && NumberAt(file, p + 1, 8, offsetMetadata) && NumberAt(file, p + 9, 8, offsetIndex)
    && file[p + 17..p + 25] == [0x32, 0x56, 0x52, 0x54, 0x59, 0x4C, 0x52, 0x50]
    && file[p + 25..p + 57] == f.blake3(file[..p])
  }

  lemma HeaderBytes(file: Bytes, h: FileHeader)
    requires h == NewHeader(h.offsetMetadata, h.offsetChunkIndex, h.offsetEof) && BytesAt(file, 0, h.Encoded())
    ensures HeaderLaid(file, h.offsetMetadata, h.offsetChunkIndex, h.offsetEof)
  {
    hide BytesAt, BigEndian, NumberAt;
    var a := h.signature;
    var b := a + [h.version];
    var c := b + [h.headerFlags];
    var d := c + BigEndian(h.offsetMetadata, 8);
    var g := d + BigEndian(h.offsetChunkIndex, 8);
    var i := g + BigEndian(h.offsetEof, 8);
    TwoAt(file, 0, i, h.reserved);
    TwoAt(file, 0, g, BigEndian(h.offsetEof, 8));
    TwoAt(file, 0, d, BigEndian(h.offsetChunkIndex, 8));
    TwoAt(file, 0, c, BigEndian(h.offsetMetadata, 8));
    TwoAt(file, 0, b, [h.headerFlags]);
    TwoAt(file, 0, a, [h.version]);
    OneAt(file, 8, h.version);
    OneAt(file, 9, h.headerFlags);
    NumberWritten(file, 10, 8, h.offsetMetadata);
    NumberWritten(file, 18, 8, h.offsetChunkIndex);
    NumberWritten(file, 26, 8, h.offsetEof);
    StringAt(file, 0, h.signature);
    StringAt(file, 34, h.reserved);
    assert Zeros(8) == [0, 0, 0, 0, 0, 0, 0, 0];
  }

  lemma StringAt(file: Bytes, p: nat, b: Bytes)
    requires BytesAt(file, p, b)
    ensures p + |b| <= |file| && file[p..p + |b|] == b
  {
  }

  lemma BlockBytes(f: Codecs, file: Bytes, p: nat, tag: Byte, content: Bytes)
    requires BytesAt(file, p, Block(f, tag, content))
    ensures BlockLaid(f, file, p, tag, content)
  {
    hide BytesAt, BigEndian, NumberAt;
    var n, crc := |content| % U32_LIMIT, f.crc(content);
    var head := BlockEnvelope(tag, n, crc).Encoded();
    TwoAt(file, p, head, content);
    TwoAt(file, p, [tag] + BigEndian(n, 4), BigEndian(crc, 4));
    TwoAt(file, p, [tag], BigEndian(n, 4));
    OneAt(file, p, tag);
    NumberWritten(file, p + 1, 4, n);
    NumberWritten(file, p + 5, 4, crc);
    StringAt(file, p + 9, content);
  }

  lemma EntryBytes(file: Bytes, p: nat, x: ChunkIndexEntry)
    requires |x.hash.digest| == 32 && BytesAt(file, p, x.Encoded())
    ensures EntryLaid(file, p, x)
  {
    hide BytesAt, BigEndian, NumberAt;
    var a := x.hash.digest;
    var b := a + BigEndian(x.offset, 8);
    var c := b + BigEndian(x.length, 4);
    TwoAt(file, p, c, [x.chunkTypeFlags]);
    TwoAt(file, p, b, BigEndian(x.length, 4));
    TwoAt(file, p, a, BigEndian(x.offset, 8));
    StringAt(file, p, a);
    NumberWritten(file, p + 32, 8, x.offset);
    NumberWritten(file, p + 40, 4, x.length);
    OneAt(file, p + 44, x.chunkTypeFlags);
  }

  /** The entries stand one after the other, 45 bytes each. */
  lemma {:induction false} EntriesLaid(file: Bytes, p: nat, es: seq<ChunkIndexEntry>, i: nat)
    requires i < |es| && (forall j :: 0 <= j < |es| ==> |es[j].hash.digest| == 32) && BytesAt(file, p, EntriesBytes(es))
    ensures EntryLaid(file, p + 45 * i, es[i])
    decreases |es|
  {
    hide BytesAt, BigEndian, ChunkIndexEntry.Encoded;
    var init, x := es[..|es| - 1], es[|es| - 1];
    TwoAt(file, p, EntriesBytes(init), x.Encoded());
    EntriesLength(init);
    if i < |es| - 1 {
      EntriesLaid(file, p, init, i);
    } else {
      EntryBytes(file, p + 45 * i, x);
    }
  }

  lemma EndBytes(f: Codecs, file: Bytes, body: Bytes, x: EofBlock)
    requires file == body + x.Encoded() && x.tag == TAG_EOF_BLOCK && x.signature == REVERSED_SIGNATURE
    requires x.overallChecksum == f.blake3(body) && |f.blake3(body)| == 32
    ensures EndLaid(f, file, |body|, x.offsetMetadata, x.offsetChunkIndex)
  {
    hide BytesAt, BigEndian, NumberAt;
    var p := |body|;
    InPlace(body, x.Encoded(), []);
    assert body + x.Encoded() + [] == file;
    var a := [x.tag];
    var b := a + BigEndian(x.offsetMetadata, 8);
    var c := b + BigEndian(x.offsetChunkIndex, 8);
    TwoAt(file, p, c + x.signature, x.overallChecksum);
    TwoAt(file, p, c, x.signature);
    TwoAt(file, p, b, BigEndian(x.offsetChunkIndex, 8));
    TwoAt(file, p, a, BigEndian(x.offsetMetadata, 8));
    OneAt(file, p, x.tag);
    NumberWritten(file, p + 1, 8, x.offsetMetadata);
    NumberWritten(file, p + 9, 8, x.offsetChunkIndex);
    StringAt(file, p + 17, x.signature);
    StringAt(file, p + 25, x.overallChecksum);
    assert file[..p] == body;
  }

  // ----- the whole file

  /** The entries are those of the chunks: one for each, sorted by hash, with the place
      and the length of the chunk, which stands there, before the index. */
  ghost predicate Places(chunks: Chunks, file: Bytes, entries: seq<ChunkIndexEntry>, offsetIndex: nat) {
    && |entries| == |chunks| && (forall h :: h in chunks <==> exists x :: x in entries && x.hash == h)
    && (forall i, j :: 0 <= i < j < |entries| ==> KeyLeq(entries[i].hash.digest, entries[j].hash.digest))
    && forall x :: x in entries ==> Placed(chunks, file, x, offsetIndex)
  }

  ghost predicate Placed(chunks: Chunks, file: Bytes, x: ChunkIndexEntry, offsetIndex: nat) {
    x.hash in chunks &&
    var chunk := chunks[x.hash];
    && x.length == |chunk| % 0x1_0000_0000 && x.chunkTypeFlags == 0
    && 42 <= x.offset && x.offset + |chunk| <= offsetIndex <= |file|
    && file[x.offset..x.offset + |chunk|] == chunk
  }

  lemma ChunkPlaced(chunks: Chunks, order: seq<Hash>, i: nat, head: Bytes, rest: Bytes)
    requires (forall h :: h in order ==> h in chunks) && i < |order| && |head| == 42
    ensures var x := EntriesOf(chunks, order)[i];
            && x.hash == order[i]
            && Placed(chunks, head + DataOf(chunks, order) + rest, x, 42 + |DataOf(chunks, order)|)
  {
    hide DataOf, EntriesOf;
    OrderSplits(chunks, order, i);
    var data, a, chunk := DataOf(chunks, order), |DataOf(chunks, order[..i])|, chunks[order[i]];
    MiddleSlice(head, data, rest, a, |chunk|, |chunk|);
    assert data[a..][..|chunk|][..|chunk|] == chunk;
  }

  lemma AllPlaced(chunks: Chunks, order: seq<Hash>, entries: seq<ChunkIndexEntry>, head: Bytes, rest: Bytes)
    requires Indexes(chunks, order, entries) && |head| == 42
    requires forall h :: h in chunks ==> |h.digest| == 32
    ensures Places(chunks, head + DataOf(chunks, order) + rest, entries, 42 + |DataOf(chunks, order)|)
    ensures |IndexBytes(entries)| == 4 + 45 * |entries|
  {
    hide DataOf, EntriesOf, Placed, IndexBytes;
    var file := head + DataOf(chunks, order) + rest;
    forall x | x in entries
      ensures Placed(chunks, file, x, 42 + |DataOf(chunks, order)|) && x.hash in chunks
    {
      assert x in multiset(EntriesOf(chunks, order));
      var i :| 0 <= i < |order| && EntriesOf(chunks, order)[i] == x;
      ChunkPlaced(chunks, order, i, head, rest);
    }
    forall h | h in chunks
      ensures exists x :: x in entries && x.hash == h
    {
      var i :| 0 <= i < |order| && order[i] == h;
      ChunkPlaced(chunks, order, i, head, rest);
      assert EntriesOf(chunks, order)[i] in multiset(entries);
    }
    EntryCount(chunks, order, entries);
  }

  /** Every byte of a written file: header, chunk data, index block, metadata block and
      end block, each field at its place. */
  lemma FileBytes(f: Codecs, chunks: Chunks, metadata: Metadata, file: Bytes)
    returns (entries: seq<ChunkIndexEntry>, index: Bytes)
    requires Dependable(f) && Encodes(f, chunks, metadata, file) && forall h :: h in chunks ==> |h.digest| == 32
    ensures var offsetIndex := 42 + metadata.totalChunkDataBytes;
            var offsetMetadata := offsetIndex + 9 + |index|;
            var offsetEof := offsetMetadata + 9 + |f.json(metadata)|;
            && HeaderLaid(file, offsetMetadata, offsetIndex, offsetEof)
            && Places(chunks, file, entries, offsetIndex)
            && |index| == 4 + 45 * |entries| && BlockLaid(f, file, offsetIndex, 0x20, index)
            && NumberAt(file, offsetIndex + 9, 4, |entries| % 0x1_0000_0000)
            && (forall i :: 0 <= i < |entries| ==> EntryLaid(file, offsetIndex + 13 + 45 * i, entries[i]))
            && BlockLaid(f, file, offsetMetadata, 0x01, f.json(metadata))
            && EndLaid(f, file, offsetEof, offsetMetadata, offsetIndex)
  {
    hide FileHeader.Encoded, EofBlock.Encoded, Block, FileOf, BodyOf, DataOf, EntriesOf, EntriesBytes, BigEndian, ByHash,
      HeaderLaid, BlockLaid, EndLaid, EntryLaid, NumberAt, BytesAt, Places;
    var order, es :| EncodesAs(f, chunks, metadata, file, order, es);
    var data, json := DataOf(chunks, order), f.json(metadata);
    entries, index := es, IndexBytes(es);
    var h, eof := HeaderOf(data, index, json), EofOf(f, data, index, json);
    var hb, bi, bm := h.Encoded(), Block(f, TAG_CHUNK_INDEX_BLOCK, index), Block(f, TAG_METADATA_BLOCK, json);
    FileParts(f, data, index, json);
    InPlace([], hb, data + bi + bm + eof.Encoded());
    HeaderBytes(file, h);
    AllPlaced(chunks, order, es, hb, bi + bm + eof.Encoded());
    InPlace(hb + data, bi, bm + eof.Encoded());
    BlockBytes(f, file, h.offsetChunkIndex, TAG_CHUNK_INDEX_BLOCK, index);
    InPlace(hb + data + bi, bm, eof.Encoded());
    BlockBytes(f, file, h.offsetMetadata, TAG_METADATA_BLOCK, json);
    var body := BodyOf(f, data, index, json);
    assert body + eof.Encoded() + [] == body + eof.Encoded();
    EndBytes(f, file, body, eof);
    IndexLaid(f, chunks, file, h.offsetChunkIndex, es);
  }

  lemma IndexLaid(f: Codecs, chunks: Chunks, file: Bytes, p: nat, es: seq<ChunkIndexEntry>)
    requires BlockLaid(f, file, p, TAG_CHUNK_INDEX_BLOCK, IndexBytes(es)) && Places(chunks, file, es, p)
    requires forall h :: h in chunks ==> |h.digest| == 32
    ensures NumberAt(file, p + 9, 4, |es| % 0x1_0000_0000)
    ensures forall i :: 0 <= i < |es| ==> EntryLaid(file, p + 13 + 45 * i, es[i])
  {
    hide BigEndian, EntriesBytes, NumberAt, EntryLaid;
    assert BytesAt(file, p + 9, IndexBytes(es));
    TwoAt(file, p + 9, BigEndian(|es| % U32_LIMIT, 4), EntriesBytes(es));
    NumberWritten(file, p + 9, 4, |es| % U32_LIMIT);
    forall i | 0 <= i < |es|
      ensures EntryLaid(file, p + 13 + 45 * i, es[i])
    {
      assert forall j :: 0 <= j < |es| ==> es[j] in es;
      EntriesLaid(file, p + 13, es, i);
    }
  }
}
