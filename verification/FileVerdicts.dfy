/** What reading makes of any byte string, from its bytes alone: the first fault, or
    the contents. */
module FileVerdicts {
  import opened Keys
  import opened Items
  import opened Nodes
  import opened Bounds
  import opened FileFormat
  import opened FileIo

  /** The number that the `w` bytes at `p` stand for, the most significant first. */
  ghost function NumberIn(file: Bytes, p: nat, w: nat): nat
    requires p + w <= |file|
    decreases w
  {
    if w == 0 then 0 else file[p] * Power(256, w - 1) + NumberIn(file, p + 1, w - 1)
  }

  lemma {:induction false} FromFront(x: Byte, b: Bytes)
    ensures FromBigEndian([x] + b) == x * Power(256, |b|) + FromBigEndian(b)
    decreases |b|
  {
    if b == [] {
      assert [x] + b == [x] && [x][..0] == [];
    } else {
      var init, y := b[..|b| - 1], b[|b| - 1];
      FromFront(x, init);
      assert ([x] + b)[..|b|] == [x] + init;
      PowerStep(256, |init|);
      Carry(x, Power(256, |init|), FromBigEndian(init), y);
    }
  }

  lemma Carry(x: nat, p: nat, n: nat, y: nat)
    ensures (x * p + n) * 256 + y == x * (256 * p) + (n * 256 + y)
  {
  }

  lemma {:induction false} NumberRead(file: Bytes, p: nat, w: nat)
    requires p + w <= |file|
    ensures FromBigEndian(file[p..p + w]) == NumberIn(file, p, w)
    decreases w
  {
    if w > 0 {
      NumberRead(file, p + 1, w - 1);
      assert file[p..p + w] == [file[p]] + file[p + 1..p + w];
      FromFront(file[p], file[p + 1..p + w]);
    }
  }

  // ----- faults

  ghost predicate HeaderSound(file: Bytes) {
    && |file| >= 42
    && file[0..8] == [0x50, 0x52, 0x4C, 0x59, 0x54, 0x52, 0x56, 0x32] && file[8] == 0x02
    && NumberIn(file, 26, 8) <= |file|
  }

  /** The block at `p`: nine bytes of tag, length and checksum, then the content. */
  ghost function BlockFault(f: Codecs, file: Bytes, p: nat, tag: Byte): Option<FileError> {
    if p + 9 > |file| then Some(Io)
    else if file[p] != tag then Some(InvalidFileFormat)
    else
      var n := NumberIn(file, p + 1, 4);
      if p + 9 + n > |file| then Some(Io)
      else if f.crc(file[p + 9..p + 9 + n]) != NumberIn(file, p + 5, 4) then Some(ChecksumMismatch)
      else None
  }

  ghost function ContentAt(f: Codecs, file: Bytes, p: nat, tag: Byte): Bytes
    requires BlockFault(f, file, p, tag).None?
  {
    file[p + 9..p + 9 + NumberIn(file, p + 1, 4)]
  }

  /** The index: a count, and 45 bytes for each entry. */
  ghost predicate IndexShort(index: Bytes) {
    |index| < 4 || 4 + 45 * NumberIn(index, 0, 4) > |index|
  }

  ghost function HashAt(index: Bytes, i: nat): Bytes
    requires 4 + 45 * (i + 1) <= |index|
  {
    index[4 + 45 * i..4 + 45 * i + 32]
  }

  ghost function StartAt(index: Bytes, i: nat): nat
    requires 4 + 45 * (i + 1) <= |index|
  {
    NumberIn(index, 4 + 45 * i + 32, 8)
  }

  ghost function LengthAt(index: Bytes, i: nat): nat
    requires 4 + 45 * (i + 1) <= |index|
  {
    NumberIn(index, 4 + 45 * i + 40, 4)
  }

  ghost predicate OutOfBounds(file: Bytes, index: Bytes) {
    !IndexShort(index) &&
    exists i :: 0 <= i < NumberIn(index, 0, 4) && StartAt(index, i) + LengthAt(index, i) > |file|
  }

  /** The end block, of 57 bytes. */
  ghost function EndFault(f: Codecs, file: Bytes, p: nat): Option<FileError>
    requires p <= |file|
  {
    if p + 57 > |file| then Some(Io)
    else if file[p] != 0xFF || file[p + 17..p + 25] != [0x32, 0x56, 0x52, 0x54, 0x59, 0x4C, 0x52, 0x50]
    then Some(InvalidFileFormat)
    else if file[p + 25..p + 57] != f.blake3(file[..p]) then Some(ChecksumMismatch)
    else None
  }

  /** The first fault of a file, in the order in which a reader comes upon them. */
  ghost function FirstFault(f: Codecs, file: Bytes): Option<FileError> {
    if !HeaderSound(file) then Some(InvalidFileFormat) else
    var offsetMetadata, offsetIndex, offsetEof := NumberIn(file, 10, 8), NumberIn(file, 18, 8), NumberIn(file, 26, 8);
    var inIndex := BlockFault(f, file, offsetIndex, 0x20);
    if inIndex.Some? then inIndex else
    var index := ContentAt(f, file, offsetIndex, 0x20);
    if IndexShort(index) then Some(Io) else
    var inMetadata := BlockFault(f, file, offsetMetadata, 0x01);
    if inMetadata.Some? then inMetadata
    else if f.fromJson(ContentAt(f, file, offsetMetadata, 0x01)).None? then Some(Deserialization)
    else if OutOfBounds(file, index) then Some(InvalidFileFormat)
    else EndFault(f, file, offsetEof)
  }

  // ----- the readers, by bytes

  lemma HeaderRead(file: Bytes)
    ensures |file| < 42 ==> HeaderAt(file, 0).Failure?
    ensures |file| >= 42 ==>
              && HeaderAt(file, 0).Success?
              && var h := HeaderAt(file, 0).value;
                 && h.signature == file[0..8] && h.version == file[8] && h.offsetMetadata == NumberIn(file, 10, 8)
                 && h.offsetChunkIndex == NumberIn(file, 18, 8) && h.offsetEof == NumberIn(file, 26, 8)
  {
    hide FromBigEndian, NumberIn;
    if |file| >= 42 {
      HeaderSlices(file, 0);
      NumberRead(file, 10, 8);
      NumberRead(file, 18, 8);
      NumberRead(file, 26, 8);
    }
  }

  lemma BlockRead(f: Codecs, file: Bytes, p: nat, tag: Byte)
    ensures BlockAt(f, file, p, tag) ==
              if BlockFault(f, file, p, tag).Some? then Failure(BlockFault(f, file, p, tag).value)
              else Success(ContentAt(f, file, p, tag))
  {
    hide FromBigEndian, NumberIn;
    if p + 9 <= |file| {
      SliceOfSlice(file, p, ENVELOPE_SIZE, 1, 5);
      SliceOfSlice(file, p, ENVELOPE_SIZE, 5, 9);
      NumberRead(file, p + 1, 4);
      NumberRead(file, p + 5, 4);
      assert file[p + 9..p + 9] == [];
    }
  }

  lemma EntryRead(index: Bytes, i: nat)
    requires 4 + 45 * (i + 1) <= |index|
    ensures var x := EntryAt(index, 4 + ENTRY_SIZE * i);
            && x.Success? && x.value.hash.digest == HashAt(index, i)
            && x.value.offset == StartAt(index, i) && x.value.length == LengthAt(index, i)
  {
    hide FromBigEndian, NumberIn;
    var p := 4 + 45 * i;
    SliceOfSlice(index, p, ENTRY_SIZE, 0, 32);
    SliceOfSlice(index, p, ENTRY_SIZE, 32, 40);
    SliceOfSlice(index, p, ENTRY_SIZE, 40, 44);
    NumberRead(index, p + 32, 8);
    NumberRead(index, p + 40, 4);
  }

  ghost predicate Lists(index: Bytes, es: seq<ChunkIndexEntry>) {
    && 4 + 45 * |es| <= |index|
    && forall i :: 0 <= i < |es| ==>
         && es[i].hash.digest == HashAt(index, i) && es[i].offset == StartAt(index, i)
         && es[i].length == LengthAt(index, i)
  }

  lemma {:induction false} EntriesRead(index: Bytes, n: nat)
    ensures 4 + 45 * n <= |index| ==>
              EntriesAt(index, 4, n).Success? && |EntriesAt(index, 4, n).value| == n && Lists(index, EntriesAt(index, 4, n).value)
    ensures 4 + 45 * n > |index| && n > 0 ==> EntriesAt(index, 4, n) == Failure(Io)
    decreases n
  {
    hide EntryAt, HashAt, StartAt, LengthAt;
    if n > 0 {
      EntriesRead(index, n - 1);
      if 4 + 45 * n <= |index| {
        EntryRead(index, n - 1);
      } else {
        EntryShort(index, 4 + ENTRY_SIZE * (n - 1));
      }
    }
  }

  lemma EntryShort(index: Bytes, p: nat)
    requires p + 45 > |index|
    ensures EntryAt(index, p) == Failure(Io)
  {
  }

  lemma IndexRead(index: Bytes)
    ensures IndexShort(index) ==> IndexIn(index) == Failure(Io)
    ensures !IndexShort(index) ==>
              && IndexIn(index).Success? && |IndexIn(index).value| == NumberIn(index, 0, 4)
              && Lists(index, IndexIn(index).value)
  {
    hide EntriesAt, FromBigEndian, NumberIn, Lists;
    if |index| >= 4 {
      NumberRead(index, 0, 4);
      EntriesRead(index, NumberIn(index, 0, 4));
    }
  }

  lemma EndRead(f: Codecs, file: Bytes, p: nat)
    requires p <= |file|
    ensures EndChecked(f, file, p) ==
              if EndFault(f, file, p).Some? then Failure(EndFault(f, file, p).value) else Success(true)
  {
    hide FromBigEndian;
    if p + 57 <= |file| {
      SliceOfSlice(file, p, EOF_SIZE, 17, 25);
      SliceOfSlice(file, p, EOF_SIZE, 25, 57);
    }
  }

  /** The chunk of a hash is the slice that its last entry names. */
  ghost predicate LastNamed(file: Bytes, es: seq<ChunkIndexEntry>, h: Hash, chunk: Bytes) {
    exists i :: 0 <= i < |es| && es[i].hash == h && es[i].offset + es[i].length <= |file|
                && chunk == file[es[i].offset..es[i].offset + es[i].length]
                && forall j :: i < j < |es| ==> es[j].hash != h
  }

  lemma {:induction false} ChunksRead(file: Bytes, es: seq<ChunkIndexEntry>)
    ensures (exists i :: 0 <= i < |es| && es[i].offset + es[i].length > |file|) ==>
              ChunksAt(file, es) == Failure(InvalidFileFormat)
    ensures (forall i :: 0 <= i < |es| ==> es[i].offset + es[i].length <= |file|) ==>
              && ChunksAt(file, es).Success?
              && var m := ChunksAt(file, es).value;
                 && (forall h :: h in m <==> exists i :: 0 <= i < |es| && es[i].hash == h)
                 && (forall h :: h in m ==> LastNamed(file, es, h, m[h]))
    decreases |es|
  {
    if es != [] {
      var n := |es| - 1;
      var init, x := es[..n], es[n];
      ChunksRead(file, init);
      assert forall i :: 0 <= i < n ==> init[i] == es[i];
      if forall i :: 0 <= i < |es| ==> es[i].offset + es[i].length <= |file| {
        forall h | h in ChunksAt(file, es).value
          ensures LastNamed(file, es, h, ChunksAt(file, es).value[h])
        {
          if h == x.hash { assert es[n].hash == h; } else { StillLast(file, es, h, ChunksAt(file, init).value[h]); }
        }
      }
    }
  }

  lemma StillLast(file: Bytes, es: seq<ChunkIndexEntry>, h: Hash, chunk: Bytes)
    requires es != [] && es[|es| - 1].hash != h && LastNamed(file, es[..|es| - 1], h, chunk)
    ensures LastNamed(file, es, h, chunk)
  {
    var init := es[..|es| - 1];
    var i :| 0 <= i < |init| && init[i].hash == h && init[i].offset + init[i].length <= |file|
             && chunk == file[init[i].offset..init[i].offset + init[i].length]
             && forall j :: i < j < |init| ==> init[j].hash != h;
    assert es[i] == init[i];
    forall j | i < j < |es|
      ensures es[j].hash != h
    {
      if j < |init| { assert es[j] == init[j]; }
    }
  }

  // ----- the verdict

  /** The chunk of a hash is the slice that the last index entry with it names. */
  ghost predicate ChunkIs(file: Bytes, index: Bytes, h: Hash, chunk: Bytes)
    requires !IndexShort(index)
  {
    exists i: nat :: i < NumberIn(index, 0, 4) && HashAt(index, i) == h.digest
                     && StartAt(index, i) + LengthAt(index, i) <= |file|
                     && chunk == file[StartAt(index, i)..StartAt(index, i) + LengthAt(index, i)]
                     && forall j :: i < j < NumberIn(index, 0, 4) ==> HashAt(index, j) != h.digest
  }

  lemma ChunkIsNamed(file: Bytes, index: Bytes, es: seq<ChunkIndexEntry>, h: Hash, chunk: Bytes)
    requires !IndexShort(index) && |es| == NumberIn(index, 0, 4) && Lists(index, es) && LastNamed(file, es, h, chunk)
    ensures ChunkIs(file, index, h, chunk)
  {
    hide HashAt, StartAt, LengthAt, NumberIn;
    var i :| 0 <= i < |es| && es[i].hash == h && es[i].offset + es[i].length <= |file|
             && chunk == file[es[i].offset..es[i].offset + es[i].length]
             && forall j :: i < j < |es| ==> es[j].hash != h;
    forall j | i < j < NumberIn(index, 0, 4)
      ensures HashAt(index, j) != h.digest
    {
      assert es[j].hash != h;
    }
  }

  /** Reading any byte string gives its first fault, or else what the metadata says,
      and the chunks that the index names. */
  lemma ReadVerdict(f: Codecs, file: Bytes)
    ensures match FirstFault(f, file)
            case Some(error) => ReadOf(f, file) == Failure(error)
            case None =>
              && ReadOf(f, file).Success?
              && var contents := ReadOf(f, file).value;
                 var metadata := f.fromJson(ContentAt(f, file, NumberIn(file, 10, 8), 0x01)).value;
                 var index := ContentAt(f, file, NumberIn(file, 18, 8), 0x20);
                 && contents.rootHash == metadata.rootHash && contents.treeConfig == metadata.treeConfig
                 && contents.description == metadata.description
                 && (forall h :: h in contents.chunks <==>
                       exists i :: 0 <= i < NumberIn(index, 0, 4) && HashAt(index, i) == h.digest)
                 && (forall h :: h in contents.chunks ==> ChunkIs(file, index, h, contents.chunks[h]))
  {
    hide NumberIn, BlockAt, BlockFault, ContentAt, IndexIn, IndexShort, HeaderAt, ChunksAt, EndChecked, EndFault, Lists,
      HashAt, StartAt, LengthAt, ChunkIs, LastNamed, OutOfBounds;
    HeaderRead(file);
    if HeaderSound(file) {
      var offsetMetadata, offsetIndex, offsetEof := NumberIn(file, 10, 8), NumberIn(file, 18, 8), NumberIn(file, 26, 8);
      BlockRead(f, file, offsetIndex, TAG_CHUNK_INDEX_BLOCK);
      BlockRead(f, file, offsetMetadata, TAG_METADATA_BLOCK);
      EndRead(f, file, offsetEof);
      if BlockFault(f, file, offsetIndex, 0x20).None? {
        var index := ContentAt(f, file, offsetIndex, 0x20);
        IndexRead(index);
        if !IndexShort(index) { ChunksVerdict(file, index, IndexIn(index).value); }
      }
    }
  }

  lemma ChunksVerdict(file: Bytes, index: Bytes, es: seq<ChunkIndexEntry>)
    requires !IndexShort(index) && |es| == NumberIn(index, 0, 4) && Lists(index, es)
    ensures OutOfBounds(file, index) ==> ChunksAt(file, es) == Failure(InvalidFileFormat)
    ensures !OutOfBounds(file, index) ==>
              && ChunksAt(file, es).Success?
              && var m := ChunksAt(file, es).value;
                 && (forall h :: h in m <==> exists i :: 0 <= i < NumberIn(index, 0, 4) && HashAt(index, i) == h.digest)
                 && (forall h :: h in m ==> ChunkIs(file, index, h, m[h]))
  {
    hide NumberIn, HashAt, StartAt, LengthAt, ChunkIs, LastNamed, ChunksAt;
    ChunksRead(file, es);
    if OutOfBounds(file, index) {
      var i :| 0 <= i < NumberIn(index, 0, 4) && StartAt(index, i) + LengthAt(index, i) > |file|;
      assert es[i].offset + es[i].length > |file|;
    } else {
      var m := ChunksAt(file, es).value;
      forall h
        ensures h in m <==> exists i :: 0 <= i < NumberIn(index, 0, 4) && HashAt(index, i) == h.digest
        ensures h in m ==> ChunkIs(file, index, h, m[h])
      {
        if h in m {
          var i :| 0 <= i < |es| && es[i].hash == h;
          assert HashAt(index, i) == h.digest;
          ChunkIsNamed(file, index, es, h, m[h]);
        }
        if i :| 0 <= i < NumberIn(index, 0, 4) && HashAt(index, i) == h.digest { assert es[i].hash == h; }
      }
    }
  }
}
