/** Node chunks, value representations and the parameters of the model. */
module Nodes {
  import opened Keys
  import opened Items

  datatype Hash = Hash(digest: Bytes)

  datatype ValueRepr =
    | Inline(value: Value)
    | Chunked(dataHash: Hash)
    | ChunkedSequence(chunkHashes: seq<Hash>, totalSize: nat)

  datatype LeafEntry = LeafEntry(key: Key, value: ValueRepr)

  datatype InternalEntry = InternalEntry(boundaryKey: Key, childHash: Hash, numItemsSubtree: nat)

  datatype TreeConfig = TreeConfig(
    targetFanout: nat, minFanout: nat,
    cdcMinSize: nat, cdcAvgSize: nat, cdcMaxSize: nat,
    maxInlineValueSize: nat)
  {
    /** What the constructors of the tree insist on. */
    predicate Valid() {
      minFanout > 0 && targetFanout >= 2 * minFanout
    }
  }

  datatype Node =
    | LeafNode(level: nat, entries: seq<LeafEntry>)
    | InternalNode(level: nat, children: seq<InternalEntry>)
  {
    function NumEntries(): nat {
      match this
      case LeafNode(_, entries) => |entries|
      case InternalNode(_, children) => |children|
    }

    predicate IsUnderflow(config: TreeConfig) {
      NumEntries() < config.minFanout
    }
  }

  /** Levels are unsigned bytes. */
  const MAX_LEVEL: nat := 255

  /** One level up, in wrapping arithmetic. */
  function NextLevel(level: nat): nat {
    if level == MAX_LEVEL then 0 else level + 1
  }

  /** One content-defined chunk of a value. */
  datatype Piece = Piece(offset: nat, length: nat)

  /** The code this model does not look into, as parameters: the hash function,
      the node serialisation and the content-defined chunker. */
  datatype Env = Env(
    config: TreeConfig,
    hash: Bytes -> Hash,
    encode: Node -> Bytes,
    decode: Bytes -> Option<Node>,
    cut: Bytes -> seq<Piece>)

  ghost predicate SameHash(e: Env, a: Bytes, b: Bytes) {
    e.hash(a) == e.hash(b)
  }

  /** `pieces` cover the interval from `from` to `to` without gap or overlap. */
  ghost predicate Tiles(pieces: seq<Piece>, from: nat, to: nat) {
    if pieces == [] then from == to
    else pieces[0].offset == from && from + pieces[0].length <= to && Tiles(pieces[1..], from + pieces[0].length, to)
  }

  /** What is assumed of the parameters: a valid configuration, no hash collision,
      serialisation that round-trips, a chunker that tiles its input (or gives up). */
  ghost predicate Trusted(e: Env) {
    && e.config.Valid()
    && (forall a, b {:trigger SameHash(e, a, b)} :: SameHash(e, a, b) ==> a == b)
    && (forall n :: e.decode(e.encode(n)) == Some(n))
    && (forall v :: e.cut(v) == [] || Tiles(e.cut(v), 0, |v|))
  }

  lemma ConfigIsValid(e: Env)
    requires Trusted(e)
    ensures e.config.Valid()
  {
  }

  lemma HashInjective(e: Env, a: Bytes, b: Bytes)
    requires Trusted(e) && e.hash(a) == e.hash(b)
    ensures a == b
  {
    assert SameHash(e, a, b);
  }

  /** The hashes a value representation refers to. */
  function ReprRefs(r: ValueRepr): seq<Hash> {
    match r
    case Inline(_) => []
    case Chunked(h) => [h]
    case ChunkedSequence(hs, _) => hs
  }

  /** The hashes a node refers to. */
  ghost function Refs(n: Node): set<Hash> {
    match n
    case LeafNode(_, entries) => set x, h | x in entries && h in ReprRefs(x.value) :: h
    case InternalNode(_, children) => set c | c in children :: c.childHash
  }

  /** The contents of a chunk store. */
  type Chunks = map<Hash, Bytes>

  /** Every chunk is filed under its own hash. */
  ghost predicate Consistent(e: Env, data: Chunks) {
    forall h :: h in data ==> e.hash(data[h]) == h
  }

  /** The references of everything that decodes as a node are present. */
  ghost predicate RefClosed(e: Env, data: Chunks) {
    forall h, n :: h in data && e.decode(data[h]) == Some(n) ==> Refs(n) <= data.Keys
  }

  /** `data'` has all of `data`, unchanged. */
  ghost predicate Extends(data: Chunks, data': Chunks) {
    data.Keys <= data'.Keys && forall h :: h in data ==> data'[h] == data[h]
  }

  /** What storing chunk `b` does: a chunk already filed under the hash stays. */
  function Put(e: Env, data: Chunks, b: Bytes): Chunks {
    if e.hash(b) in data then data else data[e.hash(b) := b]
  }

  lemma PutFacts(e: Env, data: Chunks, b: Bytes)
    requires Trusted(e) && Consistent(e, data)
    ensures var data' := Put(e, data, b);
            && Consistent(e, data') && Extends(data, data')
            && data'.Keys == data.Keys + {e.hash(b)} && data'[e.hash(b)] == b
            && |data'| <= |data| + 1
  {
    if e.hash(b) in data { HashInjective(e, data[e.hash(b)], b); }
  }

  /** Storing one chunk keeps the store closed under references exactly when the
      chunk is not a node, or is a node whose references are there. */
  lemma PutKeepsClosedIff(e: Env, data: Chunks, b: Bytes)
    requires Trusted(e) && Consistent(e, data) && RefClosed(e, data)
    ensures var data' := Put(e, data, b);
            RefClosed(e, data') <==> (e.decode(b).Some? ==> Refs(e.decode(b).value) <= data'.Keys)
  {
    PutFacts(e, data, b);
    var data' := Put(e, data, b);
    if e.decode(b).Some? ==> Refs(e.decode(b).value) <= data'.Keys {
      forall h, n | h in data' && e.decode(data'[h]) == Some(n)
        ensures Refs(n) <= data'.Keys
      {
        if h in data {
          assert data'[h] == data[h];
          assert Refs(n) <= data.Keys;
        }
      }
    }
  }
}
