/** The in-memory chunk store, and storing nodes and values in it. */
module Store {
  import opened Keys
  import opened Items
  import opened Nodes
  import opened Values
  import opened Trees

  datatype ProllyError = ChunkNotFound(hash: Hash) | BincodeError | InternalError | ConfigError

  datatype Result<+T> = Ok(value: T) | Err(error: ProllyError)

  class InMemoryStore {
    const e: Env
    var data: Chunks

    constructor (env: Env)
      ensures e == env && data == map[]
    {
      e := env;
      data := map[];
    }

    function Get(hash: Hash): Option<Bytes>
      reads this
    {
      if hash in data then Some(data[hash]) else None
    }

    method PutBytes(bytes: Bytes) returns (hash: Hash)
      modifies this
      ensures hash == e.hash(bytes)
      ensures data == Put(e, old(data), bytes)
    {
      hash := e.hash(bytes);
      if hash !in data {
        data := data[hash := bytes];
      }
    }

    method DeleteBatch(hashes: seq<Hash>)
      modifies this
      ensures data == old(data) - (set h | h in hashes)
    {
      for i := 0 to |hashes|
        invariant data == old(data) - (set h | h in hashes[..i])
      {
        assert hashes[..i + 1] == hashes[..i] + [hashes[i]];
        data := data - {hashes[i]};
      }
      assert hashes[..|hashes|] == hashes;
    }

    /** The hashes of the store, in no particular order. */
    method AllHashes() returns (hashes: seq<Hash>)
      ensures forall h :: h in hashes <==> h in data
      ensures forall i, j :: 0 <= i < j < |hashes| ==> hashes[i] != hashes[j]
    {
      hashes := [];
      var rest := data.Keys;
      while rest != {}
        invariant rest <= data.Keys
        invariant forall h :: h in hashes <==> h in data.Keys - rest
        invariant forall i, j :: 0 <= i < j < |hashes| ==> hashes[i] != hashes[j]
        decreases rest
      {
        var h :| h in rest;
        assert h !in hashes;
        hashes := hashes + [h];
        rest := rest - {h};
        assert data.Keys - rest == data.Keys - (rest + {h}) + {h};
      }
    }
  }

  method LoadNode(store: InMemoryStore, hash: Hash) returns (r: Result<Node>)
    ensures r == (if hash !in store.data then Err(ChunkNotFound(hash))
                  else match store.e.decode(store.data[hash])
                  case None => Err(BincodeError)
                  case Some(n) => Ok(n))
  {
    var bytes := store.Get(hash);
    if bytes.None? { return Err(ChunkNotFound(hash)); }
    match store.e.decode(bytes.value) {
      case None => return Err(BincodeError);
      case Some(n) => return Ok(n);
    }
  }

  /** An internal node is never of level zero. */
  function NewInternal(children: seq<InternalEntry>, level: nat): Result<Node> {
    if level == 0 then Err(ConfigError) else Ok(InternalNode(level, children))
  }

  /** The largest key below a node, as its last entry states it. */
  function BoundaryOf(node: Node): Option<Key> {
    match node
    case LeafNode(_, entries) => if entries == [] then None else Some(entries[|entries| - 1].key)
    case InternalNode(_, children) => if children == [] then None else Some(children[|children| - 1].boundaryKey)
  }

  /** The chunk is stored even when the node is empty and has no boundary. */
  method StoreNode(store: InMemoryStore, node: Node) returns (r: Result<(Key, Hash)>)
    modifies store
    ensures store.data == Put(store.e, old(store.data), store.e.encode(node))
    ensures r == match BoundaryOf(node)
                 case None => Err(InternalError)
                 case Some(k) => Ok((k, store.e.hash(store.e.encode(node))))
  {
    var hash := store.PutBytes(store.e.encode(node));
    match BoundaryOf(node) {
      case None => return Err(InternalError);
      case Some(k) => return Ok((k, hash));
    }
  }

  /** What is a node in `d'`, and is not in `d`, has its references in `d'`. */
  ghost predicate AddsLinked(e: Env, d: Chunks, d': Chunks) {
    forall h, n :: h in d' && h !in d && e.decode(d'[h]) == Some(n) ==> Refs(n) <= d'.Keys
  }

  /** What a step may do to the chunks: add at most `n`, nodes with their references,
      and change none. */
  ghost predicate Grew(e: Env, d: Chunks, d': Chunks, n: nat) {
    Consistent(e, d') && Extends(d, d') && |d'| <= |d| + n && AddsLinked(e, d, d')
  }

  /** Such a step leaves no reference dangling. */
  lemma GrewClosed(e: Env, d: Chunks, d': Chunks, n: nat)
    requires Grew(e, d, d', n) && RefClosed(e, d)
    ensures RefClosed(e, d')
  {
  }

  lemma GrewKeys(e: Env, d: Chunks, d': Chunks, n: nat)
    requires Grew(e, d, d', n)
    ensures Consistent(e, d') && d.Keys <= d'.Keys
  {
  }

  lemma GrewNone(e: Env, d: Chunks, n: nat)
    requires Consistent(e, d)
    ensures Grew(e, d, d, n)
  {
  }

  lemma GrewLess(e: Env, d: Chunks, d': Chunks, m: nat, n: nat)
    requires Grew(e, d, d', m) && m <= n
    ensures Grew(e, d, d', n)
  {
  }

  lemma GrewTwice(e: Env, d: Chunks, m: nat, d': Chunks, n: nat, d'': Chunks)
    requires Grew(e, d, d', m) && Grew(e, d', d'', n)
    ensures Grew(e, d, d'', m + n)
  {
  }

  lemma BoundaryIsMaxKey(e: Env, cfg: TreeConfig, t: Tree)
    requires Trusted(e) && cfg.Valid() && Body(cfg, t) && Size(t) > 0
    ensures BoundaryOf(NodeOf(e, t)) == Some(MaxKey(t))
  {
    hide AllItems, ItemsOf, MaxKey, HashOf, Body, NodeOf;
    if t.Branch? {
      MaxKeyOfBranch(cfg, t);
      BranchBoundary(e, t);
    } else {
      LeafBoundary(e, t);
    }
  }

  lemma BranchBoundary(e: Env, t: Tree)
    requires Trusted(e) && t.Branch? && t.kids != []
    ensures BoundaryOf(NodeOf(e, t)) == Some(MaxKey(t.kids[|t.kids| - 1]))
  {
    hide AllItems, ItemsOf, MaxKey, HashOf;
    assert Entries(e, t.kids)[|t.kids| - 1] == EntryOf(e, t.kids[|t.kids| - 1]);
  }

  lemma LeafBoundary(e: Env, t: Tree)
    requires Trusted(e) && t.Leaf? && t.items != []
    ensures BoundaryOf(NodeOf(e, t)) == Some(MaxKey(t))
  {
    hide AllItems, HashOf, ReprOf, Trusted;
    assert LeafEntries(e, t.items)[|t.items| - 1].key == t.items[|t.items| - 1].key;
  }

  /** Storing the node of a tree whose parts are there makes the tree held. */
  lemma StoringTree(e: Env, d: Chunks, t: Tree)
    requires Trusted(e) && Consistent(e, d) && BelowHeld(e, d.Keys, t)
    ensures var d' := Put(e, d, e.encode(NodeOf(e, t)));
            Grew(e, d, d', 1) && Held(e, d'.Keys, t) && d'.Keys == d.Keys + {HashOf(e, t)}
  {
    hide Trusted, Held, BelowHeld, Put, NodeOf, Refs;
    var b := e.encode(NodeOf(e, t));
    PutFacts(e, d, b);
    BelowHeldGrows(e, d.Keys, Put(e, d, b).Keys, t);
    RefsFromBelow(e, d.Keys, t);
    PutLinked(e, d, NodeOf(e, t));
    HeldHere(e, Put(e, d, b).Keys, t);
  }

  lemma PutLinked(e: Env, d: Chunks, n: Node)
    requires Trusted(e) && Consistent(e, d) && Refs(n) <= d.Keys
    ensures AddsLinked(e, d, Put(e, d, e.encode(n)))
    ensures Put(e, d, e.encode(n)).Keys == d.Keys + {e.hash(e.encode(n))}
  {
    hide Refs;
    PutFacts(e, d, e.encode(n));
  }

  lemma HeldHere(e: Env, keys: set<Hash>, t: Tree)
    requires Trusted(e) && BelowHeld(e, keys, t) && e.hash(e.encode(NodeOf(e, t))) in keys
    ensures Held(e, keys, t)
  {
    hide Trusted, BelowHeld, NodeOf;
  }

  lemma RefsFromBelow(e: Env, keys: set<Hash>, t: Tree)
    requires Trusted(e) && BelowHeld(e, keys, t)
    ensures Refs(NodeOf(e, t)) <= keys
  {
    RefsHeld(e, keys, t);
    if t.Branch? {
      forall i | 0 <= i < |t.kids|
        ensures HashOf(e, t.kids[i]) in keys
      {
        assert Held(e, keys, t.kids[i]);
      }
    }
  }

  // ----- values

  ghost function PutAll(e: Env, d: Chunks, parts: seq<Bytes>): Chunks {
    if parts == [] then d else Put(e, PutAll(e, d, parts[..|parts| - 1]), parts[|parts| - 1])
  }

  ghost function HashSet(e: Env, parts: seq<Bytes>): set<Hash> {
    set c | c in parts :: e.hash(c)
  }

  lemma PutAllFacts(e: Env, d: Chunks, parts: seq<Bytes>)
    requires Trusted(e) && Consistent(e, d)
    ensures var d' := PutAll(e, d, parts);
            && Consistent(e, d') && Extends(d, d') && |d'| <= |d| + |parts|
            && d'.Keys == d.Keys + HashSet(e, parts)
  {
    hide *;
    PutAllGrows(e, d, parts);
    PutAllKeys(e, d, parts);
  }

  lemma {:induction false} PutAllGrows(e: Env, d: Chunks, parts: seq<Bytes>)
    requires Trusted(e) && Consistent(e, d)
    ensures var d' := PutAll(e, d, parts); Consistent(e, d') && Extends(d, d') && |d'| <= |d| + |parts|
    decreases |parts|
  {
    hide *;
    PutAllStep(e, d, parts);
    if parts == [] {
      ExtendsSelf(d);
    } else {
      var init := parts[..|parts| - 1];
      PutAllGrows(e, d, init);
      PutFacts(e, PutAll(e, d, init), parts[|parts| - 1]);
      ExtendsTwice(d, PutAll(e, d, init), PutAll(e, d, parts));
    }
  }

  lemma {:induction false} PutAllKeys(e: Env, d: Chunks, parts: seq<Bytes>)
    requires Trusted(e) && Consistent(e, d)
    ensures PutAll(e, d, parts).Keys == d.Keys + HashSet(e, parts)
    decreases |parts|
  {
    hide *;
    PutAllStep(e, d, parts);
    if parts != [] {
      var init := parts[..|parts| - 1];
      PutAllKeys(e, d, init);
      PutAllGrows(e, d, init);
      PutFacts(e, PutAll(e, d, init), parts[|parts| - 1]);
      HashSetOfLast(e, parts);
    }
  }

  lemma ExtendsSelf(d: Chunks)
    ensures Extends(d, d)
  {
  }

  lemma ExtendsTwice(d: Chunks, d': Chunks, d'': Chunks)
    requires Extends(d, d') && Extends(d', d'')
    ensures Extends(d, d'')
  {
  }

  lemma PutAllStep(e: Env, d: Chunks, parts: seq<Bytes>)
    ensures parts == [] ==> PutAll(e, d, parts) == d && HashSet(e, parts) == {}
    ensures parts != [] ==> PutAll(e, d, parts) == Put(e, PutAll(e, d, parts[..|parts| - 1]), parts[|parts| - 1])
  {
  }

  lemma HashSetOfLast(e: Env, parts: seq<Bytes>)
    requires parts != []
    ensures HashSet(e, parts) == HashSet(e, parts[..|parts| - 1]) + {e.hash(parts[|parts| - 1])}
  {
    var init, last := parts[..|parts| - 1], parts[|parts| - 1];
    assert parts == init + [last];
    assert last in parts;
  }

  /** The chunks do not read as nodes, or only as nodes whose references are among
      the keys. */
  ghost predicate Inert(e: Env, keys: set<Hash>, parts: seq<Bytes>) {
    forall c :: c in parts && e.decode(c).Some? ==> Refs(e.decode(c).value) <= keys
  }

  /** Storing the chunks of a value, and then nodes with their references, keeps the
      store closed under references exactly when the chunks are inert in the end. */
  lemma GrowthKeepsClosedIff(e: Env, d: Chunks, parts: seq<Bytes>, d': Chunks, n: nat)
    requires Trusted(e) && Consistent(e, d) && RefClosed(e, d) && Grew(e, PutAll(e, d, parts), d', n)
    ensures RefClosed(e, d') <==> Inert(e, d'.Keys, parts)
  {
    hide Trusted, PutAll;
    var d1 := PutAll(e, d, parts);
    PutAllFacts(e, d, parts);
    if Inert(e, d'.Keys, parts) {
      forall h, n | h in d' && e.decode(d'[h]) == Some(n)
        ensures Refs(n) <= d'.Keys
      {
        if h in d {
          assert d'[h] == d[h];
        } else if h in d1 {
          var c :| c in parts && e.hash(c) == h;
          HashInjective(e, d'[h], c);
        }
      }
    }
    if RefClosed(e, d') {
      forall c | c in parts && e.decode(c).Some?
        ensures Refs(e.decode(c).value) <= d'.Keys
      {
        HashInjective(e, d'[e.hash(c)], c);
      }
    }
  }

  /** Storing the chunks of a value keeps the store closed under references exactly
      when the chunks are inert. */
  lemma PutAllKeepsClosedIff(e: Env, d: Chunks, parts: seq<Bytes>)
    requires Trusted(e) && Consistent(e, d) && RefClosed(e, d)
    ensures RefClosed(e, PutAll(e, d, parts)) <==> Inert(e, PutAll(e, d, parts).Keys, parts)
  {
    hide *;
    PutAllFacts(e, d, parts);
    GrewNone(e, PutAll(e, d, parts), 0);
    GrowthKeepsClosedIff(e, d, parts, PutAll(e, d, parts), 0);
  }

  /** Stores the pieces of a value, in order, and returns their hashes. */
  method StorePieces(store: InMemoryStore, value: Value, pieces: seq<Piece>) returns (chunkHashes: seq<Hash>)
    requires pieces == [] || Tiles(pieces, 0, |value|)
    modifies store
    ensures pieces == [] ==> chunkHashes == [] && store.data == old(store.data)
    ensures pieces != [] ==>
              && chunkHashes == Hashes(store.e, Parts(value, pieces, 0))
              && store.data == PutAll(store.e, old(store.data), Parts(value, pieces, 0))
  {
    hide Parts, Tiles, Put, PutAll;
    chunkHashes := [];
    PutAllStep(store.e, store.data, []);
    if pieces == [] { return; }
    ghost var parts := Parts(value, pieces, 0);
    PartsLength(value, pieces, 0);
    for i := 0 to |pieces|
      invariant chunkHashes == Hashes(store.e, parts[..i])
      invariant store.data == PutAll(store.e, old(store.data), parts[..i])
    {
      PartAt(value, pieces, 0, i);
      var chunk := value[pieces[i].offset..pieces[i].offset + pieces[i].length];
      var chunkHash := store.e.hash(chunk);
      var _ := store.PutBytes(chunk);
      chunkHashes := chunkHashes + [chunkHash];
      assert parts[..i + 1] == parts[..i] + [chunk];
      assert parts[..i + 1][..i] == parts[..i];
      PutAllStep(store.e, old(store.data), parts[..i + 1]);
    }
    assert parts[..|pieces|] == parts;
  }

  /** Stores a value's chunks, if it has any, and returns its representation. A value
      that is kept inline leaves the store as it is. */
  method PrepareValueRepr(store: InMemoryStore, value: Value) returns (repr: ValueRepr)
    requires Trusted(store.e)
    modifies store
    ensures repr == ReprOf(store.e, value)
    ensures store.data == PutAll(store.e, old(store.data), ChunksOf(store.e, value))
    ensures repr.Inline? <==> |value| <= store.e.config.maxInlineValueSize || store.e.cut(value) == []
    ensures repr.Inline? ==> store.data == old(store.data)
  {
    hide Parts, Tiles, PutAll;
    PutAllStep(store.e, store.data, []);
    if |value| <= store.e.config.maxInlineValueSize { return Inline(value); }
    if store.e.cut(value) != [] { PartsLength(value, store.e.cut(value), 0); }
    var chunkHashes := StorePieces(store, value, store.e.cut(value));
    if |chunkHashes| == 0 { return Inline(value); }
    if |chunkHashes| == 1 { return Chunked(chunkHashes[0]); }
    return ChunkedSequence(chunkHashes, |value|);
  }

  /** Reads a value back; a missing chunk is an error. */
  method LoadValueRepr(store: InMemoryStore, repr: ValueRepr) returns (r: Result<Value>)
    ensures r.Ok? <==> LoadValue(store.data, repr).Some?
    ensures r.Ok? ==> LoadValue(store.data, repr) == Some(r.value)
    ensures r.Err? ==> r.error.ChunkNotFound? && r.error.hash !in store.data
  {
    match repr {
      case Inline(v) => return Ok(v);
      case Chunked(h) =>
        if h !in store.data { return Err(ChunkNotFound(h)); }
        return Ok(store.data[h]);
      case ChunkedSequence(hs, _) =>
        var value := [];
        for i := 0 to |hs|
          invariant LoadAll(store.data, hs).Some? <==> LoadAll(store.data, hs[i..]).Some?
          invariant LoadAll(store.data, hs).Some? ==>
                      LoadAll(store.data, hs).value == value + LoadAll(store.data, hs[i..]).value
        {
          assert hs[i..][0] == hs[i] && hs[i..][1..] == hs[i + 1..];
          if hs[i] !in store.data { return Err(ChunkNotFound(hs[i])); }
          value := value + store.data[hs[i]];
        }
        assert value + [] == value;
        return Ok(value);
    }
  }
}
