/** The assumptions on the parameters can be met: for every valid configuration
    there are a hash function, a serialisation and a chunker that satisfy them. */
module Assumptions {
  import opened Sequences
  import opened Keys
  import opened Items
  import opened Nodes
  import opened Values
  import opened FileFormat
  import opened FileIo

  // ----- an injective serialisation: numbers first, then bytes

  function NumbersOfBytes(b: Bytes): seq<nat> {
    [|b|] + b
  }

  function NumbersOfHashes(hs: seq<Hash>): seq<nat> {
    if hs == [] then [0] else [1] + NumbersOfBytes(hs[0].digest) + NumbersOfHashes(hs[1..])
  }

  function NumbersOfRepr(r: ValueRepr): seq<nat> {
    match r
    case Inline(v) => [0] + NumbersOfBytes(v)
    case Chunked(h) => [1] + NumbersOfBytes(h.digest)
    case ChunkedSequence(hs, totalSize) => [2] + ([totalSize] + NumbersOfHashes(hs))
  }

  function NumbersOfEntries(es: seq<LeafEntry>): seq<nat> {
    if es == [] then [0]
    else [1] + (NumbersOfBytes(es[0].key) + (NumbersOfRepr(es[0].value) + NumbersOfEntries(es[1..])))
  }

  function NumbersOfChildren(cs: seq<InternalEntry>): seq<nat> {
    if cs == [] then [0]
    else [1] + (NumbersOfBytes(cs[0].boundaryKey) + (NumbersOfBytes(cs[0].childHash.digest)
         + ([cs[0].numItemsSubtree] + NumbersOfChildren(cs[1..]))))
  }

  function NumbersOf(n: Node): seq<nat> {
    match n
    case LeafNode(level, entries) => [0] + ([level] + NumbersOfEntries(entries))
    case InternalNode(level, children) => [1] + ([level] + NumbersOfChildren(children))
  }

  function Unary(n: nat): Bytes {
    if n == 0 then [0] else [1] + Unary(n - 1)
  }

  function Serialised(ns: seq<nat>): Bytes {
    if ns == [] then [] else Unary(ns[0]) + Serialised(ns[1..])
  }

  lemma OneAhead(m: nat, a: seq<nat>, n: nat, b: seq<nat>)
    requires [m] + a == [n] + b
    ensures m == n && a == b
  {
    assert ([m] + a)[0] == ([n] + b)[0];
    assert ([m] + a)[1..] == a && ([n] + b)[1..] == b;
  }

  lemma {:induction false} UnaryAhead(m: nat, n: nat, r: Bytes, s: Bytes)
    requires Unary(m) + r == Unary(n) + s
    ensures m == n && r == s
    decreases m
  {
    assert (Unary(m) + r)[0] == Unary(m)[0] && (Unary(n) + s)[0] == Unary(n)[0];
    assert (Unary(m) + r)[1..] == Unary(m)[1..] + r && (Unary(n) + s)[1..] == Unary(n)[1..] + s;
    if m > 0 {
      assert Unary(m)[1..] == Unary(m - 1) && Unary(n)[1..] == Unary(n - 1);
      UnaryAhead(m - 1, n - 1, r, s);
    } else {
      assert [] + r == r && [] + s == s;
    }
  }

  lemma {:induction false} SerialisedInjective(a: seq<nat>, b: seq<nat>)
    requires Serialised(a) == Serialised(b)
    ensures a == b
    decreases |a|
  {
    if a != [] && b != [] {
      UnaryAhead(a[0], b[0], Serialised(a[1..]), Serialised(b[1..]));
      SerialisedInjective(a[1..], b[1..]);
      assert a == [a[0]] + a[1..] && b == [b[0]] + b[1..];
    }
  }

  lemma BytesAhead(b: Bytes, c: Bytes, r: seq<nat>, s: seq<nat>)
    requires NumbersOfBytes(b) + r == NumbersOfBytes(c) + s
    ensures b == c && r == s
  {
    var bn: seq<nat>, cn: seq<nat> := b, c;
    Associative([|b|], bn, r);
    Associative([|c|], cn, s);
    OneAhead(|b|, bn + r, |c|, cn + s);
    assert (bn + r)[..|b|] == bn && (cn + s)[..|c|] == cn;
    assert (bn + r)[|b|..] == r && (cn + s)[|c|..] == s;
  }

  lemma {:induction false} HashesAhead(a: seq<Hash>, b: seq<Hash>, r: seq<nat>, s: seq<nat>)
    requires NumbersOfHashes(a) + r == NumbersOfHashes(b) + s
    ensures a == b && r == s
    decreases |a|
  {
    hide NumbersOfBytes;
    if a == [] || b == [] {
      var p, q := NumbersOfHashes(a), NumbersOfHashes(b);
      assert p + r == [p[0]] + (p[1..] + r) && q + s == [q[0]] + (q[1..] + s);
      OneAhead(p[0], p[1..] + r, q[0], q[1..] + s);
      assert [] + r == r && [] + s == s;
    } else {
      var x, y := NumbersOfBytes(a[0].digest), NumbersOfBytes(b[0].digest);
      var p, q := NumbersOfHashes(a[1..]), NumbersOfHashes(b[1..]);
      assert NumbersOfHashes(a) + r == [1] + (x + (p + r));
      assert NumbersOfHashes(b) + s == [1] + (y + (q + s));
      OneAhead(1, x + (p + r), 1, y + (q + s));
      BytesAhead(a[0].digest, b[0].digest, p + r, q + s);
      HashesAhead(a[1..], b[1..], r, s);
      assert a == [a[0]] + a[1..] && b == [b[0]] + b[1..];
    }
  }

  lemma ReprAhead(x: ValueRepr, y: ValueRepr, r: seq<nat>, s: seq<nat>)
    requires NumbersOfRepr(x) + r == NumbersOfRepr(y) + s
    ensures x == y && r == s
  {
    hide NumbersOfBytes, NumbersOfHashes;
    var a, b := NumbersOfRepr(x), NumbersOfRepr(y);
    assert a + r == [a[0]] + (a[1..] + r) && b + s == [b[0]] + (b[1..] + s);
    OneAhead(a[0], a[1..] + r, b[0], b[1..] + s);
    match x {
      case Inline(v) => BytesAhead(v, y.value, r, s);
      case Chunked(h) => BytesAhead(h.digest, y.dataHash.digest, r, s);
      case ChunkedSequence(hs, totalSize) =>
        assert a[1..] + r == [totalSize] + (NumbersOfHashes(hs) + r);
        assert b[1..] + s == [y.totalSize] + (NumbersOfHashes(y.chunkHashes) + s);
        OneAhead(totalSize, NumbersOfHashes(hs) + r, y.totalSize, NumbersOfHashes(y.chunkHashes) + s);
        HashesAhead(hs, y.chunkHashes, r, s);
    }
  }

  lemma {:induction false} EntriesInjective(a: seq<LeafEntry>, b: seq<LeafEntry>)
    requires NumbersOfEntries(a) == NumbersOfEntries(b)
    ensures a == b
    decreases |a|
  {
    hide NumbersOfBytes, NumbersOfRepr;
    assert NumbersOfEntries(a)[0] == NumbersOfEntries(b)[0];
    if a != [] {
      var p, q := NumbersOfEntries(a[1..]), NumbersOfEntries(b[1..]);
      OneAhead(1, NumbersOfBytes(a[0].key) + (NumbersOfRepr(a[0].value) + p),
        1, NumbersOfBytes(b[0].key) + (NumbersOfRepr(b[0].value) + q));
      BytesAhead(a[0].key, b[0].key, NumbersOfRepr(a[0].value) + p, NumbersOfRepr(b[0].value) + q);
      ReprAhead(a[0].value, b[0].value, p, q);
      EntriesInjective(a[1..], b[1..]);
      assert a == [a[0]] + a[1..] && b == [b[0]] + b[1..];
    }
  }

  lemma {:induction false} ChildrenInjective(a: seq<InternalEntry>, b: seq<InternalEntry>)
    requires NumbersOfChildren(a) == NumbersOfChildren(b)
    ensures a == b
    decreases |a|
  {
    hide NumbersOfBytes;
    assert NumbersOfChildren(a)[0] == NumbersOfChildren(b)[0];
    if a != [] {
      var p := [a[0].numItemsSubtree] + NumbersOfChildren(a[1..]);
      var q := [b[0].numItemsSubtree] + NumbersOfChildren(b[1..]);
      var x, y := NumbersOfBytes(a[0].childHash.digest), NumbersOfBytes(b[0].childHash.digest);
      OneAhead(1, NumbersOfBytes(a[0].boundaryKey) + (x + p), 1, NumbersOfBytes(b[0].boundaryKey) + (y + q));
      BytesAhead(a[0].boundaryKey, b[0].boundaryKey, x + p, y + q);
      BytesAhead(a[0].childHash.digest, b[0].childHash.digest, p, q);
      OneAhead(a[0].numItemsSubtree, NumbersOfChildren(a[1..]), b[0].numItemsSubtree, NumbersOfChildren(b[1..]));
      ChildrenInjective(a[1..], b[1..]);
      assert a == [a[0]] + a[1..] && b == [b[0]] + b[1..];
    }
  }

  lemma NodeInjective(m: Node, n: Node)
    requires Serialised(NumbersOf(m)) == Serialised(NumbersOf(n))
    ensures m == n
  {
    hide NumbersOfEntries, NumbersOfChildren, Serialised;
    var a, b := NumbersOf(m), NumbersOf(n);
    SerialisedInjective(a, b);
    OneAhead(a[0], a[1..], b[0], b[1..]);
    assert a[1..][0] == m.level && b[1..][0] == n.level;
    assert a[1..][1..] == b[1..][1..];
    match m {
      case LeafNode(_, entries) =>
        assert a[1..][1..] == NumbersOfEntries(entries) && b[1..][1..] == NumbersOfEntries(n.entries);
        EntriesInjective(entries, n.entries);
      case InternalNode(_, children) =>
        assert a[1..][1..] == NumbersOfChildren(children) && b[1..][1..] == NumbersOfChildren(n.children);
        ChildrenInjective(children, n.children);
    }
  }

  ghost function Deserialised(b: Bytes): Option<Node> {
    if exists n :: Serialised(NumbersOf(n)) == b then var n :| Serialised(NumbersOf(n)) == b; Some(n) else None
  }

  /** A chunker that cuts: a value that starts with a zero is one piece, another one
      two, if it is long enough. */
  function CutUp(v: Bytes): seq<Piece> {
    if v == [] then []
    else if v[0] == 0 || |v| == 1 then [Piece(0, |v|)]
    else [Piece(0, 1), Piece(1, |v| - 1)]
  }

  lemma CutUpTiles(v: Bytes)
    ensures CutUp(v) == [] || Tiles(CutUp(v), 0, |v|)
  {
    if v != [] {
      if v[0] == 0 || |v| == 1 {
        assert Tiles([Piece(0, |v|)][1..], |v|, |v|);
      } else {
        assert [Piece(0, 1), Piece(1, |v| - 1)][1..] == [Piece(1, |v| - 1)];
        assert Tiles([Piece(1, |v| - 1)][1..], |v|, |v|);
      }
    }
  }

  /** The assumptions on an environment are consistent, for every valid configuration,
      and with all three forms of values. */
  lemma TrustIsPossible(config: TreeConfig) returns (e: Env, small: Value, single: Value, many: Value)
    requires config.Valid()
    ensures e.config == config && Trusted(e)
    ensures ReprOf(e, small).Inline? && ReprOf(e, single).Chunked? && ReprOf(e, many).ChunkedSequence?
  {
    hide Serialised, NumbersOf, Tiles, Parts, CutUp;
    var encode: Node -> Bytes := (n: Node) => Serialised(NumbersOf(n));
    var decode: Bytes -> Option<Node> := (b: Bytes) => Deserialised(b);
    e := Env(config, (b: Bytes) => Hash(b), encode, decode, (v: Bytes) => CutUp(v));
    forall n
      ensures e.decode(e.encode(n)) == Some(n)
    {
      assert e.encode(n) == Serialised(NumbersOf(n));
      var m := Deserialised(Serialised(NumbersOf(n))).value;
      NodeInjective(m, n);
    }
    forall a, b
      ensures SameHash(e, a, b) ==> a == b
    {
      assert e.hash(a) == Hash(a) && e.hash(b) == Hash(b);
    }
    forall v
      ensures e.cut(v) == [] || Tiles(e.cut(v), 0, |v|)
    {
      CutUpTiles(v);
    }
    small, single, many := [], Zeros(config.maxInlineValueSize + 1), [1] + Zeros(config.maxInlineValueSize + 1);
    Pieces(single);
    Pieces(many);
    PartsLength(single, e.cut(single), 0);
    PartsLength(many, e.cut(many), 0);
  }

  lemma Pieces(v: Bytes)
    requires |v| > 0
    ensures |CutUp(v)| == if v[0] == 0 || |v| == 1 then 1 else 2
    ensures Tiles(CutUp(v), 0, |v|)
  {
    CutUpTiles(v);
  }

  // ----- the file codecs

  function Codes(s: string): (codes: seq<nat>)
    ensures |codes| == |s| && forall i :: 0 <= i < |s| ==> codes[i] == s[i] as int
  {
    seq(|s|, i requires 0 <= i < |s| => s[i] as int)
  }

  function NumbersOfText(s: string): seq<nat> {
    [|s|] + Codes(s)
  }

  function NumbersOfRoot(h: Option<Hash>): seq<nat> {
    if h.None? then [0] else [1] + NumbersOfBytes(h.value.digest)
  }

  function NumbersOfDescription(d: Option<string>): seq<nat> {
    if d.None? then [0] else [1] + NumbersOfText(d.value)
  }

  function NumbersOfConfig(c: TreeConfig): seq<nat> {
    [c.targetFanout, c.minFanout, c.cdcMinSize, c.cdcAvgSize, c.cdcMaxSize, c.maxInlineValueSize]
  }

  function NumbersOfMetadata(m: Metadata): seq<nat> {
    NumbersOfConfig(m.treeConfig) + ([m.totalChunkDataBytes]
      + (NumbersOfRoot(m.rootHash) + (NumbersOfText(m.createdAt) + NumbersOfDescription(m.description))))
  }

  lemma TextAhead(a: string, b: string, r: seq<nat>, s: seq<nat>)
    requires NumbersOfText(a) + r == NumbersOfText(b) + s
    ensures a == b && r == s
  {
    var x, y := Codes(a), Codes(b);
    Associative([|a|], x, r);
    Associative([|b|], y, s);
    OneAhead(|a|, x + r, |b|, y + s);
    assert (x + r)[..|a|] == x && (y + s)[..|b|] == y;
    assert (x + r)[|a|..] == r && (y + s)[|b|..] == s;
    forall i | 0 <= i < |a|
      ensures a[i] == b[i]
    {
      assert x[i] == y[i];
    }
  }

  lemma RootAhead(a: Option<Hash>, b: Option<Hash>, r: seq<nat>, s: seq<nat>)
    requires NumbersOfRoot(a) + r == NumbersOfRoot(b) + s
    ensures a == b && r == s
  {
    hide NumbersOfBytes;
    var x, y := NumbersOfRoot(a), NumbersOfRoot(b);
    assert x + r == [x[0]] + (x[1..] + r) && y + s == [y[0]] + (y[1..] + s);
    OneAhead(x[0], x[1..] + r, y[0], y[1..] + s);
    if a.Some? {
      BytesAhead(a.value.digest, b.value.digest, r, s);
    } else {
      EmptySides(r, r);
      EmptySides(s, s);
    }
  }

  lemma DescriptionInjective(a: Option<string>, b: Option<string>)
    requires NumbersOfDescription(a) == NumbersOfDescription(b)
    ensures a == b
  {
    hide NumbersOfText;
    var x, y := NumbersOfDescription(a), NumbersOfDescription(b);
    assert x[0] == y[0];
    if a.Some? {
      OneAhead(1, NumbersOfText(a.value), 1, NumbersOfText(b.value));
      EmptySides(NumbersOfText(a.value), NumbersOfText(b.value));
      EmptySides(NumbersOfText(b.value), NumbersOfText(a.value));
      TextAhead(a.value, b.value, [], []);
    }
  }

  lemma ConfigAhead(a: TreeConfig, b: TreeConfig, r: seq<nat>, s: seq<nat>)
    requires NumbersOfConfig(a) + r == NumbersOfConfig(b) + s
    ensures a == b && r == s
  {
    var x, y := NumbersOfConfig(a), NumbersOfConfig(b);
    assert (x + r)[..6] == x && (y + s)[..6] == y;
    assert (x + r)[6..] == r && (y + s)[6..] == s;
    assert x[0] == y[0] && x[1] == y[1] && x[2] == y[2] && x[3] == y[3] && x[4] == y[4] && x[5] == y[5];
  }

  lemma MetadataInjective(m: Metadata, n: Metadata)
    requires Serialised(NumbersOfMetadata(m)) == Serialised(NumbersOfMetadata(n))
    ensures m == n
  {
    hide NumbersOfConfig, NumbersOfRoot, NumbersOfText, NumbersOfDescription, Serialised;
    SerialisedInjective(NumbersOfMetadata(m), NumbersOfMetadata(n));
    var p := NumbersOfText(m.createdAt) + NumbersOfDescription(m.description);
    var q := NumbersOfText(n.createdAt) + NumbersOfDescription(n.description);
    var v, w := NumbersOfRoot(m.rootHash) + p, NumbersOfRoot(n.rootHash) + q;
    ConfigAhead(m.treeConfig, n.treeConfig, [m.totalChunkDataBytes] + v, [n.totalChunkDataBytes] + w);
    OneAhead(m.totalChunkDataBytes, v, n.totalChunkDataBytes, w);
    RootAhead(m.rootHash, n.rootHash, p, q);
    TextAhead(m.createdAt, n.createdAt, NumbersOfDescription(m.description), NumbersOfDescription(n.description));
    DescriptionInjective(m.description, n.description);
  }

  ghost function MetadataIn(b: Bytes): Option<Metadata> {
    if exists m :: Serialised(NumbersOfMetadata(m)) == b
    then var m :| Serialised(NumbersOfMetadata(m)) == b; Some(m) else None
  }

  /** The assumptions on the file codecs are consistent. */
  lemma DependenceIsPossible() returns (f: Codecs)
    ensures Dependable(f)
  {
    hide Serialised, NumbersOfMetadata;
    var json: Metadata -> Bytes := (m: Metadata) => Serialised(NumbersOfMetadata(m));
    var fromJson: Bytes -> Option<Metadata> := (b: Bytes) => MetadataIn(b);
    f := Codecs(json, fromJson, (b: Bytes) => 0, (b: Bytes) => Zeros(32));
    forall m
      ensures f.fromJson(f.json(m)) == Some(m)
    {
      assert f.json(m) == Serialised(NumbersOfMetadata(m));
      MetadataInjective(MetadataIn(Serialised(NumbersOfMetadata(m))).value, m);
    }
  }
}
