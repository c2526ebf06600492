/** Value representations: inline, one chunk, or a sequence of chunks. */
module Values {
  import opened Sequences
  import opened Keys
  import opened Items
  import opened Nodes

  /** The chunks of `v` that a tiling cuts out. */
  ghost function Parts(v: Value, pieces: seq<Piece>, from: nat): seq<Bytes>
    requires Tiles(pieces, from, |v|)
    decreases pieces
  {
    if pieces == [] then [] else [v[from..from + pieces[0].length]] + Parts(v, pieces[1..], from + pieces[0].length)
  }

  ghost function Hashes(e: Env, parts: seq<Bytes>): (hs: seq<Hash>)
    ensures |hs| == |parts|
    ensures forall i :: 0 <= i < |parts| ==> hs[i] == e.hash(parts[i])
  {
    seq(|parts|, i requires 0 <= i < |parts| => e.hash(parts[i]))
  }

  /** The data chunks a value is stored as; none when it is kept inline. */
  ghost function ChunksOf(e: Env, v: Value): seq<Bytes>
    requires Trusted(e)
  {
    if |v| <= e.config.maxInlineValueSize || e.cut(v) == [] then [] else Parts(v, e.cut(v), 0)
  }

  /** The representation `prepare_value_repr` gives a value. */
  ghost function ReprOf(e: Env, v: Value): ValueRepr
    requires Trusted(e)
  {
    var parts := ChunksOf(e, v);
    if |parts| == 0 then Inline(v)
    else if |parts| == 1 then Chunked(e.hash(parts[0]))
    else ChunkedSequence(Hashes(e, parts), |v|)
  }

  lemma {:induction false} PartsLength(v: Value, pieces: seq<Piece>, from: nat)
    requires Tiles(pieces, from, |v|)
    ensures |Parts(v, pieces, from)| == |pieces|
    decreases pieces
  {
    if pieces != [] { PartsLength(v, pieces[1..], from + pieces[0].length); }
  }

  lemma {:induction false} PartAt(v: Value, pieces: seq<Piece>, from: nat, i: nat)
    requires Tiles(pieces, from, |v|) && i < |pieces|
    ensures pieces[i].offset + pieces[i].length <= |v|
    ensures |Parts(v, pieces, from)| == |pieces|
    ensures Parts(v, pieces, from)[i] == v[pieces[i].offset..pieces[i].offset + pieces[i].length]
    decreases pieces
  {
    PartsLength(v, pieces, from);
    TilesBounded(pieces, from, |v|);
    TilesBounded(pieces[1..], from + pieces[0].length, |v|);
    if i > 0 { PartAt(v, pieces[1..], from + pieces[0].length, i - 1); }
  }

  lemma {:induction false} TilesBounded(pieces: seq<Piece>, from: nat, to: nat)
    requires Tiles(pieces, from, to)
    ensures from <= to
    decreases pieces
  {
    if pieces != [] { TilesBounded(pieces[1..], from + pieces[0].length, to); }
  }

  lemma {:induction false} PartsJoin(v: Value, pieces: seq<Piece>, from: nat)
    requires Tiles(pieces, from, |v|)
    ensures from <= |v| && Joined(Parts(v, pieces, from)) == v[from..]
    decreases pieces
  {
    if pieces != [] {
      var to := from + pieces[0].length;
      PartsJoin(v, pieces[1..], to);
      var parts := Parts(v, pieces, from);
      assert parts[1..] == Parts(v, pieces[1..], to);
      assert v[from..] == v[from..to] + v[to..];
    }
  }

  /** The chunks of a value that is not inline join to the value. */
  lemma ChunksJoin(e: Env, v: Value)
    requires Trusted(e) && ChunksOf(e, v) != []
    ensures Joined(ChunksOf(e, v)) == v
  {
    PartsJoin(v, e.cut(v), 0);
    assert v[0..] == v;
  }

  /** The references of a representation are the hashes of the chunks. */
  lemma RefsOfRepr(e: Env, v: Value)
    requires Trusted(e)
    ensures ReprRefs(ReprOf(e, v)) == Hashes(e, ChunksOf(e, v))
  {
  }

  /** Which form a value gets, and what is in it: inline up to the limit, or when the
      chunker makes no cut; the hash of the whole value when it makes one piece; else
      the hashes of the pieces, in order, and the length of the value. */
  lemma ReprForm(e: Env, v: Value)
    requires Trusted(e)
    ensures var small := |v| <= e.config.maxInlineValueSize || e.cut(v) == [];
            && (ReprOf(e, v).Inline? <==> small)
            && (small ==> ReprOf(e, v) == Inline(v) && ChunksOf(e, v) == [])
            && (ReprOf(e, v).Chunked? <==> !small && |e.cut(v)| == 1)
            && (!small && |e.cut(v)| == 1 ==> ReprOf(e, v) == Chunked(e.hash(v)) && ChunksOf(e, v) == [v])
            && (ReprOf(e, v).ChunkedSequence? <==> !small && |e.cut(v)| > 1)
    ensures ReprOf(e, v).ChunkedSequence? ==>
              var hs, cut := ReprOf(e, v).chunkHashes, e.cut(v);
              && ReprOf(e, v).totalSize == |v| && |hs| == |cut|
              && forall i :: 0 <= i < |cut| ==>
                   cut[i].offset + cut[i].length <= |v| && hs[i] == e.hash(v[cut[i].offset..cut[i].offset + cut[i].length])
  {
    var cut := e.cut(v);
    if |v| > e.config.maxInlineValueSize && cut != [] {
      PartsLength(v, cut, 0);
      if |cut| == 1 {
        ChunksJoin(e, v);
        JoinedOne(ChunksOf(e, v)[0]);
        assert ChunksOf(e, v) == [ChunksOf(e, v)[0]];
      }
      forall i | 0 <= i < |cut|
        ensures cut[i].offset + cut[i].length <= |v|
        ensures ChunksOf(e, v)[i] == v[cut[i].offset..cut[i].offset + cut[i].length]
      {
        PartAt(v, cut, 0, i);
      }
    }
  }

  lemma JoinedOne(b: Bytes)
    ensures Joined([b]) == b
  {
    assert Joined([b]) == b + Joined([b][1..]);
  }

  /** Different values have different representations. */
  lemma ReprInjective(e: Env, v: Value, w: Value)
    requires Trusted(e) && ReprOf(e, v) == ReprOf(e, w)
    ensures v == w
  {
    var p, q := ChunksOf(e, v), ChunksOf(e, w);
    if p != [] {
      assert |p| == |q|;
      forall i | 0 <= i < |p|
        ensures p[i] == q[i]
      {
        if |p| > 1 { assert Hashes(e, p)[i] == Hashes(e, q)[i]; }
        HashInjective(e, p[i], q[i]);
      }
      assert p == q;
      ChunksJoin(e, v);
      ChunksJoin(e, w);
    }
  }

  /** Loading a representation from the chunks of a store; None is the source's
      ChunkNotFound. */
  ghost function LoadValue(data: Chunks, r: ValueRepr): Option<Value> {
    match r
    case Inline(v) => Some(v)
    case Chunked(h) => if h in data then Some(data[h]) else None
    case ChunkedSequence(hs, _) => LoadAll(data, hs)
  }

  ghost function LoadAll(data: Chunks, hs: seq<Hash>): Option<Value> {
    if hs == [] then Some([])
    else if hs[0] !in data || LoadAll(data, hs[1..]).None? then None
    else Some(data[hs[0]] + LoadAll(data, hs[1..]).value)
  }

  lemma {:induction false} LoadAllJoins(e: Env, data: Chunks, parts: seq<Bytes>)
    requires Trusted(e) && Consistent(e, data)
    requires forall i :: 0 <= i < |parts| ==> e.hash(parts[i]) in data
    ensures LoadAll(data, Hashes(e, parts)) == Some(Joined(parts))
    decreases parts
  {
    if parts != [] {
      var hs := Hashes(e, parts);
      assert hs[1..] == Hashes(e, parts[1..]);
      forall i | 0 <= i < |parts[1..]|
        ensures e.hash(parts[1..][i]) in data
      {
        assert parts[1..][i] == parts[i + 1];
      }
      LoadAllJoins(e, data, parts[1..]);
      HashInjective(e, data[hs[0]], parts[0]);
    }
  }

  /** All chunks of `v` are in the store. */
  ghost predicate ValueHeld(e: Env, keys: set<Hash>, v: Value)
    requires Trusted(e)
  {
    forall c :: c in ChunksOf(e, v) ==> e.hash(c) in keys
  }

  /** Loading the representation of a value gives the value, in every store that
      has the value's chunks, whatever else it holds. */
  lemma ValueRoundTrip(e: Env, data: Chunks, v: Value)
    requires Trusted(e) && Consistent(e, data) && ValueHeld(e, data.Keys, v)
    ensures LoadValue(data, ReprOf(e, v)) == Some(v)
  {
    var parts := ChunksOf(e, v);
    if parts != [] {
      ChunksJoin(e, v);
      if |parts| == 1 {
        HashInjective(e, data[e.hash(parts[0])], parts[0]);
        assert Joined(parts) == parts[0] + Joined(parts[1..]) == parts[0];
      } else {
        LoadAllJoins(e, data, parts);
      }
    }
  }
}
