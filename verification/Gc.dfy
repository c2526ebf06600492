/** Mark-and-sweep garbage collection. */
module Gc {
  import opened Sequences
  import opened Items
  import opened Nodes
  import opened Values
  import opened Trees
  import opened Store

  /** Chunk `h` decodes as a node that refers to the stored chunk `g`. */
  ghost predicate Edge(e: Env, data: Chunks, h: Hash, g: Hash) {
    h in data && g in data && e.decode(data[h]).Some? && g in Refs(e.decode(data[h]).value)
  }

  ghost predicate IsPath(e: Env, data: Chunks, p: seq<Hash>) {
    p != [] && p[0] in data && forall i :: 0 <= i < |p| - 1 ==> Edge(e, data, p[i], p[i + 1])
  }

  ghost predicate Reachable(e: Env, data: Chunks, roots: set<Hash>, h: Hash) {
    exists p :: IsPath(e, data, p) && p[0] in roots && p[|p| - 1] == h
  }

  /** The chunks that paths from the roots lead to. */
  ghost function LiveSet(e: Env, data: Chunks, roots: set<Hash>): set<Hash> {
    set h | h in data && Reachable(e, data, roots, h)
  }

  /** What collection leaves of a store. */
  ghost function Kept(data: Chunks, live: set<Hash>): Chunks {
    map h | h in data && h in live :: data[h]
  }

  ghost predicate Closed(e: Env, data: Chunks, s: set<Hash>) {
    forall h, g :: h in s && Edge(e, data, h, g) ==> g in s
  }

  lemma RootReachable(e: Env, data: Chunks, roots: set<Hash>, h: Hash)
    requires h in roots && h in data
    ensures Reachable(e, data, roots, h)
  {
    assert IsPath(e, data, [h]);
  }

  lemma EdgeReachable(e: Env, data: Chunks, roots: set<Hash>, h: Hash, g: Hash)
    requires Reachable(e, data, roots, h) && Edge(e, data, h, g)
    ensures Reachable(e, data, roots, g)
  {
    hide Edge;
    var p :| IsPath(e, data, p) && p[0] in roots && p[|p| - 1] == h;
    var q := p + [g];
    forall i | 0 <= i < |q| - 1
      ensures Edge(e, data, q[i], q[i + 1])
    {
      if i < |p| - 1 { assert q[i] == p[i] && q[i + 1] == p[i + 1]; }
    }
    assert IsPath(e, data, q);
  }

  /** A path that starts in a closed set stays in it. */
  lemma {:induction false} PathStays(e: Env, data: Chunks, s: set<Hash>, p: seq<Hash>, n: nat)
    requires Closed(e, data, s) && IsPath(e, data, p) && p[0] in s && n < |p|
    ensures p[n] in s
    decreases n
  {
    if n > 0 {
      PathStays(e, data, s, p, n - 1);
      assert Edge(e, data, p[n - 1], p[n - 1 + 1]);
    }
  }

  /** The live set is the least fixpoint of marking: it holds the stored roots, it
      is closed under references, and every such set includes it. */
  lemma LiveSetIsLeast(e: Env, data: Chunks, roots: set<Hash>, s: set<Hash>)
    ensures roots * data.Keys <= LiveSet(e, data, roots)
    ensures Closed(e, data, LiveSet(e, data, roots))
    ensures roots * data.Keys <= s && Closed(e, data, s) ==> LiveSet(e, data, roots) <= s
  {
    hide Edge;
    forall h | h in roots && h in data
      ensures Reachable(e, data, roots, h)
    {
      RootReachable(e, data, roots, h);
    }
    forall h, g | h in LiveSet(e, data, roots) && Edge(e, data, h, g)
      ensures g in LiveSet(e, data, roots)
    {
      EdgeReachable(e, data, roots, h, g);
      EdgeStored(e, data, h, g);
    }
    if roots * data.Keys <= s && Closed(e, data, s) {
      forall h | h in LiveSet(e, data, roots)
        ensures h in s
      {
        var p :| IsPath(e, data, p) && p[0] in roots && p[|p| - 1] == h;
        PathInData(e, data, p);
        PathStays(e, data, s, p, |p| - 1);
      }
    }
  }

  lemma EdgeStored(e: Env, data: Chunks, h: Hash, g: Hash)
    requires Edge(e, data, h, g)
    ensures g in data
  {
  }

  lemma PathInData(e: Env, data: Chunks, p: seq<Hash>)
    requires IsPath(e, data, p)
    ensures p[0] in data
  {
  }

  /** Queues the stored references of a node that are not marked yet. */
  method EnqueueRefs(node: Node, all: set<Hash>, live: set<Hash>, queue: seq<Hash>) returns (q: seq<Hash>)
    ensures forall g :: g in queue ==> g in q
    ensures forall g :: g in q ==> g in queue || (g in Refs(node) && g in all)
    ensures forall g :: g in Refs(node) && g in all ==> g in live || g in q
  {
    q := queue;
    match node {
      case LeafNode(_, entries) =>
        for i := 0 to |entries|
          invariant forall g :: g in queue ==> g in q
          invariant forall g :: g in q ==> g in queue || (g in Refs(node) && g in all)
          invariant forall j, g :: 0 <= j < i && g in ReprRefs(entries[j].value) && g in all ==> g in live || g in q
        {
          q := EnqueueAll(ReprRefs(entries[i].value), all, live, q);
        }
      case InternalNode(_, children) =>
        for i := 0 to |children|
          invariant forall g :: g in queue ==> g in q
          invariant forall g :: g in q ==> g in queue || (g in Refs(node) && g in all)
          invariant forall j :: 0 <= j < i && children[j].childHash in all ==>
                      children[j].childHash in live || children[j].childHash in q
        {
          if children[i].childHash in all && children[i].childHash !in live {
            q := q + [children[i].childHash];
          }
        }
    }
  }

  method EnqueueAll(refs: seq<Hash>, all: set<Hash>, live: set<Hash>, queue: seq<Hash>) returns (q: seq<Hash>)
    ensures forall g :: g in queue ==> g in q
    ensures forall g :: g in q ==> g in queue || (g in refs && g in all)
    ensures forall g :: g in refs && g in all ==> g in live || g in q
  {
    q := queue;
    for i := 0 to |refs|
      invariant forall g :: g in queue ==> g in q
      invariant forall g :: g in q ==> g in queue || (g in refs && g in all)
      invariant forall j :: 0 <= j < i && refs[j] in all ==> refs[j] in live || refs[j] in q
    {
      if refs[i] in all && refs[i] !in live {
        q := q + [refs[i]];
      }
    }
  }

  /** The mark phase: a worklist that ends with exactly the live set. */
  method Mark(store: InMemoryStore, all: set<Hash>, liveRootHashes: seq<Hash>) returns (r: Result<set<Hash>>)
    requires all == store.data.Keys
    ensures r == Ok(LiveSet(store.e, store.data, set h | h in liveRootHashes))
  {
    hide Edge, IsPath, Reachable, Refs;
    ghost var e, data := store.e, store.data;
    ghost var roots := set h | h in liveRootHashes;
    var live, queue := {}, [];
    for i := 0 to |liveRootHashes|
      invariant forall h :: h in queue ==> h in roots && h in all
      invariant forall j :: 0 <= j < i && liveRootHashes[j] in all ==> liveRootHashes[j] in queue
    {
      if liveRootHashes[i] in all { queue := queue + [liveRootHashes[i]]; }
    }
    RootsQueued(e, data, roots, queue);
    while queue != []
      invariant live <= all
      invariant forall h :: h in queue ==> h in all
      invariant forall h :: h in live || h in queue ==> Reachable(e, data, roots, h)
      invariant forall h, g :: h in live && Edge(e, data, h, g) ==> g in live || g in queue
      invariant forall h :: h in roots && h in all ==> h in live || h in queue
      decreases all - live, |queue|
    {
      var hash := queue[0];
      var rest := queue[1..];
      assert queue == [hash] + rest;
      queue := rest;
      if hash in live { continue; }
      if hash !in all { continue; }
      live := live + {hash};
      var bytes := store.Get(hash);
      match bytes {
        case None => return Err(InternalError);
        case Some(b) =>
          match store.e.decode(b) {
            case Some(node) =>
              queue := EnqueueRefs(node, all, live, queue);
              NodeMarked(e, data, roots, hash, node);
            case None => LeafMarked(e, data, hash);
          }
      }
    }
    LiveSetIsLeast(e, data, roots, live);
    LiveIsReachable(e, data, roots, live);
    return Ok(live);
  }

  lemma RootsQueued(e: Env, data: Chunks, roots: set<Hash>, queue: seq<Hash>)
    requires forall h :: h in queue ==> h in roots && h in data
    ensures forall h :: h in queue ==> Reachable(e, data, roots, h)
  {
    forall h | h in queue
      ensures Reachable(e, data, roots, h)
    {
      RootReachable(e, data, roots, h);
    }
  }

  lemma NodeMarked(e: Env, data: Chunks, roots: set<Hash>, h: Hash, node: Node)
    requires h in data && e.decode(data[h]) == Some(node) && Reachable(e, data, roots, h)
    ensures forall g :: Edge(e, data, h, g) <==> g in Refs(node) && g in data
    ensures forall g :: g in Refs(node) && g in data ==> Reachable(e, data, roots, g)
  {
    hide Reachable, Refs;
    forall g | g in Refs(node) && g in data
      ensures Reachable(e, data, roots, g)
    {
      EdgeReachable(e, data, roots, h, g);
    }
  }

  lemma LeafMarked(e: Env, data: Chunks, h: Hash)
    requires h in data && e.decode(data[h]).None?
    ensures forall g :: !Edge(e, data, h, g)
  {
  }

  lemma LiveIsReachable(e: Env, data: Chunks, roots: set<Hash>, live: set<Hash>)
    requires live <= data.Keys && LiveSet(e, data, roots) <= live
    requires forall h :: h in live ==> Reachable(e, data, roots, h)
    ensures live == LiveSet(e, data, roots)
  {
  }

  /** The hashes that were not marked, each once. */
  method Dead(allHashes: seq<Hash>, live: set<Hash>) returns (dead: seq<Hash>)
    requires Distinct(allHashes)
    ensures Distinct(dead) && forall h :: h in dead <==> h in allHashes && h !in live
  {
    dead := [];
    for i := 0 to |allHashes|
      invariant Distinct(dead)
      invariant forall h :: h in dead <==> h in allHashes[..i] && h !in live
    {
      assert allHashes[..i + 1] == allHashes[..i] + [allHashes[i]];
      if allHashes[i] !in live { dead := dead + [allHashes[i]]; }
    }
    assert allHashes[..|allHashes|] == allHashes;
  }

  lemma SweptCount(data: Chunks, dead: set<Hash>)
    requires dead <= data.Keys
    ensures |data - dead| == |data| - |dead|
  {
    assert (data - dead).Keys == data.Keys - dead;
    assert |data| == |data.Keys| && |data - dead| == |(data - dead).Keys|;
  }

  /** Collection keeps exactly the live set and reports how much went. */
  method Collect(store: InMemoryStore, liveRootHashes: seq<Hash>) returns (r: Result<nat>)
    modifies store
    ensures var roots := set h | h in liveRootHashes;
            && store.data == Kept(old(store.data), LiveSet(store.e, old(store.data), roots))
            && r == Ok(|old(store.data)| - |store.data|)
  {
    hide LiveSet, Reachable;
    ghost var data := store.data;
    var allHashes := store.AllHashes();
    if |allHashes| == 0 { return Ok(0); }
    var all := set h | h in allHashes;
    assert all == store.data.Keys;
    var marked := Mark(store, all, liveRootHashes);
    match marked { case Err(error) => return Err(error); case Ok(_) => }
    var dead := Dead(allHashes, marked.value);
    ghost var gone := set h | h in dead;
    DistinctCount(dead);
    SweptCount(data, gone);
    KeptIs(data, marked.value, gone);
    var collectedCount := |dead|;
    if |dead| > 0 { store.DeleteBatch(dead); }
    return Ok(collectedCount);
  }

  lemma KeptIs(data: Chunks, live: set<Hash>, gone: set<Hash>)
    requires forall h :: h in gone <==> h in data && h !in live
    ensures Kept(data, live) == data - gone
    ensures gone == {} ==> Kept(data, live) == data
  {
  }

  // ----- what collection preserves

  /** Collection keeps every tree whose root it was told about, ... */
  lemma CollectKeepsTree(e: Env, data: Chunks, roots: set<Hash>, t: Tree)
    requires Trusted(e) && Consistent(e, data) && Held(e, data.Keys, t) && HashOf(e, t) in roots
    ensures Held(e, Kept(data, LiveSet(e, data, roots)).Keys, t)
  {
    hide Edge, LiveSet, HashOf;
    HeldBelow(e, data.Keys, t);
    LiveSetIsLeast(e, data, roots, {});
    LiveTree(e, data, LiveSet(e, data, roots), t);
    LiveStored(e, data, roots);
    HeldGrows(e, LiveSet(e, data, roots), Kept(data, LiveSet(e, data, roots)).Keys, t);
  }

  lemma LiveStored(e: Env, data: Chunks, roots: set<Hash>)
    ensures LiveSet(e, data, roots) <= Kept(data, LiveSet(e, data, roots)).Keys
  {
    hide Reachable;
  }

  lemma {:induction false} LiveTree(e: Env, data: Chunks, live: set<Hash>, t: Tree)
    requires Trusted(e) && Consistent(e, data) && Held(e, data.Keys, t)
    requires Closed(e, data, live) && HashOf(e, t) in live
    ensures Held(e, live, t)
    decreases t
  {
    hide Edge, Trusted, Consistent;
    HeldBelow(e, data.Keys, t);
    LoadsNode(e, data, t);
    RefsFromBelow(e, data.Keys, t);
    RefsAreEdges(e, data, HashOf(e, t), NodeOf(e, t));
    assert Refs(NodeOf(e, t)) <= live;
    RefsHeld(e, live, t);
    if t.Branch? {
      KidsHeld(e, data.Keys, t);
      forall i | 0 <= i < |t.kids|
        ensures Held(e, live, t.kids[i])
      {
        LiveTree(e, data, live, t.kids[i]);
      }
    }
    HeldIf(e, live, t);
  }

  lemma RefsAreEdges(e: Env, data: Chunks, h: Hash, node: Node)
    requires h in data && e.decode(data[h]) == Some(node) && Refs(node) <= data.Keys
    ensures forall g :: g in Refs(node) ==> Edge(e, data, h, g)
  {
  }

  /** ... leaves the store content-addressed, and leaves no reference dangling. */
  lemma CollectKeepsClosed(e: Env, data: Chunks, roots: set<Hash>)
    requires Consistent(e, data)
    ensures var data' := Kept(data, LiveSet(e, data, roots));
            Consistent(e, data') && (RefClosed(e, data) ==> RefClosed(e, data'))
  {
    hide Edge, LiveSet;
    var live := LiveSet(e, data, roots);
    var data' := Kept(data, live);
    LiveSetIsLeast(e, data, roots, {});
    LiveStored(e, data, roots);
    if RefClosed(e, data) {
      forall h, n | h in data' && e.decode(data'[h]) == Some(n)
        ensures Refs(n) <= data'.Keys
      {
        RefsAreEdges(e, data, h, n);
      }
    }
  }

  // ----- what collection leaves, exactly

  /** The hashes of the chunks of the values. */
  ghost function ValueHashes(e: Env, items: seq<Item>): set<Hash>
    requires Trusted(e)
  {
    set i, c | 0 <= i < |items| && c in ChunksOf(e, items[i].value) :: e.hash(c)
  }

  /** Everything that trees consist of: their nodes and their value chunks. */
  ghost function AllParts(e: Env, ts: seq<Tree>): set<Hash>
    requires Trusted(e)
  {
    AllNodeHashes(e, ts) + ValueHashes(e, AllItems(ts))
  }

  lemma ValueHashesOf(e: Env, keys: set<Hash>, items: seq<Item>)
    requires Trusted(e)
    ensures ItemsHeld(e, keys, items) <==> ValueHashes(e, items) <= keys
  {
    hide Trusted;
    if ValueHashes(e, items) <= keys {
      forall i, c | 0 <= i < |items| && c in ChunksOf(e, items[i].value)
        ensures e.hash(c) in keys
      {
        assert e.hash(c) in ValueHashes(e, items);
      }
    }
  }

  lemma ValueHashesTwo(e: Env, a: seq<Item>, b: seq<Item>)
    requires Trusted(e)
    ensures ValueHashes(e, a + b) == ValueHashes(e, a) + ValueHashes(e, b)
  {
    hide ChunksOf, Trusted;
    forall h
      ensures h in ValueHashes(e, a + b) <==> h in ValueHashes(e, a) + ValueHashes(e, b)
    {
      if h in ValueHashes(e, a) {
        var i, c :| 0 <= i < |a| && c in ChunksOf(e, a[i].value) && e.hash(c) == h;
        assert (a + b)[i] == a[i];
      }
      if h in ValueHashes(e, b) {
        var i, c :| 0 <= i < |b| && c in ChunksOf(e, b[i].value) && e.hash(c) == h;
        assert (a + b)[|a| + i] == b[i];
      }
    }
  }

  lemma PartsHead(e: Env, ts: seq<Tree>)
    requires Trusted(e) && ts != []
    ensures AllParts(e, ts) == NodeHashes(e, ts[0]) + ValueHashes(e, ItemsOf(ts[0])) + AllParts(e, ts[1..])
  {
    hide Trusted, NodeHashes, ValueHashes;
    AllItemsHead(ts);
    ValueHashesTwo(e, ItemsOf(ts[0]), AllItems(ts[1..]));
  }

  lemma PartsOne(e: Env, t: Tree)
    requires Trusted(e)
    ensures AllParts(e, [t]) == NodeHashes(e, t) + ValueHashes(e, ItemsOf(t))
    ensures t.Leaf? ==> AllParts(e, [t]) == {HashOf(e, t)} + ValueHashes(e, t.items)
    ensures t.Branch? ==> AllParts(e, [t]) == {HashOf(e, t)} + AllParts(e, t.kids)
  {
    hide Trusted, ValueHashes, HashOf;
    AllNodeHashesOne(e, t);
    AllItemsOne(t);
  }

  /** The hash names a stored node with all its references among the keys. */
  ghost predicate NodeWithin(e: Env, data: Chunks, h: Hash, keys: set<Hash>) {
    h in data && e.decode(data[h]).Some? && Refs(e.decode(data[h]).value) <= keys
  }

  lemma RootWithin(e: Env, data: Chunks, t: Tree)
    requires Trusted(e) && Consistent(e, data) && Held(e, data.Keys, t)
    ensures NodeWithin(e, data, HashOf(e, t), AllParts(e, [t]))
  {
    hide Trusted, Consistent, HashOf, AllParts, ValueHashes, NodeOf;
    HeldBelow(e, data.Keys, t);
    LoadsNode(e, data, t);
    PartsOne(e, t);
    RefsHeld(e, AllParts(e, [t]), t);
    if t.Leaf? {
      ValueHashesOf(e, AllParts(e, [t]), t.items);
    } else {
      KidRoots(e, t.kids);
    }
  }

  lemma KidRoots(e: Env, kids: seq<Tree>)
    requires Trusted(e)
    ensures forall i :: 0 <= i < |kids| ==> HashOf(e, kids[i]) in AllParts(e, kids)
  {
    hide Trusted, HashOf, AllNodeHashes, ValueHashes;
    forall i | 0 <= i < |kids|
      ensures HashOf(e, kids[i]) in AllNodeHashes(e, kids)
    {
      assert kids == kids[..i] + ([kids[i]] + kids[i + 1..]);
      AllNodeHashesAppend(e, kids[..i], [kids[i]] + kids[i + 1..]);
      AllNodeHashesAppend(e, [kids[i]], kids[i + 1..]);
      AllNodeHashesOne(e, kids[i]);
    }
  }

  /** Every node of held trees has its references among their parts. */
  lemma {:induction false} NodesWithin(e: Env, data: Chunks, ts: seq<Tree>, h: Hash)
    requires Trusted(e) && Consistent(e, data) && AllHeld(e, data.Keys, ts) && h in AllNodeHashes(e, ts)
    ensures NodeWithin(e, data, h, AllParts(e, ts))
    decreases ts
  {
    hide Trusted, Consistent, HashOf, AllParts, ValueHashes, Held, NodeWithin;
    var t := ts[0];
    PartsHead(e, ts);
    PartsOne(e, t);
    if h in NodeHashes(e, t) {
      if h == HashOf(e, t) {
        RootWithin(e, data, t);
        WithinMore(e, data, h, AllParts(e, [t]), AllParts(e, ts));
      } else {
        HeldBelow(e, data.Keys, t);
        KidsHeld(e, data.Keys, t);
        NodesWithin(e, data, t.kids, h);
        WithinMore(e, data, h, AllParts(e, t.kids), AllParts(e, ts));
      }
    } else {
      NodesWithin(e, data, ts[1..], h);
      WithinMore(e, data, h, AllParts(e, ts[1..]), AllParts(e, ts));
    }
  }

  lemma WithinMore(e: Env, data: Chunks, h: Hash, keys: set<Hash>, keys': set<Hash>)
    requires NodeWithin(e, data, h, keys) && keys <= keys'
    ensures NodeWithin(e, data, h, keys')
  {
  }

  /** No chunk of a value reads as a node. */
  ghost predicate PlainValues(e: Env, items: seq<Item>)
    requires Trusted(e)
  {
    forall i, c :: 0 <= i < |items| && c in ChunksOf(e, items[i].value) ==> e.decode(c).None?
  }

  lemma PartsClosed(e: Env, data: Chunks, ts: seq<Tree>)
    requires Trusted(e) && Consistent(e, data) && AllHeld(e, data.Keys, ts) && PlainValues(e, AllItems(ts))
    ensures Closed(e, data, AllParts(e, ts))
  {
    hide Trusted, HashOf, ChunksOf, Held, AllNodeHashes;
    forall h, g | h in AllParts(e, ts) && Edge(e, data, h, g)
      ensures g in AllParts(e, ts)
    {
      if h in AllNodeHashes(e, ts) {
        NodesWithin(e, data, ts, h);
      } else {
        var items := AllItems(ts);
        var i, c :| 0 <= i < |items| && c in ChunksOf(e, items[i].value) && e.hash(c) == h;
        HashInjective(e, data[h], c);
      }
    }
  }

  /** The roots name these trees, and nothing else that is stored. */
  ghost predicate Name(e: Env, data: Chunks, roots: set<Hash>, ts: seq<Tree>)
    requires Trusted(e)
  {
    && (forall i :: 0 <= i < |ts| ==> HashOf(e, ts[i]) in roots)
    && (forall h :: h in roots && h in data ==> exists i :: 0 <= i < |ts| && HashOf(e, ts[i]) == h)
  }

  /** What is live is exactly what the trees of the live roots consist of, when their
      values do not read as nodes: all other chunks are garbage, and go. */
  lemma LiveSetExact(e: Env, data: Chunks, roots: set<Hash>, ts: seq<Tree>)
    requires Trusted(e) && Consistent(e, data) && AllHeld(e, data.Keys, ts) && Name(e, data, roots, ts)
    requires PlainValues(e, AllItems(ts))
    ensures LiveSet(e, data, roots) == AllParts(e, ts) && Kept(data, LiveSet(e, data, roots)).Keys == AllParts(e, ts)
  {
    hide Trusted, HashOf, ChunksOf, Held, AllNodeHashes, LiveSet, PlainValues, Closed, Consistent, ValueHashes;
    var live := LiveSet(e, data, roots);
    PartsClosed(e, data, ts);
    LiveSetIsLeast(e, data, roots, AllParts(e, ts));
    KidRoots(e, ts);
    assert roots * data.Keys <= AllParts(e, ts);
    forall i | 0 <= i < |ts|
      ensures Held(e, live, ts[i])
    {
      RootIn(e, data.Keys, ts[i]);
      LiveTree(e, data, live, ts[i]);
    }
    AllNodesHeld(e, live, ts);
    AllHeldItems(e, live, ts);
    ValueHashesOf(e, live, AllItems(ts));
    LiveStored(e, data, roots);
    KeptLive(data, live);
  }

  lemma RootIn(e: Env, keys: set<Hash>, t: Tree)
    requires Trusted(e) && Held(e, keys, t)
    ensures HashOf(e, t) in keys
  {
  }

  lemma KeptLive(data: Chunks, live: set<Hash>)
    ensures Kept(data, live).Keys == data.Keys * live
  {
  }
}
