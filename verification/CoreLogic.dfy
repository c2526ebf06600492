/** Lookup and insertion on the chunk store, proved against the tree functions. */
module CoreLogic {
  import opened Keys
  import opened Items
  import opened Nodes
  import opened Values
  import opened Trees
  import opened Insertion
  import opened Store

  datatype ProcessedNodeUpdate = ProcessedNodeUpdate(
    newHash: Hash, newBoundaryKey: Key, newItemCount: nat,
    splitInfo: Option<(Key, Hash, nat)>)

  /** The update that reports a grown tree faithfully. */
  ghost function UpdateOf(e: Env, g: Grown): ProcessedNodeUpdate
    requires Trusted(e)
  {
    ProcessedNodeUpdate(HashOf(e, g.left), MaxKey(g.left), Count(g.left),
      if g.right.None? then None
      else Some((MaxKey(g.right.value), HashOf(e, g.right.value), Count(g.right.value))))
  }

  // ----- vectors of entries

  function EntryKeys(entries: seq<LeafEntry>): (ks: seq<Key>)
    ensures |ks| == |entries|
    ensures forall i :: 0 <= i < |entries| ==> ks[i] == entries[i].key
  {
    seq(|entries|, i requires 0 <= i < |entries| => entries[i].key)
  }

  function Boundaries(children: seq<InternalEntry>): (ks: seq<Key>)
    ensures |ks| == |children|
    ensures forall i :: 0 <= i < |children| ==> ks[i] == children[i].boundaryKey
  {
    seq(|children|, i requires 0 <= i < |children| => children[i].boundaryKey)
  }

  /** `children.iter().map(|c| c.num_items_subtree).sum()` */
  method SumItems(children: seq<InternalEntry>) returns (sum: nat)
    ensures sum == SumOf(children)
  {
    sum := 0;
    for i := 0 to |children|
      invariant sum == SumOf(children[..i])
    {
      assert children[..i + 1][..i] == children[..i];
      sum := sum + children[i].numItemsSubtree;
    }
    assert children[..|children|] == children;
  }

  function SumOf(children: seq<InternalEntry>): nat {
    if children == [] then 0
    else SumOf(children[..|children| - 1]) + children[|children| - 1].numItemsSubtree
  }

  lemma {:induction false} SumIsCount(e: Env, kids: seq<Tree>)
    requires Trusted(e)
    ensures SumOf(Entries(e, kids)) == |AllItems(kids)|
    decreases |kids|
  {
    hide AllItems, ItemsOf, HashOf;
    if kids != [] {
      var n := |kids| - 1;
      SumIsCount(e, kids[..n]);
      assert Entries(e, kids)[..n] == Entries(e, kids[..n]);
      assert Entries(e, kids)[n] == EntryOf(e, kids[n]);
      AllItemsAround(kids[..n], kids[n], []);
      assert kids == kids[..n] + [kids[n]] + [];
    } else {
      AllItemsNone();
    }
  }

  /** How a leaf's entries change when an item is set. */
  lemma LeafUpdate(e: Env, items: seq<Item>, k: Key, v: Value)
    requires Trusted(e)
    ensures var es, p, x := LeafEntries(e, items), LowerBound(KeysOf(items), k), LeafEntry(k, ReprOf(e, v));
            LeafEntries(e, Upsert(items, k, v)) ==
              if p < |items| && items[p].key == k then es[p := x] else es[..p] + [x] + es[p..]
  {
    hide LowerBound, ReprOf, Trusted;
    var es, p := LeafEntries(e, items), LowerBound(KeysOf(items), k);
    if !(p < |items| && items[p].key == k) {
      LeafInsert(e, items[..p], Item(k, v), items[p..]);
      LeafSlices(e, {}, items, p);
    }
  }

  lemma LeafInsert(e: Env, a: seq<Item>, x: Item, c: seq<Item>)
    requires Trusted(e)
    ensures LeafEntries(e, a + [x] + c) == LeafEntries(e, a) + [LeafEntry(x.key, ReprOf(e, x.value))] + LeafEntries(e, c)
  {
    hide ReprOf, Trusted;
  }

  /** A leaf cut in two. */
  lemma LeafSlices(e: Env, keys: set<Hash>, items: seq<Item>, n: nat)
    requires Trusted(e) && n <= |items|
    ensures LeafEntries(e, items)[..n] == LeafEntries(e, items[..n])
    ensures LeafEntries(e, items)[n..] == LeafEntries(e, items[n..])
    ensures ItemsHeld(e, keys, items) ==> ItemsHeld(e, keys, items[..n]) && ItemsHeld(e, keys, items[n..])
  {
    hide Trusted, ReprOf, ValueHeld;
    if ItemsHeld(e, keys, items) {
      forall x | 0 <= x < |items| - n
        ensures ValueHeld(e, keys, items[n..][x].value)
      {
        assert items[n..][x] == items[n + x];
      }
    }
  }

  /** A branch cut in two. */
  lemma BranchSlices(e: Env, keys: set<Hash>, kids: seq<Tree>, n: nat)
    requires Trusted(e) && n <= |kids| && AllHeld(e, keys, kids)
    ensures Entries(e, kids)[..n] == Entries(e, kids[..n])
    ensures Entries(e, kids)[n..] == Entries(e, kids[n..])
    ensures AllHeld(e, keys, kids[..n]) && AllHeld(e, keys, kids[n..])
  {
    hide Trusted, Held, EntryOf;
    forall i | 0 <= i < |kids| - n
      ensures Held(e, keys, kids[n..][i])
    {
      assert kids[n..][i] == kids[n + i];
    }
  }

  lemma HalvesBelow(e: Env, keys: set<Hash>, a: seq<Item>, b: seq<Item>)
    requires Trusted(e) && ItemsHeld(e, keys, a) && ItemsHeld(e, keys, b)
    ensures BelowHeld(e, keys, Leaf(a)) && BelowHeld(e, keys, Leaf(b))
  {
    hide ItemsHeld, Trusted;
  }

  lemma KeysAscend(items: seq<Item>)
    requires Sorted(items)
    ensures Ascending(KeysOf(items))
  {
  }

  lemma EntryKeysOf(e: Env, items: seq<Item>)
    requires Trusted(e)
    ensures EntryKeys(LeafEntries(e, items)) == KeysOf(items)
  {
    hide ReprOf, Trusted;
  }

  // ----- the descent

  /** The first child whose boundary is not below the key, or the last child. */
  method FindChild(children: seq<InternalEntry>, key: Key) returns (i: nat)
    requires children != []
    ensures i < |children|
    ensures forall j :: 0 <= j < i ==> Pos(children[j].boundaryKey) < Pos(key)
    ensures i < |children| - 1 ==> Pos(key) <= Pos(children[i].boundaryKey)
  {
    i := |children| - 1;
    for idx := 0 to |children|
      invariant i == |children| - 1
      invariant forall j :: 0 <= j < idx ==> Pos(children[j].boundaryKey) < Pos(key)
    {
      if KeyLeq(key, children[idx].boundaryKey) {
        i := idx;
        break;
      }
    }
  }

  lemma RouteIs(e: Env, kids: seq<Tree>, k: Key, i: nat)
    requires Trusted(e) && i < |kids|
    requires forall j :: 0 <= j < i ==> Pos(Entries(e, kids)[j].boundaryKey) < Pos(k)
    requires i < |kids| - 1 ==> Pos(k) <= Pos(Entries(e, kids)[i].boundaryKey)
    ensures Route(kids, k) == i
  {
    hide MaxKey, HashOf, Route, Count, Trusted;
    forall j | 0 <= j <= i
      ensures Entries(e, kids)[j].boundaryKey == MaxKeys(kids)[j]
    {
      assert Entries(e, kids)[j] == EntryOf(e, kids[j]);
    }
    RouteFrom(kids, k, i);
  }

  lemma RouteFrom(kids: seq<Tree>, k: Key, i: nat)
    requires i < |kids|
    requires forall j :: 0 <= j < i ==> Pos(MaxKeys(kids)[j]) < Pos(k)
    requires i < |kids| - 1 ==> Pos(k) <= Pos(MaxKeys(kids)[i])
    ensures Route(kids, k) == i
  {
    hide MaxKey, LowerBound;
    if Pos(k) <= Pos(MaxKeys(kids)[i]) {
      LowerBoundIs(MaxKeys(kids), k, i);
    } else {
      LowerBoundIs(MaxKeys(kids), k, i + 1);
    }
  }

  /** What an operation may rely on when it enters a subtree. */
  ghost predicate Enters(e: Env, data: Chunks, hash: Hash, t: Tree)
    requires Trusted(e)
  {
    && Consistent(e, data) && hash == HashOf(e, t) && Held(e, data.Keys, t)
    && Body(e.config, t) && 1 <= Size(t) <= e.config.targetFanout && Sorted(ItemsOf(t))
  }

  lemma EntersConsistent(e: Env, data: Chunks, hash: Hash, t: Tree)
    requires Trusted(e) && Enters(e, data, hash, t)
    ensures Consistent(e, data)
  {
  }

  lemma EntersChild(e: Env, data: Chunks, t: Tree, k: Key)
    requires Trusted(e) && Enters(e, data, HashOf(e, t), t) && t.Branch?
    ensures var i := Route(t.kids, k);
            && Enters(e, data, HashOf(e, t.kids[i]), t.kids[i])
            && Level(t.kids[i]) == t.level - 1 && t.level > 0
            && Find(ItemsOf(t), k) == Find(ItemsOf(t.kids[i]), k)
  {
    hide AllItems, Find, Route, HashOf, Inner;
    var i := Route(t.kids, k);
    KidsInner(e.config, t);
    KidShape(e.config, t.kids[i]);
    RouteSplits(e.config, t.kids, t.level - 1, k);
    FindInMiddle(AllItems(t.kids[..i]), ItemsOf(t.kids[i]), AllItems(t.kids[i + 1..]), k);
    KidsHeld(e, data.Keys, t);
  }

  lemma KidShape(cfg: TreeConfig, t: Tree)
    requires cfg.Valid() && Inner(cfg, t)
    ensures Body(cfg, t) && 1 <= Size(t) <= cfg.targetFanout
  {
  }

  lemma EntersLoads(e: Env, data: Chunks, hash: Hash, t: Tree)
    requires Trusted(e) && Enters(e, data, hash, t)
    ensures hash in data && e.decode(data[hash]) == Some(NodeOf(e, t))
    ensures t.Leaf? ==> Sorted(t.items) && Ascending(KeysOf(t.items)) && 1 <= |t.items|
    ensures t.Leaf? ==> EntryKeys(LeafEntries(e, t.items)) == KeysOf(t.items)
    ensures t.Leaf? ==> ItemsHeld(e, data.Keys, t.items)
    ensures t.Branch? ==> 1 <= |t.kids| <= e.config.targetFanout && t.level > 0
  {
    hide AllItems, ItemsHeld, AllHeld, AllInner, Sorted, Ascending, Find;
    LoadsNode(e, data, t);
    if t.Leaf? {
      LeafHeld(e, data.Keys, t);
      assert ItemsOf(t) == t.items;
      KeysAscend(t.items);
      EntryKeysOf(e, t.items);
    }
  }

  /** The value of a held item loads. */
  lemma HeldValueLoads(e: Env, data: Chunks, items: seq<Item>, x: Item)
    requires Trusted(e) && Consistent(e, data) && ItemsHeld(e, data.Keys, items) && x in items
    ensures LoadValue(data, ReprOf(e, x.value)) == Some(x.value)
  {
    hide Trusted, Consistent, ReprOf, ValueHeld;
    var i :| 0 <= i < |items| && items[i] == x;
    assert ValueHeld(e, data.Keys, items[i].value);
    ValueRoundTrip(e, data, x.value);
  }

  /** `get` returns the value the map has at the key. */
  method GetRecursive(store: InMemoryStore, nodeHash: Hash, key: Key, ghost t: Tree) returns (r: Result<Option<Value>>)
    requires Trusted(store.e) && Enters(store.e, store.data, nodeHash, t)
    ensures r == Ok(Find(ItemsOf(t), key))
    decreases t
  {
    hide AllItems, Held, Body, AllInner, Upsert, Sorted, ReprOf, HashOf;
    EntersLoads(store.e, store.data, nodeHash, t);
    var loaded := LoadNode(store, nodeHash);
    match loaded {
      case Err(error) => return Err(error);
      case Ok(LeafNode(_, entries)) =>
        var found, index := BinarySearch(EntryKeys(entries), key);
        if !found { return Ok(None); }
        ValueRoundTrip(store.e, store.data, t.items[index].value);
        var value := LoadValueRepr(store, entries[index].value);
        match value {
          case Err(error) => return Err(error);
          case Ok(v) => return Ok(Some(v));
        }
      case Ok(InternalNode(_, children)) =>
        if |children| == 0 { return Ok(None); }
        var i := FindChild(children, key);
        RouteIs(store.e, t.kids, key, i);
        EntersChild(store.e, store.data, t, key);
        r := GetRecursive(store, children[i].childHash, key, t.kids[i]);
    }
  }

  // ----- insertion

  /** Children with ascending items have ascending boundaries. */
  lemma MaxKeysAscend(cfg: TreeConfig, kids: seq<Tree>, level: nat)
    requires cfg.Valid() && AllInner(cfg, kids, level) && Sorted(AllItems(kids))
    ensures Ascending(MaxKeys(kids))
  {
    hide AllItems, ItemsOf, Sorted, AllInner, Inner, MaxKey;
    forall i, j | 0 <= i < j < |kids|
      ensures Pos(MaxKeys(kids)[i]) < Pos(MaxKeys(kids)[j])
    {
      var a, b, c := kids[..i], kids[i + 1..j], kids[j + 1..];
      assert kids == a + [kids[i]] + (b + [kids[j]] + c);
      KidInner(cfg, kids, level, i);
      KidInner(cfg, kids, level, j);
      MaxKeyBelow(cfg, a, kids[i], b, kids[j], c);
    }
  }

  lemma MaxKeyBelow(cfg: TreeConfig, a: seq<Tree>, x: Tree, b: seq<Tree>, y: Tree, c: seq<Tree>)
    requires cfg.Valid() && Inner(cfg, x) && Inner(cfg, y)
    requires Sorted(AllItems(a + [x] + (b + [y] + c)))
    ensures Pos(MaxKey(x)) < Pos(MaxKey(y))
  {
    hide AllItems, ItemsOf, Inner, Sorted;
    InnerBody(cfg, x);
    InnerNonEmpty(cfg, x);
    InnerBody(cfg, y);
    InnerNonEmpty(cfg, y);
    AllItemsAround(a, x, b + [y] + c);
    AllItemsAround(b, y, c);
    var p, q := ItemsOf(x), ItemsOf(y);
    LastBelow(AllItems(a), p, AllItems(b), q, AllItems(c));
  }

  lemma LastBelow(a: seq<Item>, p: seq<Item>, b: seq<Item>, q: seq<Item>, c: seq<Item>)
    requires Sorted(a + p + (b + q + c)) && p != [] && q != []
    ensures Pos(p[|p| - 1].key) < Pos(q[|q| - 1].key)
  {
    SortedParts(a + p, b + q + c);
    assert (a + p)[|a| + |p| - 1] == p[|p| - 1];
    assert (b + q + c)[|b| + |q| - 1] == q[|q| - 1];
  }

  /** The binary search for a split sibling lands immediately right of the child
      that split. */
  lemma SiblingPosition(cfg: TreeConfig, kids: seq<Tree>, level: nat, i: nat, g: Grown)
    requires cfg.Valid() && i < |kids| && g.right.Some?
    requires var kids' := kids[..i] + g.Trees() + kids[i + 1..]; AllInner(cfg, kids', level) && Sorted(AllItems(kids'))
    ensures Ascending(MaxKeys(kids[i := g.left]))
    ensures LowerBound(MaxKeys(kids[i := g.left]), MaxKey(g.right.value)) == i + 1
  {
    hide AllItems, Sorted, AllInner, MaxKey, LowerBound;
    var kids' := kids[..i] + g.Trees() + kids[i + 1..];
    MaxKeysAscend(cfg, kids', level);
    var ks, ks' := MaxKeys(kids[i := g.left]), MaxKeys(kids');
    assert forall j :: 0 <= j < |ks| ==> ks[j] == ks'[if j <= i then j else j + 1];
    assert ks'[i + 1] == MaxKey(g.right.value);
    LowerBoundIs(ks, MaxKey(g.right.value), i + 1);
  }

  /** The hashes of a grown tree's root, or of its two halves' roots. */
  ghost function TopHashes(e: Env, g: Grown): set<Hash>
    requires Trusted(e)
  {
    {HashOf(e, g.left)} + if g.right.Some? then {HashOf(e, g.right.value)} else {}
  }

  /** Stores the node of a tree whose parts are in the store. */
  method StoreNodeOf(store: InMemoryStore, node: Node, ghost t: Tree) returns (r: Result<(Key, Hash)>)
    requires Trusted(store.e) && Consistent(store.e, store.data) && node == NodeOf(store.e, t)
    requires Body(store.e.config, t) && Size(t) > 0 && BelowHeld(store.e, store.data.Keys, t)
    modifies store
    ensures r == Ok((MaxKey(t), HashOf(store.e, t)))
    ensures Grew(store.e, old(store.data), store.data, 1) && Held(store.e, store.data.Keys, t)
    ensures store.data.Keys == old(store.data.Keys) + {HashOf(store.e, t)}
  {
    hide BelowHeld, Held, Body, Put, MaxKey, NodeOf, Grew;
    StoringTree(store.e, store.data, t);
    BoundaryIsMaxKey(store.e, store.e.config, t);
    r := StoreNode(store, node);
  }

  /** Stores the entries of a leaf, as two leaves when there are too many. */
  method StoreGrownLeaf(store: InMemoryStore, entries: seq<LeafEntry>, ghost items: seq<Item>)
    returns (r: Result<ProcessedNodeUpdate>)
    requires Trusted(store.e) && Consistent(store.e, store.data)
    requires entries == LeafEntries(store.e, items) && BelowHeld(store.e, store.data.Keys, Leaf(items)) && items != []
    modifies store
    ensures r == Ok(UpdateOf(store.e, GrowLeaf(store.e.config, items)))
    ensures Grew(store.e, old(store.data), store.data, 2)
    ensures AllHeld(store.e, store.data.Keys, GrowLeaf(store.e.config, items).Trees())
    ensures store.data.Keys == old(store.data.Keys) + TopHashes(store.e, GrowLeaf(store.e.config, items))
  {
    hide ReprOf, Trusted, ItemsHeld, Grew, HashOf, BelowHeld;
    if |entries| > store.e.config.targetFanout {
      r := SplitLeaf(store, entries, items);
    } else {
      var stored := StoreNodeOf(store, LeafNode(0, entries), Leaf(items));
      match stored { case Err(error) => return Err(error); case Ok(_) => }
      GrewLess(store.e, old(store.data), store.data, 1, 2);
      return Ok(ProcessedNodeUpdate(stored.value.1, stored.value.0, |entries|, None));
    }
  }

  method SplitLeaf(store: InMemoryStore, entries: seq<LeafEntry>, ghost items: seq<Item>)
    returns (r: Result<ProcessedNodeUpdate>)
    requires Trusted(store.e) && Consistent(store.e, store.data) && |items| > store.e.config.targetFanout
    requires entries == LeafEntries(store.e, items) && BelowHeld(store.e, store.data.Keys, Leaf(items))
    modifies store
    ensures var g := Grown(Leaf(items[..|items| / 2]), Some(Leaf(items[|items| / 2..])));
            && r == Ok(UpdateOf(store.e, g))
            && AllHeld(store.e, store.data.Keys, g.Trees())
            && store.data.Keys == old(store.data.Keys) + TopHashes(store.e, g)
    ensures Grew(store.e, old(store.data), store.data, 2)
  {
    hide ReprOf, Trusted, ItemsHeld, Grew, AllHeld, HashOf, BelowHeld, LeafEntries, TopHashes;
    ghost var e, d0 := store.e, store.data;
    ConfigIsValid(e);
    var midIdx := |entries| / 2;
    LeafHeld(e, d0.Keys, Leaf(items));
    LeafSlices(e, d0.Keys, items, midIdx);
    HalvesBelow(e, d0.Keys, items[..midIdx], items[midIdx..]);
    ghost var l, u := Leaf(items[..midIdx]), Leaf(items[midIdx..]);
    var rightEntries, leftEntries := entries[midIdx..], entries[..midIdx];
    var stored := StoreHalves(store, LeafNode(0, leftEntries), LeafNode(0, rightEntries), l, u);
    match stored { case Err(error) => return Err(error); case Ok(_) => }
    var (left, right) := stored.value;
    return Ok(ProcessedNodeUpdate(left.1, left.0, |leftEntries|, Some((right.0, right.1, |rightEntries|))));
  }

  /** Stores the two halves of a node, the right one first. */
  method StoreHalves(store: InMemoryStore, leftNode: Node, rightNode: Node, ghost l: Tree, ghost u: Tree)
    returns (r: Result<((Key, Hash), (Key, Hash))>)
    requires Trusted(store.e) && Consistent(store.e, store.data)
    requires leftNode == NodeOf(store.e, l) && rightNode == NodeOf(store.e, u)
    requires Body(store.e.config, l) && Size(l) > 0 && BelowHeld(store.e, store.data.Keys, l)
    requires Body(store.e.config, u) && Size(u) > 0 && BelowHeld(store.e, store.data.Keys, u)
    modifies store
    ensures r == Ok(((MaxKey(l), HashOf(store.e, l)), (MaxKey(u), HashOf(store.e, u))))
    ensures Grew(store.e, old(store.data), store.data, 2) && AllHeld(store.e, store.data.Keys, [l, u])
    ensures store.data.Keys == old(store.data.Keys) + TopHashes(store.e, Grown(l, Some(u)))
  {
    hide *;
    ghost var e, d0 := store.e, store.data;
    var right := StoreNodeOf(store, rightNode, u);
    match right { case Err(error) => return Err(error); case Ok(_) => }
    ghost var d1 := store.data;
    GrewKeys(e, d0, d1, 1);
    BelowHeldGrows(e, d0.Keys, d1.Keys, l);
    var left := StoreNodeOf(store, leftNode, l);
    match left { case Err(error) => return Err(error); case Ok(_) => }
    HalvesStored(e, d0, d1, store.data, l, u);
    return Ok((left.value, right.value));
  }

  lemma HalvesStored(e: Env, d0: Chunks, d1: Chunks, d2: Chunks, l: Tree, u: Tree)
    requires Trusted(e) && Grew(e, d0, d1, 1) && Grew(e, d1, d2, 1)
    requires Held(e, d1.Keys, u) && d1.Keys == d0.Keys + {HashOf(e, u)}
    requires Held(e, d2.Keys, l) && d2.Keys == d1.Keys + {HashOf(e, l)}
    ensures Grew(e, d0, d2, 2) && AllHeld(e, d2.Keys, [l, u]) && d2.Keys == d0.Keys + TopHashes(e, Grown(l, Some(u)))
  {
    hide Trusted, Grew, Held, HashOf;
    GrewTwice(e, d0, 1, d1, 1, d2);
    GrewKeys(e, d1, d2, 1);
    HeldGrows(e, d1.Keys, d2.Keys, u);
  }

  /** Stores a branch whose children changed; a split sibling is filed by binary
      search, and the branch splits when it became too large. */
  method StoreGrownBranch(store: InMemoryStore, level: nat, updated: seq<InternalEntry>,
                          splitInfo: Option<(Key, Hash, nat)>,
                          ghost kids: seq<Tree>, ghost i: nat, ghost g: Grown)
    returns (r: Result<ProcessedNodeUpdate>)
    requires Trusted(store.e) && Consistent(store.e, store.data) && level > 0 && i < |kids|
    requires updated == Entries(store.e, kids[i := g.left]) && splitInfo == UpdateOf(store.e, g).splitInfo
    requires var kids' := kids[..i] + g.Trees() + kids[i + 1..];
             && AllInner(store.e.config, kids', level - 1) && Sorted(AllItems(kids'))
             && AllHeld(store.e, store.data.Keys, kids')
    modifies store
    ensures var g' := BranchGrown(store.e.config, level, kids, i, g);
            && r == Ok(UpdateOf(store.e, g'))
            && AllHeld(store.e, store.data.Keys, g'.Trees())
            && store.data.Keys == old(store.data.Keys) + TopHashes(store.e, g')
    ensures Grew(store.e, old(store.data), store.data, 2)
  {
    hide Trusted, Grew, Held, HashOf, AllHeld, AllInner, Sorted, AllItems, MaxKey, LowerBound, Ascending, Entries, TopHashes;
    ghost var e, cfg := store.e, store.e.config;
    ghost var kids' := kids[..i] + g.Trees() + kids[i + 1..];
    ConfigIsValid(e);
    if splitInfo.None? {
      assert kids' == kids[i := g.left];
      r := StoreBranch(store, level, updated, kids');
      GrewLess(e, old(store.data), store.data, 1, 2);
    } else {
      var entry := InternalEntry(splitInfo.value.0, splitInfo.value.1, splitInfo.value.2);
      SiblingPosition(cfg, kids, level - 1, i, g);
      BoundariesOf(e, kids[i := g.left]);
      var _, pos := BinarySearch(Boundaries(updated), entry.boundaryKey);
      SiblingFiled(e, kids, i, g);
      var children := updated[..pos] + [entry] + updated[pos..];
      if |children| > store.e.config.targetFanout {
        r := SplitBranch(store, level, children, kids');
      } else {
        r := StoreBranch(store, level, children, kids');
        GrewLess(e, old(store.data), store.data, 1, 2);
      }
    }
  }

  lemma BoundariesOf(e: Env, kids: seq<Tree>)
    requires Trusted(e)
    ensures Boundaries(Entries(e, kids)) == MaxKeys(kids)
  {
    hide HashOf, MaxKey, Count, Trusted;
  }

  lemma SiblingFiled(e: Env, kids: seq<Tree>, i: nat, g: Grown)
    requires Trusted(e) && i < |kids| && g.right.Some?
    ensures var es := Entries(e, kids[i := g.left]);
            es[..i + 1] + [EntryOf(e, g.right.value)] + es[i + 1..] == Entries(e, kids[..i] + g.Trees() + kids[i + 1..])
  {
    hide HashOf, MaxKey, Count, Trusted, EntryOf;
  }

  /** Stores one branch and reports it. */
  method StoreBranch(store: InMemoryStore, level: nat, children: seq<InternalEntry>, ghost kids: seq<Tree>)
    returns (r: Result<ProcessedNodeUpdate>)
    requires Trusted(store.e) && Consistent(store.e, store.data) && level > 0 && kids != []
    requires children == Entries(store.e, kids) && AllInner(store.e.config, kids, level - 1)
    requires AllHeld(store.e, store.data.Keys, kids)
    modifies store
    ensures r == Ok(UpdateOf(store.e, Grown(Branch(level, kids), None)))
    ensures Grew(store.e, old(store.data), store.data, 1)
    ensures AllHeld(store.e, store.data.Keys, [Branch(level, kids)])
    ensures store.data.Keys == old(store.data.Keys) + TopHashes(store.e, Grown(Branch(level, kids), None))
  {
    hide Trusted, Grew, HashOf, Held, AllInner, AllItems, MaxKey;
    var total := SumItems(children);
    SumIsCount(store.e, kids);
    BranchBody(store.e.config, level, kids);
    var stored := StoreNodeOf(store, InternalNode(level, children), Branch(level, kids));
    match stored { case Err(error) => return Err(error); case Ok(_) => }
    return Ok(ProcessedNodeUpdate(stored.value.1, stored.value.0, total, None));
  }

  /** Stores the two halves of a branch with too many children. */
  method SplitBranch(store: InMemoryStore, level: nat, children: seq<InternalEntry>, ghost kids: seq<Tree>)
    returns (r: Result<ProcessedNodeUpdate>)
    requires Trusted(store.e) && Consistent(store.e, store.data) && level > 0
    requires |kids| > store.e.config.targetFanout
    requires children == Entries(store.e, kids) && AllInner(store.e.config, kids, level - 1)
    requires AllHeld(store.e, store.data.Keys, kids)
    modifies store
    ensures var g := GrowBranch(store.e.config, level, kids);
            && r == Ok(UpdateOf(store.e, g))
            && AllHeld(store.e, store.data.Keys, g.Trees())
            && store.data.Keys == old(store.data.Keys) + TopHashes(store.e, g)
    ensures Grew(store.e, old(store.data), store.data, 2)
  {
    hide Trusted, Grew, HashOf, AllInner, AllItems, MaxKey, Held, AllHeld, Entries, TopHashes;
    ghost var e, cfg, d0 := store.e, store.e.config, store.data;
    ConfigIsValid(e);
    var midIdx := |children| / 2;
    ghost var ls, rs := kids[..midIdx], kids[midIdx..];
    BranchSlices(e, d0.Keys, kids, midIdx);
    AllInnerParts(cfg, kids, level - 1, midIdx);
    BranchBody(cfg, level, ls);
    BranchBody(cfg, level, rs);
    var leftChildren, rightChildren := children[..midIdx], children[midIdx..];
    var stored := StoreHalves(store, InternalNode(level, leftChildren), InternalNode(level, rightChildren),
                              Branch(level, ls), Branch(level, rs));
    match stored { case Err(error) => return Err(error); case Ok(_) => }
    var (left, right) := stored.value;
    var leftCount := SumItems(leftChildren);
    var rightCount := SumItems(rightChildren);
    SumIsCount(e, ls);
    SumIsCount(e, rs);
    return Ok(ProcessedNodeUpdate(left.1, left.0, leftCount, Some((right.0, right.1, rightCount))));
  }

  lemma AllHeldReplace(e: Env, keys: set<Hash>, kids: seq<Tree>, i: nat, new_: seq<Tree>)
    requires Trusted(e) && i < |kids| && AllHeld(e, keys, kids) && AllHeld(e, keys, new_)
    ensures AllHeld(e, keys, kids[..i] + new_ + kids[i + 1..])
  {
    hide Trusted, Held;
    var c := kids[i + 1..];
    forall j | 0 <= j < |c|
      ensures Held(e, keys, c[j])
    {
      assert c[j] == kids[i + 1 + j];
    }
  }

  lemma UpsertHeld(e: Env, keys: set<Hash>, items: seq<Item>, k: Key, v: Value)
    requires Trusted(e) && ItemsHeld(e, keys, items) && ValueHeld(e, keys, v)
    ensures BelowHeld(e, keys, Leaf(Upsert(items, k, v)))
  {
    hide Trusted, ValueHeld, LowerBound;
    var u := Upsert(items, k, v);
    forall i | 0 <= i < |u|
      ensures ValueHeld(e, keys, u[i].value)
    {
      assert u[i] == Item(k, v) || u[i] in items;
    }
  }

  /** The parent after its child was inserted into. */
  lemma InsertedChild(e: Env, d0: Chunks, d1: Chunks, t: Tree, k: Key, v: Value)
    requires Trusted(e) && Enters(e, d0, HashOf(e, t), t) && t.Branch?
    requires var g := Insert(e.config, t.kids[Route(t.kids, k)], k, v);
             d0.Keys <= d1.Keys && AllHeld(e, d1.Keys, g.Trees())
    ensures var i := Route(t.kids, k);
            var g := Insert(e.config, t.kids[i], k, v);
            var kids' := t.kids[..i] + g.Trees() + t.kids[i + 1..];
            && Insert(e.config, t, k, v) == BranchGrown(e.config, t.level, t.kids, i, g)
            && AllInner(e.config, kids', t.level - 1) && Sorted(AllItems(kids'))
            && AllHeld(e, d1.Keys, kids')
            && Entries(e, t.kids)[i := EntryOf(e, g.left)] == Entries(e, t.kids[i := g.left])
  {
    hide Trusted, Held, AllHeld, AllInner, AllItems, Upsert, Sorted, HashOf, MaxKey, Route, Consistent, BranchGrown,
      Count, GrownOk;
    var i := Route(t.kids, k);
    var g := Insert(e.config, t.kids[i], k, v);
    ConfigIsValid(e);
    EntersChild(e, d0, t, k);
    InsertCorrect(e.config, t.kids[i], k, v);
    InsertInBranch(e.config, t, k, v, g);
    UpsertSorted(ItemsOf(t), k, v);
    HeldBelow(e, d0.Keys, t);
    KidsHeld(e, d0.Keys, t);
    AllHeldGrows(e, d0.Keys, d1.Keys, t.kids);
    AllHeldReplace(e, d1.Keys, t.kids, i, g.Trees());
  }

  /** The nodes of a grown leaf are its tops. */
  lemma LeafNodes(e: Env, items: seq<Item>)
    requires Trusted(e)
    ensures var g := GrowLeaf(e.config, items); AllNodeHashes(e, g.Trees()) == TopHashes(e, g)
  {
    hide Trusted, HashOf, AllNodeHashes;
    var g := GrowLeaf(e.config, items);
    if g.right.Some? { AllNodeHashesTwo(e, g.left, g.right.value); } else { AllNodeHashesOne(e, g.left); }
  }

  /** The nodes of a grown branch are its tops, those of the grown child, and old ones. */
  lemma BranchNodes(e: Env, d0: Chunks, t: Tree, i: nat, g: Grown)
    requires Trusted(e) && Held(e, d0.Keys, t) && t.Branch? && i < |t.kids|
    ensures var g' := BranchGrown(e.config, t.level, t.kids, i, g);
            d0.Keys + AllNodeHashes(e, g.Trees()) + TopHashes(e, g') == d0.Keys + AllNodeHashes(e, g'.Trees())
  {
    hide Trusted, HashOf, AllNodeHashes, AllHeld, BelowHeld;
    var a, c := t.kids[..i], t.kids[i + 1..];
    HeldBelow(e, d0.Keys, t);
    KidsHeld(e, d0.Keys, t);
    AllNodesHeld(e, d0.Keys, t.kids);
    assert t.kids == a + [t.kids[i]] + c;
    AllNodeHashesAppend(e, a + [t.kids[i]], c);
    AllNodeHashesAppend(e, a, [t.kids[i]]);
    AllNodeHashesAppend(e, a + g.Trees(), c);
    AllNodeHashesAppend(e, a, g.Trees());
    GrownNodes(e, t.level, t.kids, i, g);
  }

  lemma GrownNodes(e: Env, level: nat, kids: seq<Tree>, i: nat, g: Grown)
    requires Trusted(e) && i < |kids|
    ensures var g' := BranchGrown(e.config, level, kids, i, g);
            AllNodeHashes(e, g'.Trees()) == TopHashes(e, g') + AllNodeHashes(e, kids[..i] + g.Trees() + kids[i + 1..])
  {
    hide Trusted, HashOf, AllNodeHashes;
    var g', kids' := BranchGrown(e.config, level, kids, i, g), kids[..i] + g.Trees() + kids[i + 1..];
    if g.right.None? { assert kids[i := g.left] == kids'; }
    if g'.right.Some? {
      var mid := |kids'| / 2;
      assert kids' == kids'[..mid] + kids'[mid..];
      AllNodeHashesAppend(e, kids'[..mid], kids'[mid..]);
      AllNodeHashesTwo(e, g'.left, g'.right.value);
    } else {
      AllNodeHashesOne(e, g'.left);
    }
  }

  /** Insertion into a subtree: the update reports the grown tree, whose parts are
      all in the store. Its nodes, and no others, are added, at most two a level. */
  method InsertRecursive(store: InMemoryStore, nodeHash: Hash, key: Key, valueRepr: ValueRepr, level: nat,
                         ghost t: Tree, ghost v: Value)
    returns (r: Result<ProcessedNodeUpdate>)
    requires Trusted(store.e) && Enters(store.e, store.data, nodeHash, t) && level == Level(t)
    requires valueRepr == ReprOf(store.e, v) && ValueHeld(store.e, store.data.Keys, v)
    modifies store
    ensures r == Ok(UpdateOf(store.e, Insert(store.e.config, t, key, v)))
    ensures AllHeld(store.e, store.data.Keys, Insert(store.e.config, t, key, v).Trees())
    ensures store.data.Keys == old(store.data.Keys) + AllNodeHashes(store.e, Insert(store.e.config, t, key, v).Trees())
    ensures Grew(store.e, old(store.data), store.data, 2 * (level + 1))
    decreases t
  {
    hide Trusted, Held, AllHeld, Body, AllInner, AllItems, Upsert, Sorted, ReprOf, HashOf, ValueHeld, Grew, MaxKey, Route,
      Consistent, GrowLeaf, GrowBranch, LeafEntries, Entries, ItemsHeld, Find, TopHashes, AllNodeHashes;
    ghost var e, d0 := store.e, store.data;
    EntersLoads(e, d0, nodeHash, t);
    var loaded := LoadNode(store, nodeHash);
    match loaded {
      case Err(error) => return Err(error);
      case Ok(LeafNode(_, entries)) =>
        var found, index := BinarySearch(EntryKeys(entries), key);
        LeafUpdate(e, t.items, key, v);
        UpsertHeld(e, d0.Keys, t.items, key, v);
        UpsertSorted(t.items, key, v);
        entries := if found then entries[index := LeafEntry(key, valueRepr)]
                   else entries[..index] + [LeafEntry(key, valueRepr)] + entries[index..];
        r := StoreGrownLeaf(store, entries, Upsert(t.items, key, v));
        LeafNodes(e, Upsert(t.items, key, v));
      case Ok(InternalNode(_, children)) =>
        var i := FindChild(children, key);
        RouteIs(e, t.kids, key, i);
        EntersChild(e, d0, t, key);
        ghost var g := Insert(e.config, t.kids[i], key, v);
        var sub := InsertRecursive(store, children[i].childHash, key, valueRepr, level - 1, t.kids[i], v);
        match sub { case Err(error) => return Err(error); case Ok(_) => }
        ghost var d1 := store.data;
        GrewKeys(e, d0, d1, 2 * level);
        InsertedChild(e, d0, d1, t, key, v);
        children := children[i := InternalEntry(sub.value.newBoundaryKey, sub.value.newHash, sub.value.newItemCount)];
        r := StoreGrownBranch(store, level, children, sub.value.splitInfo, t.kids, i, g);
        GrewTwice(e, d0, 2 * level, d1, 2, store.data);
        BranchNodes(e, d0, t, i, g);
    }
  }
}
