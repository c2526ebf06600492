/** The tree object: its root transitions, and what they mean for the map. */
module Prolly {
  import opened Keys
  import opened Items
  import opened Nodes
  import opened Values
  import opened Trees
  import opened Insertion
  import opened Deletion
  import opened Store
  import opened CoreLogic
  import opened Modification
  import opened Gc

  /** A root hash stands for a tree, and the whole tree is in the store. */
  ghost predicate Denotes(e: Env, data: Chunks, root: Option<Hash>, t: Option<Tree>)
    requires Trusted(e)
  {
    match t
    case None => root == None
    case Some(u) => root == Some(HashOf(e, u)) && WellFormed(e.config, u) && Held(e, data.Keys, u)
  }

  /** The map a tree stands for; no tree is the empty map. */
  ghost function MapOf(t: Option<Tree>): map<Key, Value> {
    if t.None? then map[] else ToMap(ItemsOf(t.value))
  }

  // ----- what the root transitions mean

  /** Setting a key to the value it has rebuilds the same tree. */
  lemma {:induction false} InsertSame(cfg: TreeConfig, t: Tree, k: Key, v: Value)
    requires cfg.Valid() && Body(cfg, t) && 1 <= Size(t) <= cfg.targetFanout && Sorted(ItemsOf(t))
    requires Find(ItemsOf(t), k) == Some(v)
    ensures Insert(cfg, t, k, v) == Grown(t, None)
    decreases t
  {
    if t.Leaf? {
      UpsertSame(t.items, k, v);
    } else {
      hide AllItems, Find, Inner, AllInner, Route, Sorted, Upsert, AllBelow, AllAbove, Insert;
      var i := Route(t.kids, k);
      KidsInner(cfg, t);
      KidShape(cfg, t.kids[i]);
      RouteSplits(cfg, t.kids, t.level - 1, k);
      FindInMiddle(AllItems(t.kids[..i]), ItemsOf(t.kids[i]), AllItems(t.kids[i + 1..]), k);
      InsertSame(cfg, t.kids[i], k, v);
      SameBranch(cfg, t, k, v);
    }
  }

  lemma SameBranch(cfg: TreeConfig, t: Tree, k: Key, v: Value)
    requires t.Branch? && t.kids != []
    requires Insert(cfg, t.kids[Route(t.kids, k)], k, v) == Grown(t.kids[Route(t.kids, k)], None)
    ensures Insert(cfg, t, k, v) == Grown(t, None)
  {
    hide Route;
    var i := Route(t.kids, k);
    assert t.kids[i := t.kids[i]] == t.kids;
  }

  /** Insertion is map update, and the root changes exactly when the map did not hold
      that very pair. On an overflow only the lower part of the updated map is left. */
  lemma InsertMeaning(e: Env, t: Option<Tree>, k: Key, v: Value)
    requires Trusted(e) && (t.Some? ==> WellFormed(e.config, t.value))
    ensures var t' := NewTop(e.config, t, k, v);
            && WellFormed(e.config, t')
            && (if Overflows(e.config, t, k, v) then LowerPart(MapOf(t)[k := v], MapOf(Some(t')))
                else
                  && MapOf(Some(t')) == MapOf(t)[k := v]
                  && (t.Some? ==> (HashOf(e, t') == HashOf(e, t.value) <==> k in MapOf(t) && MapOf(t)[k] == v)))
  {
    hide Trusted, AllItems, Find, HashOf, Upsert, Sorted, Insert, NewTop, InsertRoot, ToMap;
    ConfigIsValid(e);
    NewTopCorrect(e.config, t, k, v);
    if t.Some? {
      var s, t' := ItemsOf(t.value), NewTop(e.config, t, k, v);
      UpsertIsUpdate(s, k, v);
      if Overflows(e.config, t, k, v) {
        var lost := ItemsOf(Insert(e.config, t.value, k, v).right.value);
        UpsertSorted(s, k, v);
        LowerPartOf(ItemsOf(t'), lost);
      } else {
        MapAt(s, k);
        if HashOf(e, t') == HashOf(e, t.value) { HashOfInjective(e, t', t.value); UpsertSame(s, k, v); }
        if Find(s, k) == Some(v) { SameTop(e.config, t.value, k, v); }
      }
    } else {
      OneItem(k, v);
    }
  }

  lemma SameTop(cfg: TreeConfig, t: Tree, k: Key, v: Value)
    requires cfg.Valid() && WellFormed(cfg, t) && Find(ItemsOf(t), k) == Some(v)
    ensures NewTop(cfg, Some(t), k, v) == t
  {
    hide Find, Sorted, Insert;
    InsertSame(cfg, t, k, v);
  }

  lemma OneItem(k: Key, v: Value)
    ensures ToMap([Item(k, v)]) == map[k := v]
  {
    var s := [Item(k, v)];
    FoundAt(s, 0);
    forall j
      ensures j in ToMap(s) ==> j == k
    {
    }
    MapAt(s, k);
  }

  /** Deletion is map removal; the tree stays the same exactly when the key was
      absent. */
  lemma DeleteMeaning(e: Env, t: Option<Tree>, k: Key)
    requires Trusted(e) && (t.Some? ==> WellFormed(e.config, t.value))
    ensures var t' := DeleteRoot(e.config, t, k);
            && (t'.Some? ==> WellFormed(e.config, t'.value))
            && MapOf(t') == MapOf(t) - {k}
            && (t' == t <==> k !in MapOf(t))
  {
    hide Trusted, AllItems, Find, Without, Sorted, DeleteRoot;
    ConfigIsValid(e);
    DeleteRootCorrect(e.config, t, k);
    var t' := DeleteRoot(e.config, t, k);
    if t.Some? {
      WithoutIsRemoval(ItemsOf(t.value), k);
      MapAt(ItemsOf(t.value), k);
      if t'.None? { EmptyMap(); }
    }
  }

  lemma EmptyMap()
    ensures ToMap([]) == map[]
  {
  }

  /** A denoting root lets the operations in. */
  lemma DenotesEnters(e: Env, data: Chunks, root: Option<Hash>, t: Option<Tree>)
    requires Trusted(e) && Consistent(e, data) && Denotes(e, data, root, t) && t.Some?
    ensures root == Some(HashOf(e, t.value)) && Enters(e, data, root.value, t.value) && RootShape(e.config, t.value)
    ensures root.value in data && e.decode(data[root.value]) == Some(NodeOf(e, t.value))
    ensures e.decode(data[root.value]).value.level == Level(t.value)
  {
    LoadsNode(e, data, t.value);
  }

  // ----- the steps of the object, as relations between snapshots

  /** The store, the root hash, and the tree the hash stands for. */
  datatype Snapshot = Snapshot(data: Chunks, root: Option<Hash>, tree: Option<Tree>)

  ghost predicate Good(e: Env, s: Snapshot)
    requires Trusted(e)
  {
    Consistent(e, s.data) && Denotes(e, s.data, s.root, s.tree)
  }

  ghost function RootLevel(t: Option<Tree>): nat {
    if t.None? then 0 else Level(t.value)
  }

  /** How many node chunks an insertion may add. */
  ghost function NewNodes(t: Option<Tree>): nat {
    if t.None? then 1 else 2 * (Level(t.value) + 1) + 1
  }

  /** The trees that an insertion stores: the new one, or the halves of an overflow. */
  ghost function Planted(cfg: TreeConfig, t: Option<Tree>, k: Key, v: Value): seq<Tree> {
    if Overflows(cfg, t, k, v) then Insert(cfg, t.value, k, v).Trees() else [InsertRoot(cfg, t, k, v)]
  }

  /** An insertion: the new tree; all old chunks, the nodes of the new tree (of both
      halves, on an overflow) and the chunks of the value, and no others; at most two
      new node chunks per level and one for a new root; and a dangling reference
      exactly when a chunk of the value brings one. */
  ghost predicate Inserted(e: Env, s: Snapshot, k: Key, v: Value, s': Snapshot)
    requires Trusted(e)
  {
    && Good(e, s') && s'.tree == Some(NewTop(e.config, s.tree, k, v))
    && Extends(s.data, s'.data)
    && s'.data.Keys == s.data.Keys + HashSet(e, ChunksOf(e, v)) + AllNodeHashes(e, Planted(e.config, s.tree, k, v))
    && |s'.data| <= |s.data| + |ChunksOf(e, v)| + NewNodes(s.tree)
    && (RefClosed(e, s.data) ==> (RefClosed(e, s'.data) <==> Inert(e, s'.data.Keys, ChunksOf(e, v))))
  }

  /** A deletion: exactly the nodes of the shrunk tree and the roots of underfull
      children on the path are added, at most three new chunks per level and one at the
      leaf, and nothing changes at all when the key was absent. */
  ghost predicate Deleted(e: Env, s: Snapshot, k: Key, s': Snapshot)
    requires Trusted(e)
  {
    && Good(e, s') && s'.tree == DeleteRoot(e.config, s.tree, k)
    && Extends(s.data, s'.data)
    && (s.tree.Some? ==> DeleteAdds(e, s.data, s'.data, s.tree.value, k))
    && |s'.data| <= |s.data| + 3 * RootLevel(s.tree) + 1
    && (RefClosed(e, s.data) ==> RefClosed(e, s'.data))
    && (k !in MapOf(s.tree) ==> s' == s)
  }

  /** A checkout succeeds exactly when the hash names a chunk that is a node; it
      changes nothing but the root. When the hash stands for a whole stored tree,
      the object then stands for that tree. */
  ghost predicate CheckedOut(e: Env, s: Snapshot, h: Option<Hash>, s': Snapshot, ok: bool)
    requires Trusted(e)
  {
    && s'.data == s.data
    && (ok <==> h.None? || (h.value in s.data && e.decode(s.data[h.value]).Some?))
    && (!ok ==> s' == s)
    && (ok ==> s'.root == h)
    && (h.None? ==> s'.tree == None)
    && (forall t :: h == Some(HashOf(e, t)) && WellFormed(e.config, t) && Held(e, s.data.Keys, t) ==>
                      s'.tree == Some(t) && Good(e, s'))
  }

  /** A collection keeps exactly what the given roots and the current one reach. */
  ghost predicate Collected(e: Env, s: Snapshot, live: seq<Hash>, s': Snapshot, count: int)
    requires Trusted(e)
  {
    && s'.data == Kept(s.data, LiveSet(e, s.data, GcRoots(live, s.root)))
    && count == |s.data| - |s'.data|
    && s'.root == s.root && s'.tree == s.tree && Good(e, s')
    && (RefClosed(e, s.data) ==> RefClosed(e, s'.data))
  }

  ghost function GcRoots(live: seq<Hash>, root: Option<Hash>): set<Hash> {
    (set h | h in live) + (if root.Some? then {root.value} else {})
  }

  // ----- steps of an insertion

  /** The store once the chunks of a value are in it. */
  lemma ValueStored(e: Env, d0: Chunks, root: Option<Hash>, t: Option<Tree>, v: Value)
    requires Trusted(e) && Consistent(e, d0) && Denotes(e, d0, root, t)
    ensures var d1 := PutAll(e, d0, ChunksOf(e, v));
            && Consistent(e, d1) && Extends(d0, d1) && |d1| <= |d0| + |ChunksOf(e, v)|
            && ValueHeld(e, d1.Keys, v) && Denotes(e, d1, root, t)
            && d1.Keys == d0.Keys + HashSet(e, ChunksOf(e, v))
  {
    hide Trusted, Held, AllItems, HashOf, Consistent, WellFormed, PutAll, ChunksOf;
    PutAllFacts(e, d0, ChunksOf(e, v));
    if t.Some? { HeldGrows(e, d0.Keys, PutAll(e, d0, ChunksOf(e, v)).Keys, t.value); }
  }

  /** Inserts below the root and, if that splits, puts a new root on top. When the
      level of the new root wraps around, the left half is already the root. */
  method InsertAtRoot(store: InMemoryStore, root: Option<Hash>, key: Key, valueRepr: ValueRepr,
                      ghost t: Option<Tree>, ghost v: Value)
    returns (newRoot: Option<Hash>, r: Result<()>)
    requires Trusted(store.e) && Consistent(store.e, store.data) && Denotes(store.e, store.data, root, t)
    requires valueRepr == ReprOf(store.e, v) && ValueHeld(store.e, store.data.Keys, v)
    modifies store
    ensures var t' := NewTop(store.e.config, t, key, v);
            newRoot == Some(HashOf(store.e, t')) && Held(store.e, store.data.Keys, t')
    ensures r == if Overflows(store.e.config, t, key, v) then Err(ConfigError) else Ok(())
    ensures store.data.Keys == old(store.data.Keys) + AllNodeHashes(store.e, Planted(store.e.config, t, key, v))
    ensures Grew(store.e, old(store.data), store.data, NewNodes(t))
  {
    hide Trusted, Held, AllHeld, AllItems, HashOf, Grew, Consistent, ReprOf, ValueHeld, Insert, Body, AllInner, MaxKey,
      AllNodeHashes, TopHashes, Entries, RootShape, WellFormed, Enters, Sorted, NodeOf, Extends,
      UpdateOf;
    ghost var e, d0 := store.e, store.data;
    newRoot := root;
    if root.None? {
      var first := StoreFirstLeaf(store, key, valueRepr, v);
      match first { case Err(error) => return newRoot, Err(error); case Ok(_) => }
      return Some(first.value), Ok(());
    }
    DenotesEnters(e, d0, root, t);
    var rootNode := LoadNode(store, root.value);
    match rootNode { case Err(error) => return newRoot, Err(error); case Ok(_) => }
    var level := rootNode.value.level;
    var updated := InsertRecursive(store, root.value, key, valueRepr, level, t.value, v);
    match updated { case Err(error) => return newRoot, Err(error); case Ok(_) => }
    var update := updated.value;
    newRoot := Some(update.newHash);
    UpdateFacts(e, Insert(e.config, t.value, key, v));
    ghost var g, d1 := Insert(e.config, t.value, key, v), store.data;
    GrewKeys(e, d0, d1, 2 * (level + 1));
    GrewLess(e, d0, d1, 2 * (level + 1), 2 * (level + 1) + 1);
    LeftHeld(e, d1.Keys, g);
    if update.splitInfo.None? { return newRoot, Ok(()); }
    HalvesInner(e, d0, root, t, key, v);
    newRoot, r := StoreRoot(store, level, update, g);
    if r.Ok? {
      GrewTwice(e, d0, 2 * (level + 1), d1, 1, store.data);
      RootNodes(e, level + 1, g.Trees());
    }
  }

  /** Puts a new root over two halves, unless its level wraps around. */
  method StoreRoot(store: InMemoryStore, level: nat, update: ProcessedNodeUpdate, ghost g: Grown)
    returns (newRoot: Option<Hash>, r: Result<()>)
    requires Trusted(store.e) && Consistent(store.e, store.data) && g.right.Some? && update == UpdateOf(store.e, g)
    requires AllInner(store.e.config, g.Trees(), level) && AllHeld(store.e, store.data.Keys, g.Trees())
    modifies store
    ensures if level == 255
            then r == Err(ConfigError) && newRoot == Some(update.newHash) && store.data == old(store.data)
            else
              var t := Branch(level + 1, g.Trees());
              && r == Ok(()) && newRoot == Some(HashOf(store.e, t)) && Held(store.e, store.data.Keys, t)
              && store.data.Keys == old(store.data.Keys) + {HashOf(store.e, t)}
              && Grew(store.e, old(store.data), store.data, 1)
  {
    hide Trusted, Held, AllHeld, HashOf, Grew, Consistent, AllInner, Entries, MaxKey, AllItems;
    newRoot := Some(update.newHash);
    var split := update.splitInfo.value;
    var children := [InternalEntry(update.newBoundaryKey, update.newHash, update.newItemCount),
                     InternalEntry(split.0, split.1, split.2)];
    TopEntries(store.e, g);
    var newNode := NewInternal(children, NextLevel(level));
    match newNode { case Err(error) => return newRoot, Err(error); case Ok(_) => }
    BranchBody(store.e.config, level + 1, g.Trees());
    var stored := StoreNodeOf(store, newNode.value, Branch(level + 1, g.Trees()));
    match stored { case Err(error) => return newRoot, Err(error); case Ok(_) => }
    return Some(stored.value.1), Ok(());
  }

  lemma UpdateFacts(e: Env, g: Grown)
    requires Trusted(e)
    ensures UpdateOf(e, g).newHash == HashOf(e, g.left) && (UpdateOf(e, g).splitInfo.Some? <==> g.right.Some?)
  {
    hide Trusted, HashOf, MaxKey, Count;
  }

  lemma LeftHeld(e: Env, keys: set<Hash>, g: Grown)
    requires Trusted(e) && AllHeld(e, keys, g.Trees())
    ensures Held(e, keys, g.left)
  {
    hide Trusted, Held;
    assert g.Trees()[0] == g.left;
  }

  lemma TopEntries(e: Env, g: Grown)
    requires Trusted(e) && g.right.Some?
    ensures Entries(e, g.Trees()) == [EntryOf(e, g.left), EntryOf(e, g.right.value)]
  {
    hide Trusted, HashOf, MaxKey, Count;
  }

  /** The nodes of a new root are itself and those of the two halves. */
  lemma RootNodes(e: Env, level: nat, kids: seq<Tree>)
    requires Trusted(e)
    ensures AllNodeHashes(e, [Branch(level, kids)]) == AllNodeHashes(e, kids) + {HashOf(e, Branch(level, kids))}
  {
    hide Trusted, HashOf;
    AllNodeHashesOne(e, Branch(level, kids));
  }

  lemma HalvesInner(e: Env, d0: Chunks, root: Option<Hash>, t: Option<Tree>, k: Key, v: Value)
    requires Trusted(e) && Denotes(e, d0, root, t) && t.Some?
    ensures var g := Insert(e.config, t.value, k, v);
            g.right.Some? ==> AllInner(e.config, g.Trees(), Level(t.value))
  {
    hide Trusted, Held, AllItems, HashOf, Insert, Inner;
    ConfigIsValid(e);
    InsertCorrect(e.config, t.value, k, v);
  }

  method StoreFirstLeaf(store: InMemoryStore, key: Key, valueRepr: ValueRepr, ghost v: Value) returns (r: Result<Hash>)
    requires Trusted(store.e) && Consistent(store.e, store.data)
    requires valueRepr == ReprOf(store.e, v) && ValueHeld(store.e, store.data.Keys, v)
    modifies store
    ensures var t' := Leaf([Item(key, v)]); r == Ok(HashOf(store.e, t')) && Held(store.e, store.data.Keys, t')
    ensures Grew(store.e, old(store.data), store.data, 1)
    ensures store.data.Keys == old(store.data.Keys) + AllNodeHashes(store.e, [Leaf([Item(key, v)])])
  {
    hide Trusted, ReprOf, ValueHeld, HashOf, Grew, Consistent, Held;
    ghost var t := Leaf([Item(key, v)]);
    AllNodeHashesOne(store.e, t);
    OneItemHeld(store.e, store.data.Keys, key, v);
    var stored := StoreNodeOf(store, LeafNode(0, [LeafEntry(key, valueRepr)]), t);
    match stored { case Err(error) => return Err(error); case Ok(_) => }
    return Ok(stored.value.1);
  }

  lemma OneItemHeld(e: Env, keys: set<Hash>, key: Key, v: Value)
    requires Trusted(e) && ValueHeld(e, keys, v)
    ensures BelowHeld(e, keys, Leaf([Item(key, v)]))
    ensures NodeOf(e, Leaf([Item(key, v)])) == LeafNode(0, [LeafEntry(key, ReprOf(e, v))])
  {
    hide Trusted, ReprOf, ValueHeld;
    assert LeafEntries(e, [Item(key, v)])[0] == LeafEntry(key, ReprOf(e, v));
  }

  lemma InsertDone(e: Env, s: Snapshot, k: Key, v: Value, d1: Chunks, d2: Chunks)
    requires Trusted(e) && Good(e, s) && d1 == PutAll(e, s.data, ChunksOf(e, v))
    requires Grew(e, d1, d2, NewNodes(s.tree))
    requires d2.Keys == d1.Keys + AllNodeHashes(e, Planted(e.config, s.tree, k, v))
    requires Held(e, d2.Keys, NewTop(e.config, s.tree, k, v))
    ensures var t' := NewTop(e.config, s.tree, k, v);
            Inserted(e, s, k, v, Snapshot(d2, Some(HashOf(e, t')), Some(t')))
  {
    hide Trusted, Held, AllItems, HashOf, Consistent, RefClosed, WellFormed, PutAll, ChunksOf, Inert, NewTop, Extends,
      AllNodeHashes, Planted, HashSet, NewNodes, Grew;
    ValueStored(e, s.data, s.root, s.tree, v);
    GrewFacts(e, d1, d2, NewNodes(s.tree));
    ExtendsTwice(s.data, d1, d2);
    ConfigIsValid(e);
    GoodTree(e, s);
    NewTopCorrect(e.config, s.tree, k, v);
    if RefClosed(e, s.data) { GrowthKeepsClosedIff(e, s.data, ChunksOf(e, v), d2, NewNodes(s.tree)); }
  }

  lemma GrewFacts(e: Env, d: Chunks, d': Chunks, n: nat)
    requires Grew(e, d, d', n)
    ensures Consistent(e, d') && Extends(d, d') && |d'| <= |d| + n
  {
  }

  lemma InsertedGood(e: Env, s: Snapshot, k: Key, v: Value)
    requires Trusted(e)
    ensures forall s' :: Inserted(e, s, k, v, s') ==> Good(e, s')
    ensures s.tree.None? ==> MapOf(s.tree) == map[]
  {
  }

  lemma GoodTree(e: Env, s: Snapshot)
    requires Trusted(e) && Good(e, s)
    ensures s.tree.Some? ==> WellFormed(e.config, s.tree.value)
    ensures s.tree.None? <==> s.root.None?
  {
  }

  // ----- steps of a deletion

  /** The new root after a deletion below it. */
  method CollapseRoot(store: InMemoryStore, newHash: Hash, ghost u: Tree) returns (r: Result<Hash>)
    requires Trusted(store.e) && Consistent(store.e, store.data) && Held(store.e, store.data.Keys, u)
    requires newHash == HashOf(store.e, u)
    ensures r == Ok(HashOf(store.e, Collapse(u))) && Held(store.e, store.data.Keys, Collapse(u))
  {
    hide Trusted, Held, HashOf, Consistent, Entries;
    HeldBelow(store.e, store.data.Keys, u);
    LoadsNode(store.e, store.data, u);
    var node := LoadNode(store, newHash);
    match node {
      case Err(error) => return Err(error);
      case Ok(LeafNode(_, _)) => return Ok(newHash);
      case Ok(InternalNode(_, children)) =>
        KidsHeld(store.e, store.data.Keys, u);
        if |children| == 1 { return Ok(children[0].childHash); }
        return Ok(newHash);
    }
  }

  /** Deletes below the root: the new root, and whether the key was there. */
  method DeleteAtRoot(store: InMemoryStore, root: Hash, key: Key, ghost t: Tree)
    returns (r: Result<Option<Hash>>, deleted: bool)
    requires Trusted(store.e) && Consistent(store.e, store.data) && Denotes(store.e, store.data, Some(root), Some(t))
    modifies store
    ensures var t' := DeleteRoot(store.e.config, Some(t), key);
            && r == Ok(if t'.None? then None else Some(HashOf(store.e, t'.value)))
            && (t'.Some? ==> Held(store.e, store.data.Keys, t'.value))
    ensures deleted <==> Find(ItemsOf(t), key).Some?
    ensures Grew(store.e, old(store.data), store.data, 3 * Level(t) + 1)
    ensures DeleteAdds(store.e, old(store.data), store.data, t, key)
    ensures !deleted ==> store.data == old(store.data)
  {
    hide Trusted, Held, HashOf, Grew, Consistent, AllItems, Find, Enters, Without, Sorted, Body, Delete, Collapse, DeleteAdds,
      MaxKey;
    ghost var e, d0 := store.e, store.data;
    deleted := false;
    ConfigIsValid(e);
    DenotesEnters(e, d0, Some(root), Some(t));
    DeleteCorrect(e.config, t, key);
    var rootNode := LoadNode(store, root);
    match rootNode { case Err(error) => r := Err(error); return; case Ok(_) => }
    var result, wasDeleted := DeleteRecursive(store, root, key, rootNode.value.level, t);
    deleted := wasDeleted;
    GrewKeys(e, d0, store.data, 3 * Level(t) + 1);
    match result {
      case Err(error) => r := Err(error);
      case Ok(NotFound(_, _)) => r := Ok(Some(root));
      case Ok(Merged) => r := Ok(None);
      case Ok(Updated(update)) =>
        var collapsed := CollapseRoot(store, update.newHash, Delete(e.config, t, key).tree);
        match collapsed { case Err(error) => r := Err(error); return; case Ok(_) => }
        r := Ok(Some(collapsed.value));
    }
  }

  lemma DeleteDone(e: Env, s: Snapshot, k: Key, d1: Chunks)
    requires Trusted(e) && Good(e, s)
    requires Grew(e, s.data, d1, 3 * RootLevel(s.tree) + 1)
    requires s.tree.Some? && DeleteAdds(e, s.data, d1, s.tree.value, k) && (Find(ItemsOf(s.tree.value), k).None? ==> d1 == s.data)
    requires var t' := DeleteRoot(e.config, s.tree, k); t'.Some? ==> Held(e, d1.Keys, t'.value)
    ensures var t' := DeleteRoot(e.config, s.tree, k);
            var s' := Snapshot(d1, if t'.None? then None else Some(HashOf(e, t'.value)), t');
            Deleted(e, s, k, s') && Good(e, s')
    ensures k in MapOf(s.tree) <==> Find(ItemsOf(s.tree.value), k).Some?
  {
    hide Trusted, Held, AllItems, HashOf, Consistent, RefClosed, WellFormed, DeleteRoot, Find, ToMap, AddsLinked, MapOf,
      DeleteAdds, ItemsOf;
    if RefClosed(e, s.data) { GrewClosed(e, s.data, d1, 3 * RootLevel(s.tree) + 1); }
    GoodTree(e, s);
    DeleteMeaning(e, s.tree, k);
    MapHas(e.config, s.tree.value, k);
  }

  lemma MapHas(cfg: TreeConfig, t: Tree, k: Key)
    requires WellFormed(cfg, t)
    ensures k in MapOf(Some(t)) <==> Find(ItemsOf(t), k).Some?
  {
    hide Find, ToMap, Sorted;
    MapAt(ItemsOf(t), k);
  }

  // ----- the object

  class ProllyTree {
    const store: InMemoryStore
    var rootHash: Option<Hash>
    ghost var tree: Option<Tree>

    ghost function Snap(): Snapshot
      reads this, store
    {
      Snapshot(store.data, rootHash, tree)
    }

    ghost predicate Valid()
      reads this, store
    {
      Trusted(store.e) && Good(store.e, Snap())
    }

    /** The map the tree holds. */
    ghost function Contents(): map<Key, Value>
      reads this
    {
      MapOf(tree)
    }

    constructor (s: InMemoryStore)
      requires Trusted(s.e) && Consistent(s.e, s.data)
      ensures Valid() && store == s && rootHash == None && Contents() == map[]
    {
      store := s;
      rootHash := None;
      tree := None;
    }

    method Get(key: Key) returns (r: Result<Option<Value>>)
      requires Valid()
      ensures r == Ok(if key in Contents() then Some(Contents()[key]) else None)
    {
      if rootHash.None? { return Ok(None); }
      DenotesEnters(store.e, store.data, rootHash, tree);
      MapAt(ItemsOf(tree.value), key);
      r := GetRecursive(store, rootHash.value, key, tree.value);
    }

    /** The number of items, from the counters of the root alone. */
    method CountAllItems() returns (r: Result<nat>)
      requires Valid()
      ensures r == Ok(if tree.None? then 0 else |ItemsOf(tree.value)|)
    {
      if rootHash.None? { return Ok(0); }
      DenotesEnters(store.e, store.data, rootHash, tree);
      CountOfNode(store.e, tree.value);
      var rootNode := LoadNode(store, rootHash.value);
      match rootNode { case Err(error) => return Err(error); case Ok(_) => }
      var count := CountEntries(rootNode.value);
      return Ok(count);
    }

    /** Insertion is map update, and the result tells whether the map changed; or it
        fails, when a new root would be too high, and leaves the lower part of the map. */
    method Insert(key: Key, value: Value) returns (r: Result<bool>)
      requires Valid()
      modifies this, store
      ensures Valid() && Inserted(store.e, old(Snap()), key, value, Snap())
      ensures r == if Overflows(store.e.config, old(tree), key, value) then Err(ConfigError)
                   else Ok(!(key in old(Contents()) && old(Contents())[key] == value))
      ensures if r.Ok? then Contents() == old(Contents())[key := value]
              else LowerPart(old(Contents())[key := value], Contents())
    {
      hide Trusted, Held, AllItems, HashOf, Grew, Consistent, RefClosed, ReprOf, WellFormed, PutAll,
        ChunksOf, Inert, Extends, MapOf, NewTop, Overflows, Planted, AllNodeHashes, Inserted, LowerPart;
      ghost var e, d0 := store.e, store.data;
      ghost var s := Snap();
      var oldRootHash := rootHash;
      GoodTree(e, s);
      ValueStored(e, d0, rootHash, tree, value);
      InsertMeaning(e, tree, key, value);
      var valueRepr := PrepareValueRepr(store, value);
      ghost var d1 := store.data;
      var newRoot, done := InsertAtRoot(store, rootHash, key, valueRepr, tree, value);
      InsertDone(e, s, key, value, d1, store.data);
      InsertedGood(e, s, key, value);
      rootHash := newRoot;
      tree := Some(NewTop(e.config, tree, key, value));
      match done { case Err(error) => return Err(error); case Ok(_) => }
      return Ok(oldRootHash != rootHash);
    }

    /** Inserts one after the other, up to the first failure. */
    method InsertBatch(items: seq<Item>) returns (r: Result<bool>)
      requires Valid()
      modifies this, store
      ensures Valid() && tree == AfterBatch(store.e.config, old(tree), items)
      ensures r == if BatchFits(store.e.config, old(tree), items) then Ok(old(rootHash) != rootHash) else Err(ConfigError)
      ensures r.Ok? ==> Contents() == AllSet(old(Contents()), items)
    {
      hide Trusted, Good, NewTop, Overflows, Planted, LowerPart, MapOf;
      ghost var cfg, t := store.e.config, tree;
      var oldRootHash := rootHash;
      for i := 0 to |items|
        invariant Valid() && Contents() == AllSet(old(Contents()), items[..i])
        invariant AfterBatch(cfg, t, items) == AfterBatch(cfg, tree, items[i..])
        invariant BatchFits(cfg, t, items) <==> BatchFits(cfg, tree, items[i..])
      {
        assert items[..i + 1][..i] == items[..i];
        assert items[i..][1..] == items[i + 1..];
        var inserted := Insert(items[i].key, items[i].value);
        match inserted { case Err(error) => return Err(error); case Ok(_) => }
      }
      assert items[..|items|] == items;
      return Ok(oldRootHash != rootHash);
    }

    /** Deletion is map removal. The result tells whether the key was there; if it
        was not, nothing changes. */
    method Delete(key: Key) returns (r: Result<bool>)
      requires Valid()
      modifies this, store
      ensures Valid() && Deleted(store.e, old(Snap()), key, Snap())
      ensures Contents() == old(Contents()) - {key}
      ensures r == Ok(key in old(Contents()))
      ensures key !in old(Contents()) ==> rootHash == old(rootHash) && store.data == old(store.data)
    {
      hide Trusted, Held, AllItems, HashOf, Grew, RefClosed, WellFormed, Extends, DeleteRoot, Find;
      ghost var e := store.e;
      ghost var s := Snap();
      GoodTree(e, s);
      DeleteMeaning(e, tree, key);
      if rootHash.None? {
        NothingDeleted(e, s, key);
        return Ok(false);
      }
      var result, deleted := DeleteAtRoot(store, rootHash.value, key, tree.value);
      match result { case Err(error) => return Err(error); case Ok(_) => }
      DeleteDone(e, s, key, store.data);
      rootHash := result.value;
      tree := DeleteRoot(e.config, tree, key);
      return Ok(deleted);
    }

    /** Moves to another root, whose chunk must be there and decode as a node. */
    method Checkout(hash: Option<Hash>) returns (r: Result<bool>)
      requires Valid()
      modifies this
      ensures Trusted(store.e) && CheckedOut(store.e, old(Snap()), hash, Snap(), r.Ok?)
      ensures r.Ok? <==> hash.None? || (hash.value in store.data && store.e.decode(store.data[hash.value]).Some?)
      ensures rootHash == if r.Ok? then hash else old(rootHash)
      ensures hash.None? ==> Valid()
      ensures r.Ok? ==> r.value == (old(rootHash) != rootHash)
      ensures hash.Some? && hash.value !in store.data ==> r == Err(ChunkNotFound(hash.value))
    {
      hide Trusted, Held, AllItems, HashOf, WellFormed, Consistent;
      var oldRootHash := rootHash;
      match hash {
        case Some(h) =>
          StoredRootsLoad(store.e, store.data, h);
          var node := LoadNode(store, h);
          match node { case Err(error) => return Err(error); case Ok(_) => }
          rootHash := Some(h);
          tree := TreeAt(store.e, store.data, h);
        case None =>
          rootHash := None;
          tree := None;
      }
      return Ok(oldRootHash != rootHash);
    }

    /** Collects everything the given roots and the current one do not reach. */
    method CollectGarbage(liveRootHashes: seq<Hash>) returns (r: Result<nat>)
      requires Valid()
      modifies store
      ensures Valid() && r.Ok? && Collected(store.e, old(Snap()), liveRootHashes, Snap(), r.value)
      ensures Contents() == old(Contents()) && Extends(store.data, old(store.data))
      ensures forall h :: h in liveRootHashes && h in old(store.data) ==> h in store.data
      ensures r.value == |old(store.data)| - |store.data|
    {
      hide Trusted, Held, AllItems, HashOf, WellFormed, Consistent, RefClosed, LiveSet;
      ghost var s := Snap();
      var roots := if rootHash.Some? then liveRootHashes + [rootHash.value] else liveRootHashes;
      assert (set h | h in roots) == GcRoots(liveRootHashes, rootHash);
      CollectDone(store.e, s, liveRootHashes);
      KeptFacts(store.e, s.data, GcRoots(liveRootHashes, rootHash));
      r := Collect(store, roots);
    }
  }

  /** The tree after a batch of insertions, which ends with the first that overflows. */
  ghost function AfterBatch(cfg: TreeConfig, t: Option<Tree>, items: seq<Item>): Option<Tree>
    decreases |items|
  {
    if items == [] then t else
    var u := Some(NewTop(cfg, t, items[0].key, items[0].value));
    if Overflows(cfg, t, items[0].key, items[0].value) then u else AfterBatch(cfg, u, items[1..])
  }

  ghost predicate BatchFits(cfg: TreeConfig, t: Option<Tree>, items: seq<Item>)
    decreases |items|
  {
    items == [] ||
    (!Overflows(cfg, t, items[0].key, items[0].value) &&
     BatchFits(cfg, Some(NewTop(cfg, t, items[0].key, items[0].value)), items[1..]))
  }

  ghost function AllSet(m: map<Key, Value>, items: seq<Item>): map<Key, Value> {
    if items == [] then m
    else AllSet(m, items[..|items| - 1])[items[|items| - 1].key := items[|items| - 1].value]
  }

  lemma NothingDeleted(e: Env, s: Snapshot, k: Key)
    requires Trusted(e) && Good(e, s) && s.tree.None?
    ensures Deleted(e, s, k, s) && MapOf(s.tree) == map[]
  {
  }

  /** The tree that a root hash stands for in a store, if it is all there. */
  ghost function TreeAt(e: Env, data: Chunks, h: Hash): Option<Tree>
    requires Trusted(e)
  {
    if exists t :: StandsFor(e, data, h, t) then var t :| StandsFor(e, data, h, t); Some(t) else None
  }

  ghost predicate StandsFor(e: Env, data: Chunks, h: Hash, t: Tree)
    requires Trusted(e)
  {
    HashOf(e, t) == h && WellFormed(e.config, t) && Held(e, data.Keys, t)
  }

  lemma StoredRootsLoad(e: Env, data: Chunks, h: Hash)
    requires Trusted(e) && Consistent(e, data)
    ensures forall t :: StandsFor(e, data, h, t) ==> TreeAt(e, data, h) == Some(t) && h in data && e.decode(data[h]).Some?
    ensures forall t :: HashOf(e, t) == h && WellFormed(e.config, t) && Held(e, data.Keys, t) ==> StandsFor(e, data, h, t)
  {
    hide Trusted, AllItems, WellFormed;
    forall t | StandsFor(e, data, h, t)
      ensures TreeAt(e, data, h) == Some(t) && h in data && e.decode(data[h]).Some?
    {
      HeldBelow(e, data.Keys, t);
      LoadsNode(e, data, t);
      HashOfInjective(e, t, TreeAt(e, data, h).value);
    }
  }

  lemma KeptFacts(e: Env, data: Chunks, roots: set<Hash>)
    ensures var data' := Kept(data, LiveSet(e, data, roots));
            Extends(data', data) && forall h :: h in roots && h in data ==> h in data'
  {
    hide LiveSet;
    LiveSetIsLeast(e, data, roots, {});
  }

  lemma CollectDone(e: Env, s: Snapshot, live: seq<Hash>)
    requires Trusted(e) && Good(e, s)
    ensures var data' := Kept(s.data, LiveSet(e, s.data, GcRoots(live, s.root)));
            && Good(e, Snapshot(data', s.root, s.tree))
            && (RefClosed(e, s.data) ==> RefClosed(e, data'))
  {
    hide Trusted, Held, AllItems, HashOf, WellFormed, Consistent, RefClosed, LiveSet;
    CollectKeepsClosed(e, s.data, GcRoots(live, s.root));
    if s.tree.Some? { CollectKeepsTree(e, s.data, GcRoots(live, s.root), s.tree.value); }
  }
}
