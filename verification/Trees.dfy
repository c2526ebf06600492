/** The tree a root hash stands for, and its encoding in a chunk store.

    `Tree` is the mathematical tree. `NodeOf` gives the one node chunk that
    represents it faithfully: each entry of an internal node carries the largest
    key of its child, the hash of its child and the exact number of items below. */
module Trees {
  import opened Sequences
  import opened Keys
  import opened Items
  import opened Nodes
  import opened Values

  datatype Tree =
    | Leaf(items: seq<Item>)
    | Branch(level: nat, kids: seq<Tree>)

  function Level(t: Tree): nat {
    if t.Leaf? then 0 else t.level
  }

  function Size(t: Tree): nat {
    if t.Leaf? then |t.items| else |t.kids|
  }

  /** The items of a tree, in order. */
  ghost function ItemsOf(t: Tree): seq<Item>
    decreases t, 1
  {
    match t
    case Leaf(items) => items
    case Branch(_, kids) => AllItems(kids)
  }

  ghost function AllItems(kids: seq<Tree>): seq<Item>
    decreases kids, 0
  {
    if kids == [] then [] else ItemsOf(kids[0]) + AllItems(kids[1..])
  }

  ghost function Count(t: Tree): nat {
    |ItemsOf(t)|
  }

  /** The largest key of a tree (of a sorted, nonempty one). */
  ghost function MaxKey(t: Tree): Key {
    var s := ItemsOf(t);
    if s == [] then [] else s[|s| - 1].key
  }

  // ----- shape

  /** A subtree below the root: occupancy between the two fanouts. */
  ghost predicate Inner(cfg: TreeConfig, t: Tree)
    decreases t, 1
  {
    cfg.minFanout <= Size(t) <= cfg.targetFanout && Body(cfg, t)
  }

  /** A tree whose proper subtrees are all in shape, one level apart. */
  ghost predicate Body(cfg: TreeConfig, t: Tree)
    decreases t, 0
  {
    t.Branch? ==> t.level > 0 && AllInner(cfg, t.kids, t.level - 1)
  }

  ghost predicate AllInner(cfg: TreeConfig, kids: seq<Tree>, level: nat)
    decreases kids, 2
  {
    forall i :: 0 <= i < |kids| ==> Inner(cfg, kids[i]) && Level(kids[i]) == level
  }

  lemma KidsInner(cfg: TreeConfig, t: Tree)
    requires Body(cfg, t) && t.Branch?
    ensures t.level > 0 && AllInner(cfg, t.kids, t.level - 1)
    ensures forall i :: 0 <= i < |t.kids| ==> Inner(cfg, t.kids[i]) && Level(t.kids[i]) == t.level - 1
  {
    assert AllInner(cfg, t.kids, t.level - 1);
    forall i | 0 <= i < |t.kids|
      ensures Inner(cfg, t.kids[i]) && Level(t.kids[i]) == t.level - 1
    {
      KidInner(cfg, t.kids, t.level - 1, i);
    }
  }

  lemma KidInner(cfg: TreeConfig, kids: seq<Tree>, level: nat, i: nat)
    requires i < |kids| && AllInner(cfg, kids, level)
    ensures Inner(cfg, kids[i]) && Level(kids[i]) == level
  {
  }

  lemma InnerBody(cfg: TreeConfig, t: Tree)
    requires Inner(cfg, t)
    ensures Body(cfg, t) && cfg.minFanout <= Size(t) <= cfg.targetFanout
  {
  }

  lemma AllInnerJoin(cfg: TreeConfig, a: seq<Tree>, b: seq<Tree>, level: nat)
    requires AllInner(cfg, a, level) && AllInner(cfg, b, level)
    ensures AllInner(cfg, a + b, level)
  {
  }

  lemma AllInnerParts(cfg: TreeConfig, kids: seq<Tree>, level: nat, mid: nat)
    requires mid <= |kids| && AllInner(cfg, kids, level)
    ensures AllInner(cfg, kids[..mid], level) && AllInner(cfg, kids[mid..], level)
  {
    forall i | 0 <= i < |kids| - mid
      ensures Inner(cfg, kids[mid..][i]) && Level(kids[mid..][i]) == level
    {
      assert kids[mid..][i] == kids[mid + i];
    }
  }

  lemma AllInnerOne(cfg: TreeConfig, t: Tree, level: nat)
    requires Inner(cfg, t) && Level(t) == level
    ensures AllInner(cfg, [t], level)
  {
  }

  lemma BranchBody(cfg: TreeConfig, level: nat, kids: seq<Tree>)
    requires level > 0 && AllInner(cfg, kids, level - 1)
    ensures Body(cfg, Branch(level, kids))
  {
  }

  /** Leaves are exactly the trees of level zero. */
  lemma KindOfLevel(cfg: TreeConfig, t: Tree)
    requires Body(cfg, t)
    ensures t.Leaf? <==> Level(t) == 0
  {
  }

  /** A whole tree: a root has at least one entry, and with a minimum above one
      an internal root has at least two. */
  ghost predicate RootShape(cfg: TreeConfig, t: Tree) {
    && Body(cfg, t)
    && 1 <= Size(t) <= cfg.targetFanout
    && (t.Branch? && cfg.minFanout > 1 ==> Size(t) > 1)
  }

  ghost predicate WellFormed(cfg: TreeConfig, t: Tree) {
    RootShape(cfg, t) && Sorted(ItemsOf(t))
  }

  lemma WellFormedSorted(cfg: TreeConfig, t: Tree)
    requires WellFormed(cfg, t)
    ensures Sorted(ItemsOf(t))
  {
  }

  // ----- items of sequences of trees

  lemma {:induction false} AllItemsAppend(a: seq<Tree>, b: seq<Tree>)
    ensures AllItems(a + b) == AllItems(a) + AllItems(b)
    decreases |a|
  {
    hide ItemsOf;
    if a == [] {
      assert a + b == b;
      assert AllItems(a) == [];
    } else {
      AllItemsAppend(a[1..], b);
      AllItemsHead(a);
      AllItemsHead(a + b);
      HeadOfAppend(a, b);
      Associative(ItemsOf(a[0]), AllItems(a[1..]), AllItems(b));
    }
  }

  lemma AllItemsHead(a: seq<Tree>)
    requires a != []
    ensures AllItems(a) == ItemsOf(a[0]) + AllItems(a[1..])
  {
  }

  lemma AllItemsOne(t: Tree)
    ensures AllItems([t]) == ItemsOf(t)
  {
    assert AllItems([t][1..]) == [];
  }

  lemma AllItemsNone()
    ensures AllItems([]) == []
  {
  }

  lemma AllItemsTwo(t: Tree, u: Tree)
    ensures AllItems([t, u]) == ItemsOf(t) + ItemsOf(u)
  {
    AllItemsAppend([t], [u]);
    AllItemsOne(t);
    AllItemsOne(u);
    assert [t] + [u] == [t, u];
  }

  lemma AllItemsThree(a: seq<Tree>, m: seq<Tree>, c: seq<Tree>)
    ensures AllItems(a + m + c) == AllItems(a) + AllItems(m) + AllItems(c)
  {
    AllItemsAppend(a + m, c);
    AllItemsAppend(a, m);
  }

  lemma AllItemsRegroup(a: seq<Tree>, m: seq<Tree>, c: seq<Tree>)
    ensures AllItems(a) + AllItems(m + c) == AllItems(a + m) + AllItems(c)
  {
    AllItemsAppend(m, c);
    AllItemsAppend(a, m);
    Associative(AllItems(a), AllItems(m), AllItems(c));
  }

  lemma AllItemsAround(a: seq<Tree>, t: Tree, c: seq<Tree>)
    ensures AllItems(a + [t] + c) == AllItems(a) + ItemsOf(t) + AllItems(c)
    ensures c == [] ==> AllItems(a + [t] + c) == AllItems(a) + ItemsOf(t)
  {
    AllItemsThree(a, [t], c);
    AllItemsOne(t);
  }

  /** Every subtree in shape holds at least one item. */
  lemma {:induction false} InnerNonEmpty(cfg: TreeConfig, t: Tree)
    requires cfg.Valid() && Body(cfg, t) && Size(t) > 0
    ensures Count(t) > 0
    decreases t
  {
    if t.Branch? {
      KidsInner(cfg, t);
      InnerBody(cfg, t.kids[0]);
      InnerNonEmpty(cfg, t.kids[0]);
      AllItemsHead(t.kids);
    }
  }

  /** The largest key of a branch is the one of its last child. */
  lemma MaxKeyOfLast(cfg: TreeConfig, kids: seq<Tree>, level: nat)
    requires cfg.Valid() && kids != [] && AllInner(cfg, kids, level)
    ensures AllItems(kids) != []
    ensures MaxKey(kids[|kids| - 1]) == AllItems(kids)[|AllItems(kids)| - 1].key
  {
    hide AllItems, ItemsOf;
    var n := |kids| - 1;
    assert kids == kids[..n] + [kids[n]] + [];
    AllItemsAround(kids[..n], kids[n], []);
    KidInner(cfg, kids, level, n);
    InnerBody(cfg, kids[n]);
    InnerNonEmpty(cfg, kids[n]);
  }

  lemma MaxKeyOfBranch(cfg: TreeConfig, t: Tree)
    requires cfg.Valid() && t.Branch? && t.kids != [] && Body(cfg, t)
    ensures MaxKey(t) == MaxKey(t.kids[|t.kids| - 1])
  {
    KidsInner(cfg, t);
    MaxKeyOfLast(cfg, t.kids, t.level - 1);
  }

  /** A branch over two leaves is a whole tree. */
  lemma TwoLeaves(cfg: TreeConfig, s: seq<Item>, r: seq<Item>)
    requires cfg.minFanout <= |s| <= cfg.targetFanout && cfg.minFanout <= |r| <= cfg.targetFanout && Sorted(s + r)
    requires cfg.targetFanout > 1
    ensures var t := Branch(1, [Leaf(s), Leaf(r)]); WellFormed(cfg, t) && ItemsOf(t) == s + r
  {
    hide AllItems, Sorted;
    AllItemsTwo(Leaf(s), Leaf(r));
    AllInnerOne(cfg, Leaf(s), 0);
    AllInnerOne(cfg, Leaf(r), 0);
    AllInnerJoin(cfg, [Leaf(s)], [Leaf(r)], 0);
    assert [Leaf(s)] + [Leaf(r)] == [Leaf(s), Leaf(r)];
    BranchBody(cfg, 1, [Leaf(s), Leaf(r)]);
  }

  // ----- encoding

  ghost function LeafEntries(e: Env, items: seq<Item>): (es: seq<LeafEntry>)
    requires Trusted(e)
    ensures |es| == |items|
    ensures forall i :: 0 <= i < |items| ==> es[i] == LeafEntry(items[i].key, ReprOf(e, items[i].value))
  {
    seq(|items|, i requires 0 <= i < |items| => LeafEntry(items[i].key, ReprOf(e, items[i].value)))
  }

  ghost function NodeOf(e: Env, t: Tree): Node
    requires Trusted(e)
    decreases t, 1
  {
    match t
    case Leaf(items) => LeafNode(0, LeafEntries(e, items))
    case Branch(level, kids) => InternalNode(level, Entries(e, kids))
  }

  ghost function HashOf(e: Env, t: Tree): Hash
    requires Trusted(e)
    decreases t, 2
  {
    e.hash(e.encode(NodeOf(e, t)))
  }

  ghost function EntryOf(e: Env, t: Tree): InternalEntry
    requires Trusted(e)
    decreases t, 3
  {
    InternalEntry(MaxKey(t), HashOf(e, t), Count(t))
  }

  ghost function Entries(e: Env, kids: seq<Tree>): (es: seq<InternalEntry>)
    requires Trusted(e)
    ensures |es| == |kids|
    ensures forall i :: 0 <= i < |kids| ==> es[i] == EntryOf(e, kids[i])
    decreases kids, 0
  {
    seq(|kids|, i requires 0 <= i < |kids| => EntryOf(e, kids[i]))
  }

  /** A hash stands for at most one tree. */
  lemma {:induction false} HashOfInjective(e: Env, t: Tree, u: Tree)
    requires Trusted(e) && HashOf(e, t) == HashOf(e, u)
    ensures t == u
    decreases t
  {
    var n, m := NodeOf(e, t), NodeOf(e, u);
    HashInjective(e, e.encode(n), e.encode(m));
    assert e.decode(e.encode(n)) == Some(n) && e.decode(e.encode(m)) == Some(m);
    assert n == m;
    if t.Leaf? {
      LeafEntriesInjective(e, t.items, u.items);
    } else {
      assert |t.kids| == |Entries(e, t.kids)| == |u.kids|;
      forall i | 0 <= i < |t.kids|
        ensures t.kids[i] == u.kids[i]
      {
        assert Entries(e, t.kids)[i] == Entries(e, u.kids)[i];
        HashOfInjective(e, t.kids[i], u.kids[i]);
      }
      assert t.kids == u.kids;
    }
  }

  lemma LeafEntriesInjective(e: Env, s: seq<Item>, r: seq<Item>)
    requires Trusted(e) && LeafEntries(e, s) == LeafEntries(e, r)
    ensures s == r
  {
    assert |s| == |LeafEntries(e, s)| == |r|;
    forall i | 0 <= i < |s|
      ensures s[i] == r[i]
    {
      assert LeafEntries(e, s)[i] == LeafEntries(e, r)[i];
      ReprInjective(e, s[i].value, r[i].value);
    }
  }

  // ----- the nodes of a tree

  /** The hashes of the nodes of a tree. */
  ghost function NodeHashes(e: Env, t: Tree): set<Hash>
    requires Trusted(e)
    decreases t, 3
  {
    {HashOf(e, t)} + if t.Leaf? then {} else AllNodeHashes(e, t.kids)
  }

  ghost function AllNodeHashes(e: Env, ts: seq<Tree>): set<Hash>
    requires Trusted(e)
    decreases ts, 0
  {
    if ts == [] then {} else NodeHashes(e, ts[0]) + AllNodeHashes(e, ts[1..])
  }

  lemma {:induction false} AllNodeHashesAppend(e: Env, a: seq<Tree>, b: seq<Tree>)
    requires Trusted(e)
    ensures AllNodeHashes(e, a + b) == AllNodeHashes(e, a) + AllNodeHashes(e, b)
    decreases |a|
  {
    hide Trusted, NodeHashes;
    if a == [] {
      assert a + b == b;
    } else {
      AllNodeHashesAppend(e, a[1..], b);
      assert (a + b)[1..] == a[1..] + b;
    }
  }

  lemma AllNodeHashesOne(e: Env, t: Tree)
    requires Trusted(e)
    ensures AllNodeHashes(e, [t]) == NodeHashes(e, t)
  {
    hide Trusted, NodeHashes;
    assert [t][1..] == [];
  }

  lemma AllNodeHashesTwo(e: Env, t: Tree, u: Tree)
    requires Trusted(e)
    ensures AllNodeHashes(e, [t, u]) == NodeHashes(e, t) + NodeHashes(e, u)
  {
    hide Trusted, NodeHashes, AllNodeHashes;
    AllNodeHashesAppend(e, [t], [u]);
    AllNodeHashesOne(e, t);
    AllNodeHashesOne(e, u);
    assert [t] + [u] == [t, u];
  }

  // ----- presence in a store

  ghost predicate ItemsHeld(e: Env, keys: set<Hash>, items: seq<Item>)
    requires Trusted(e)
  {
    forall i :: 0 <= i < |items| ==> ValueHeld(e, keys, items[i].value)
  }

  /** The whole tree is in the store: its nodes and its value chunks. */
  ghost predicate Held(e: Env, keys: set<Hash>, t: Tree)
    requires Trusted(e)
    decreases t, 1
  {
    HashOf(e, t) in keys && BelowHeld(e, keys, t)
  }

  ghost predicate BelowHeld(e: Env, keys: set<Hash>, t: Tree)
    requires Trusted(e)
    decreases t, 0
  {
    match t
    case Leaf(items) => ItemsHeld(e, keys, items)
    case Branch(_, kids) => AllHeld(e, keys, kids)
  }

  ghost predicate AllHeld(e: Env, keys: set<Hash>, kids: seq<Tree>)
    requires Trusted(e)
    decreases kids, 2
  {
    forall i :: 0 <= i < |kids| ==> Held(e, keys, kids[i])
  }

  lemma {:induction false} HeldGrows(e: Env, keys: set<Hash>, keys': set<Hash>, t: Tree)
    requires Trusted(e) && Held(e, keys, t) && keys <= keys'
    ensures Held(e, keys', t)
    decreases t, 1
  {
    if t.Branch? { AllHeldGrows(e, keys, keys', t.kids); }
  }

  lemma {:induction false} AllHeldGrows(e: Env, keys: set<Hash>, keys': set<Hash>, kids: seq<Tree>)
    requires Trusted(e) && AllHeld(e, keys, kids) && keys <= keys'
    ensures AllHeld(e, keys', kids)
    decreases kids, 0
  {
    forall i | 0 <= i < |kids|
      ensures Held(e, keys', kids[i])
    {
      HeldGrows(e, keys, keys', kids[i]);
    }
  }

  /** The nodes of a held tree are in the store. */
  lemma {:induction false} NodesHeld(e: Env, keys: set<Hash>, t: Tree)
    requires Trusted(e) && Held(e, keys, t)
    ensures NodeHashes(e, t) <= keys
    decreases t, 1
  {
    hide Trusted, HashOf;
    if t.Branch? { AllNodesHeld(e, keys, t.kids); }
  }

  lemma {:induction false} AllNodesHeld(e: Env, keys: set<Hash>, ts: seq<Tree>)
    requires Trusted(e) && AllHeld(e, keys, ts)
    ensures AllNodeHashes(e, ts) <= keys
    decreases ts, 0
  {
    hide Trusted, Held, NodeHashes;
    if ts != [] {
      NodesHeld(e, keys, ts[0]);
      AllNodesHeld(e, keys, ts[1..]);
    }
  }

  /** With its root, so are those of a tree whose parts are there. */
  lemma BelowNodesHeld(e: Env, keys: set<Hash>, t: Tree)
    requires Trusted(e) && BelowHeld(e, keys, t)
    ensures NodeHashes(e, t) <= keys + {HashOf(e, t)}
  {
    hide Trusted, HashOf, AllNodeHashes, AllHeld;
    if t.Branch? { AllNodesHeld(e, keys, t.kids); }
  }

  lemma HeldBelow(e: Env, keys: set<Hash>, t: Tree)
    requires Trusted(e) && Held(e, keys, t)
    ensures BelowHeld(e, keys, t) && HashOf(e, t) in keys
  {
  }

  lemma HeldIf(e: Env, keys: set<Hash>, t: Tree)
    requires Trusted(e) && HashOf(e, t) in keys
    requires match t case Leaf(items) => ItemsHeld(e, keys, items) case Branch(_, kids) => AllHeld(e, keys, kids)
    ensures Held(e, keys, t)
  {
  }

  lemma KidsHeld(e: Env, keys: set<Hash>, t: Tree)
    requires Trusted(e) && BelowHeld(e, keys, t) && t.Branch?
    ensures AllHeld(e, keys, t.kids)
    ensures forall i :: 0 <= i < |t.kids| ==> Held(e, keys, t.kids[i])
  {
  }

  lemma LeafHeld(e: Env, keys: set<Hash>, t: Tree)
    requires Trusted(e) && BelowHeld(e, keys, t) && t.Leaf?
    ensures ItemsHeld(e, keys, t.items)
  {
  }

  lemma BelowHeldGrows(e: Env, keys: set<Hash>, keys': set<Hash>, t: Tree)
    requires Trusted(e) && BelowHeld(e, keys, t) && keys <= keys'
    ensures BelowHeld(e, keys', t)
  {
    if t.Branch? { AllHeldGrows(e, keys, keys', t.kids); }
  }

  /** A held tree's root chunk decodes to its node. */
  lemma LoadsNode(e: Env, data: Chunks, t: Tree)
    requires Trusted(e) && Consistent(e, data) && HashOf(e, t) in data
    ensures data[HashOf(e, t)] == e.encode(NodeOf(e, t))
    ensures e.decode(data[HashOf(e, t)]) == Some(NodeOf(e, t))
  {
    HashInjective(e, data[HashOf(e, t)], e.encode(NodeOf(e, t)));
  }

  ghost predicate RootsIn(e: Env, keys: set<Hash>, kids: seq<Tree>)
    requires Trusted(e)
  {
    forall i :: 0 <= i < |kids| ==> HashOf(e, kids[i]) in keys
  }

  /** What a node refers to is exactly what its tree needs below the root. */
  lemma RefsHeld(e: Env, keys: set<Hash>, t: Tree)
    requires Trusted(e)
    ensures Refs(NodeOf(e, t)) <= keys <==>
              match t
              case Leaf(items) => ItemsHeld(e, keys, items)
              case Branch(_, kids) => RootsIn(e, keys, kids)
  {
    match t
    case Leaf(items) => LeafRefs(e, keys, items);
    case Branch(level, kids) => BranchRefs(e, keys, level, kids);
  }

  lemma BranchRefs(e: Env, keys: set<Hash>, level: nat, kids: seq<Tree>)
    requires Trusted(e)
    ensures Refs(InternalNode(level, Entries(e, kids))) <= keys <==> RootsIn(e, keys, kids)
  {
    var es := Entries(e, kids);
    var refs := Refs(InternalNode(level, es));
    if refs <= keys {
      forall i | 0 <= i < |kids|
        ensures HashOf(e, kids[i]) in keys
      {
        assert es[i] in es && es[i].childHash == HashOf(e, kids[i]);
        assert HashOf(e, kids[i]) in refs;
      }
    }
    if RootsIn(e, keys, kids) {
      forall h | h in refs
        ensures h in keys
      {
        var c :| c in es && c.childHash == h;
        var i :| 0 <= i < |es| && es[i] == c;
        assert h == HashOf(e, kids[i]);
      }
    }
  }

  lemma LeafRefs(e: Env, keys: set<Hash>, items: seq<Item>)
    requires Trusted(e)
    ensures Refs(LeafNode(0, LeafEntries(e, items))) <= keys <==> ItemsHeld(e, keys, items)
  {
    var es := LeafEntries(e, items);
    var refs := Refs(LeafNode(0, es));
    if refs <= keys {
      forall i, c | 0 <= i < |items| && c in ChunksOf(e, items[i].value)
        ensures e.hash(c) in keys
      {
        RefsOfRepr(e, items[i].value);
        var j :| 0 <= j < |ChunksOf(e, items[i].value)| && ChunksOf(e, items[i].value)[j] == c;
        assert Hashes(e, ChunksOf(e, items[i].value))[j] == e.hash(c);
        assert es[i] in es && e.hash(c) in ReprRefs(es[i].value);
        assert e.hash(c) in refs;
      }
    }
    if ItemsHeld(e, keys, items) {
      forall h | h in refs
        ensures h in keys
      {
        var x :| x in es && h in ReprRefs(x.value);
        var i :| 0 <= i < |es| && es[i] == x;
        RefsOfRepr(e, items[i].value);
        var j :| 0 <= j < |ReprRefs(x.value)| && ReprRefs(x.value)[j] == h;
        assert ChunksOf(e, items[i].value)[j] in ChunksOf(e, items[i].value);
        assert ValueHeld(e, keys, items[i].value);
      }
    }
  }

  /** In a store closed under references a root chunk brings its whole tree. */
  lemma {:induction false} RootBringsTree(e: Env, data: Chunks, t: Tree)
    requires Trusted(e) && Consistent(e, data) && RefClosed(e, data)
    requires HashOf(e, t) in data
    ensures Held(e, data.Keys, t)
    decreases t
  {
    LoadsNode(e, data, t);
    RefsHeld(e, data.Keys, t);
    assert Refs(NodeOf(e, t)) <= data.Keys;
    if t.Branch? {
      forall i | 0 <= i < |t.kids|
        ensures Held(e, data.Keys, t.kids[i])
      {
        RootBringsTree(e, data, t.kids[i]);
      }
    }
  }

  /** A held tree has the chunks of every value in it. */
  lemma {:induction false} HeldItems(e: Env, keys: set<Hash>, t: Tree)
    requires Trusted(e) && Held(e, keys, t)
    ensures ItemsHeld(e, keys, ItemsOf(t))
    decreases t, 1
  {
    hide HashOf, ItemsHeld;
    HeldBelow(e, keys, t);
    if t.Leaf? {
      LeafHeld(e, keys, t);
    } else {
      KidsHeld(e, keys, t);
      AllHeldItems(e, keys, t.kids);
    }
  }

  lemma {:induction false} AllHeldItems(e: Env, keys: set<Hash>, kids: seq<Tree>)
    requires Trusted(e) && AllHeld(e, keys, kids)
    ensures ItemsHeld(e, keys, AllItems(kids))
    decreases kids, 0
  {
    hide Held, ItemsOf, ValueHeld, Trusted;
    if kids != [] {
      HeldItems(e, keys, kids[0]);
      AllHeldItems(e, keys, kids[1..]);
      AllItemsHead(kids);
    }
  }

  // ----- reading a tree back

  /** Reads everything below a hash out of a store, `depth` levels deep: the
      items in order, or None as soon as a chunk is missing or is not a node. */
  ghost function ReadBack(e: Env, data: Chunks, h: Hash, depth: nat): Option<seq<Item>>
    decreases depth, 1, 0
  {
    if h !in data then None
    else match e.decode(data[h])
      case None => None
      case Some(LeafNode(_, entries)) => ReadEntries(data, entries)
      case Some(InternalNode(_, children)) => if depth == 0 then None else ReadChildren(e, data, children, depth - 1)
  }

  ghost function ReadEntries(data: Chunks, entries: seq<LeafEntry>): Option<seq<Item>> {
    if entries == [] then Some([]) else
    match (LoadValue(data, entries[0].value), ReadEntries(data, entries[1..]))
    case (Some(v), Some(rest)) => Some([Item(entries[0].key, v)] + rest)
    case _ => None
  }

  ghost function ReadChildren(e: Env, data: Chunks, children: seq<InternalEntry>, depth: nat): Option<seq<Item>>
    decreases depth, 2, |children|
  {
    if children == [] then Some([]) else
    match (ReadBack(e, data, children[0].childHash, depth), ReadChildren(e, data, children[1..], depth))
    case (Some(s), Some(rest)) => Some(s + rest)
    case _ => None
  }

  /** A held tree reads back as exactly its items. */
  lemma {:induction false} ReadsBack(e: Env, data: Chunks, cfg: TreeConfig, t: Tree, depth: nat)
    requires Trusted(e) && Consistent(e, data) && Held(e, data.Keys, t)
    requires Body(cfg, t) && Level(t) <= depth
    ensures ReadBack(e, data, HashOf(e, t), depth) == Some(ItemsOf(t))
    decreases t, 1
  {
    LoadsNode(e, data, t);
    if t.Leaf? {
      ReadsEntries(e, data, t.items);
    } else {
      ReadsChildren(e, data, cfg, t.kids, t.level - 1, depth - 1);
    }
  }

  lemma {:induction false} ReadsEntries(e: Env, data: Chunks, items: seq<Item>)
    requires Trusted(e) && Consistent(e, data) && ItemsHeld(e, data.Keys, items)
    ensures ReadEntries(data, LeafEntries(e, items)) == Some(items)
    decreases items
  {
    if items != [] {
      assert LeafEntries(e, items)[1..] == LeafEntries(e, items[1..]);
      forall i | 0 <= i < |items[1..]|
        ensures ValueHeld(e, data.Keys, items[1..][i].value)
      {
        assert items[1..][i] == items[i + 1];
      }
      ReadsEntries(e, data, items[1..]);
      ValueRoundTrip(e, data, items[0].value);
      assert LeafEntries(e, items)[0] == LeafEntry(items[0].key, ReprOf(e, items[0].value));
      assert [Item(items[0].key, items[0].value)] + items[1..] == items;
    }
  }

  lemma {:induction false} ReadsChildren(e: Env, data: Chunks, cfg: TreeConfig, kids: seq<Tree>, level: nat, depth: nat)
    requires Trusted(e) && Consistent(e, data) && AllHeld(e, data.Keys, kids)
    requires AllInner(cfg, kids, level) && level <= depth
    ensures ReadChildren(e, data, Entries(e, kids), depth) == Some(AllItems(kids))
    decreases kids, 0
  {
    if kids != [] {
      assert Entries(e, kids)[1..] == Entries(e, kids[1..]);
      assert Entries(e, kids)[0] == EntryOf(e, kids[0]);
      assert Inner(cfg, kids[0]);
      ReadsBack(e, data, cfg, kids[0], depth);
      assert AllInner(cfg, kids[1..], level);
      assert AllHeld(e, data.Keys, kids[1..]);
      ReadsChildren(e, data, cfg, kids[1..], level, depth);
    }
  }

  /** A stored node with a missing reference reads back as nothing, at any depth. */
  lemma DanglingReadsNothing(e: Env, data: Chunks, h: Hash, n: Node, g: Hash, depth: nat)
    requires h in data && e.decode(data[h]) == Some(n) && g in Refs(n) && g !in data
    ensures ReadBack(e, data, h, depth) == None
  {
    match n {
      case LeafNode(_, entries) =>
        var x :| x in entries && g in ReprRefs(x.value);
        EntryReadsNothing(data, entries, x, g);
      case InternalNode(_, children) =>
        var c :| c in children && c.childHash == g;
        if depth > 0 { ChildReadsNothing(e, data, children, c, depth - 1); }
    }
  }

  lemma {:induction false} EntryReadsNothing(data: Chunks, entries: seq<LeafEntry>, x: LeafEntry, g: Hash)
    requires x in entries && g in ReprRefs(x.value) && g !in data
    ensures ReadEntries(data, entries) == None
    decreases |entries|
  {
    hide LoadValue;
    if entries[0] == x {
      RefMissing(data, x.value, g);
    } else {
      EntryReadsNothing(data, entries[1..], x, g);
    }
  }

  lemma RefMissing(data: Chunks, r: ValueRepr, g: Hash)
    requires g in ReprRefs(r) && g !in data
    ensures LoadValue(data, r) == None
  {
    if r.ChunkedSequence? { HashMissing(data, r.chunkHashes, g); }
  }

  lemma {:induction false} HashMissing(data: Chunks, hs: seq<Hash>, g: Hash)
    requires g in hs && g !in data
    ensures LoadAll(data, hs) == None
    decreases |hs|
  {
    if hs[0] != g { HashMissing(data, hs[1..], g); }
  }

  lemma {:induction false} ChildReadsNothing(e: Env, data: Chunks, children: seq<InternalEntry>, c: InternalEntry, depth: nat)
    requires c in children && c.childHash !in data
    ensures ReadChildren(e, data, children, depth) == None
    decreases |children|
  {
    if children[0] != c { ChildReadsNothing(e, data, children[1..], c, depth); }
  }
}
