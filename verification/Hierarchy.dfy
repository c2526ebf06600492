/** The hierarchy scan: an explicit-stack walk that lists nodes and their entries. */
module Hierarchy {
  import opened Sequences
  import opened Keys
  import opened Items
  import opened Nodes
  import opened Values
  import opened Trees
  import opened Store
  import opened CoreLogic
  import opened Trails
  import opened Prolly

  datatype HierarchyItem =
    | NodeItem(hash: Hash, level: nat, isLeaf: bool, numEntries: nat, pathIndices: seq<nat>)
    | InternalEntryItem(parentHash: Hash, entryIndex: nat, boundaryKey: Key, childHash: Hash, numItemsSubtree: nat)
    | LeafEntryItem(parentHash: Hash, entryIndex: nat, key: Key, valueReprType: string,
                    valueHash: Option<Hash>, valueSize: nat)

  // ----- the recursive preorder

  ghost function ReprType(r: ValueRepr): string {
    match r
    case Inline(_) => "Inline"
    case Chunked(_) => "Chunked"
    case ChunkedSequence(_, _) => "ChunkedSequence"
  }

  /** The hash an entry shows: of the chunk, or of the first chunk. */
  ghost function ReprHash(r: ValueRepr): Option<Hash> {
    if ReprRefs(r) == [] then None else Some(ReprRefs(r)[0])
  }

  /** Entry `i` of a node; a leaf entry shows the exact length of its value. */
  ghost function EntryItem(e: Env, t: Tree, i: nat): HierarchyItem
    requires Trusted(e) && i < Size(t)
  {
    match t
    case Leaf(s) =>
      var repr := ReprOf(e, s[i].value);
      LeafEntryItem(HashOf(e, t), i, s[i].key, ReprType(repr), ReprHash(repr), |s[i].value|)
    case Branch(_, kids) =>
      InternalEntryItem(HashOf(e, t), i, MaxKey(kids[i]), HashOf(e, kids[i]), Count(kids[i]))
  }

  ghost function EntryItems(e: Env, t: Tree): (items: seq<HierarchyItem>)
    requires Trusted(e)
    ensures |items| == Size(t)
    ensures forall i :: 0 <= i < Size(t) ==> items[i] == EntryItem(e, t, i)
  {
    seq(Size(t), i requires 0 <= i < Size(t) => EntryItem(e, t, i))
  }

  ghost function NodeItemOf(e: Env, t: Tree, path: seq<nat>): HierarchyItem
    requires Trusted(e)
  {
    NodeItem(HashOf(e, t), Level(t), t.Leaf?, Size(t), path)
  }

  /** A node, its entries, then the subtrees of its children, left to right, down to
      the given depth. */
  ghost function Preorder(e: Env, t: Tree, depth: nat, maxDepth: Option<nat>, path: seq<nat>): seq<HierarchyItem>
    requires Trusted(e)
    decreases t, 1
  {
    if maxDepth.Some? && depth > maxDepth.value then []
    else [NodeItemOf(e, t, path)] + EntryItems(e, t)
         + (if t.Branch? && (maxDepth.None? || depth < maxDepth.value)
            then ChildrenPreorder(e, t.kids, 0, depth + 1, maxDepth, path) else [])
  }

  ghost function ChildrenPreorder(e: Env, kids: seq<Tree>, i: nat, depth: nat, maxDepth: Option<nat>,
                                  path: seq<nat>): seq<HierarchyItem>
    requires Trusted(e)
    decreases kids, 0
  {
    if kids == [] then []
    else Preorder(e, kids[0], depth, maxDepth, path + [i]) + ChildrenPreorder(e, kids[1..], i + 1, depth, maxDepth, path)
  }

  // ----- what the listing shows

  /** The subtree that a path of child indices leads to. */
  ghost function Follow(t: Tree, path: seq<nat>): Option<Tree>
    decreases |path|
  {
    if path == [] then Some(t)
    else if t.Leaf? || path[0] >= |t.kids| then None
    else Follow(t.kids[path[0]], path[1..])
  }

  ghost predicate WithinDepth(depth: nat, maxDepth: Option<nat>, path: seq<nat>) {
    maxDepth.Some? ==> depth + |path| <= maxDepth.value
  }

  /** Every listed node is the one its path leads to from the root. */
  lemma {:induction false} ListedNodesLead(e: Env, t: Tree, depth: nat, maxDepth: Option<nat>, path: seq<nat>,
                                           x: HierarchyItem)
    returns (down: seq<nat>)
    requires Trusted(e) && x in Preorder(e, t, depth, maxDepth, path) && x.NodeItem?
    ensures x.pathIndices == path + down && WithinDepth(depth, maxDepth, down)
    ensures Follow(t, down).Some? && x == NodeItemOf(e, Follow(t, down).value, path + down)
    decreases t, 1
  {
    hide NodeItemOf, Trusted, ChildrenPreorder;
    if x == NodeItemOf(e, t, path) {
      down := [];
      ItemPath(e, t, path);
    } else {
      NotAnEntry(e, t, x);
      down := ListedBelow(e, t.kids, 0, depth + 1, maxDepth, path, x);
      Descended(t, down);
      ItemPath(e, Follow(t, down).value, path + down);
    }
  }

  lemma ItemPath(e: Env, t: Tree, path: seq<nat>)
    requires Trusted(e)
    ensures NodeItemOf(e, t, path).pathIndices == path && path + [] == path
  {
  }

  lemma NotAnEntry(e: Env, t: Tree, x: HierarchyItem)
    requires Trusted(e) && x.NodeItem?
    ensures x !in EntryItems(e, t)
  {
    hide Trusted;
  }

  lemma Descended(t: Tree, down: seq<nat>)
    requires t.Branch? && down != [] && down[0] < |t.kids|
    ensures Follow(t, down) == Follow(t.kids[down[0]], down[1..])
  {
  }

  lemma {:induction false} ListedBelow(e: Env, kids: seq<Tree>, i: nat, depth: nat, maxDepth: Option<nat>,
                                       path: seq<nat>, x: HierarchyItem)
    returns (down: seq<nat>)
    requires Trusted(e) && x in ChildrenPreorder(e, kids, i, depth, maxDepth, path) && x.NodeItem?
    ensures depth > 0 ==> WithinDepth(depth - 1, maxDepth, down)
    ensures down != [] && i <= down[0] < i + |kids|
    ensures Follow(kids[down[0] - i], down[1..]).Some?
    ensures x == NodeItemOf(e, Follow(kids[down[0] - i], down[1..]).value, path + down)
    decreases kids, 0
  {
    hide NodeItemOf, Trusted, Preorder, Follow;
    if x in Preorder(e, kids[0], depth, maxDepth, path + [i]) {
      down := ListedNodesLead(e, kids[0], depth, maxDepth, path + [i], x);
      down := [i] + down;
      assert path + [i] + down[1..] == path + down;
    } else {
      down := ListedBelow(e, kids[1..], i + 1, depth, maxDepth, path, x);
    }
  }

  /** Every node within the depth is listed, under the path that leads to it. */
  lemma {:induction false} NodesAreListed(e: Env, t: Tree, depth: nat, maxDepth: Option<nat>, path: seq<nat>,
                                          down: seq<nat>)
    requires Trusted(e) && Follow(t, down).Some? && WithinDepth(depth, maxDepth, down)
    ensures NodeItemOf(e, Follow(t, down).value, path + down) in Preorder(e, t, depth, maxDepth, path)
    decreases t, 1
  {
    hide NodeItemOf, Trusted, ChildrenPreorder, EntryItems;
    if down == [] {
      ItemPath(e, t, path);
    } else {
      NodesBelowListed(e, t.kids, 0, depth + 1, maxDepth, path, down);
    }
  }

  lemma {:induction false} NodesBelowListed(e: Env, kids: seq<Tree>, i: nat, depth: nat, maxDepth: Option<nat>,
                                            path: seq<nat>, down: seq<nat>)
    requires Trusted(e) && depth > 0 && down != [] && i <= down[0] < i + |kids| && WithinDepth(depth - 1, maxDepth, down)
    requires Follow(kids[down[0] - i], down[1..]).Some?
    ensures var listed := NodeItemOf(e, Follow(kids[down[0] - i], down[1..]).value, path + down);
            listed in ChildrenPreorder(e, kids, i, depth, maxDepth, path)
    decreases kids, 0
  {
    hide NodeItemOf, Trusted, Preorder, Follow;
    if down[0] == i {
      NodesAreListed(e, kids[0], depth, maxDepth, path + [i], down[1..]);
      assert path + [i] + down[1..] == path + down;
    } else {
      NodesBelowListed(e, kids[1..], i + 1, depth, maxDepth, path, down);
    }
  }

  /** What a leaf entry item shows of an item. */
  datatype Shown = Shown(key: Key, valueReprType: string, valueHash: Option<Hash>, valueSize: nat)

  ghost function ShownEntry(x: HierarchyItem): seq<Shown> {
    if x.LeafEntryItem? then [Shown(x.key, x.valueReprType, x.valueHash, x.valueSize)] else []
  }

  /** What the listed leaf entries show. */
  ghost function ShownIn(items: seq<HierarchyItem>): seq<Shown> {
    if items == [] then [] else ShownEntry(items[0]) + ShownIn(items[1..])
  }

  /** What should be shown of each item: its key, the kind and hash of its value's
      representation, and the exact length of its value. */
  ghost function ShownOf(e: Env, items: seq<Item>): (shown: seq<Shown>)
    requires Trusted(e)
    ensures |shown| == |items|
    ensures forall i :: 0 <= i < |items| ==> shown[i] == ShownItem(e, items[i])
  {
    seq(|items|, i requires 0 <= i < |items| => ShownItem(e, items[i]))
  }

  ghost function ShownItem(e: Env, x: Item): Shown
    requires Trusted(e)
  {
    Shown(x.key, ReprType(ReprOf(e, x.value)), ReprHash(ReprOf(e, x.value)), |x.value|)
  }

  lemma {:induction false} ShownInTwo(a: seq<HierarchyItem>, b: seq<HierarchyItem>)
    ensures ShownIn(a + b) == ShownIn(a) + ShownIn(b)
    decreases |a|
  {
    hide ShownEntry;
    if a == [] {
      assert a + b == b;
    } else {
      ShownInTwo(a[1..], b);
      HeadOfAppend(a, b);
      Associative(ShownEntry(a[0]), ShownIn(a[1..]), ShownIn(b));
    }
  }

  lemma {:induction false} ShownInAre(a: seq<HierarchyItem>, ks: seq<Shown>)
    requires |ks| == |a| && forall i :: 0 <= i < |a| ==> ShownEntry(a[i]) == [ks[i]]
    ensures ShownIn(a) == ks
    decreases |a|
  {
    if a != [] {
      ShownInAre(a[1..], ks[1..]);
      assert ks == [ks[0]] + ks[1..];
    }
  }

  lemma {:induction false} NothingShown(a: seq<HierarchyItem>)
    requires forall i :: 0 <= i < |a| ==> !a[i].LeafEntryItem?
    ensures ShownIn(a) == []
    decreases |a|
  {
    if a != [] { NothingShown(a[1..]); }
  }

  /** Without a depth limit the listed leaf entries show the items of the tree, each
      once and in order. */
  lemma {:induction false} ListsAllItems(e: Env, t: Tree, depth: nat, path: seq<nat>)
    requires Trusted(e)
    ensures ShownIn(Preorder(e, t, depth, None, path)) == ShownOf(e, ItemsOf(t))
    decreases t, 1
  {
    hide Trusted, ShownIn, ShownOf, AllItems, ChildrenPreorder;
    EntriesShown(e, t, path);
    if t.Leaf? {
      assert Preorder(e, t, depth, None, path) == [NodeItemOf(e, t, path)] + EntryItems(e, t);
    } else {
      ListsBelow(e, t.kids, 0, depth + 1, path);
      ShownInTwo([NodeItemOf(e, t, path)] + EntryItems(e, t), ChildrenPreorder(e, t.kids, 0, depth + 1, None, path));
    }
  }

  lemma EntriesShown(e: Env, t: Tree, path: seq<nat>)
    requires Trusted(e)
    ensures ShownIn([NodeItemOf(e, t, path)] + EntryItems(e, t)) == if t.Leaf? then ShownOf(e, t.items) else []
  {
    hide Trusted, ShownIn;
    ShownInTwo([NodeItemOf(e, t, path)], EntryItems(e, t));
    NothingShown([NodeItemOf(e, t, path)]);
    if t.Leaf? { ShownInAre(EntryItems(e, t), ShownOf(e, t.items)); } else { NothingShown(EntryItems(e, t)); }
  }

  lemma {:induction false} ListsBelow(e: Env, kids: seq<Tree>, i: nat, depth: nat, path: seq<nat>)
    requires Trusted(e)
    ensures ShownIn(ChildrenPreorder(e, kids, i, depth, None, path)) == ShownOf(e, AllItems(kids))
    decreases kids, 0
  {
    hide Trusted, ShownIn, ShownOf, ItemsOf, Preorder;
    if kids == [] {
      NothingShown([]);
      assert |ShownOf(e, [])| == 0;
    } else {
      ListsAllItems(e, kids[0], depth, path + [i]);
      ListsBelow(e, kids[1..], i + 1, depth, path);
      ShownInTwo(Preorder(e, kids[0], depth, None, path + [i]), ChildrenPreorder(e, kids[1..], i + 1, depth, None, path));
      ShownOfTwo(e, ItemsOf(kids[0]), AllItems(kids[1..]));
    }
  }

  lemma ShownOfTwo(e: Env, a: seq<Item>, b: seq<Item>)
    requires Trusted(e)
    ensures ShownOf(e, a + b) == ShownOf(e, a) + ShownOf(e, b)
  {
    hide Trusted, ShownItem;
  }

  // ----- the walk

  /** A subtree still to be visited, with its depth and path. */
  datatype Visit = Visit(tree: Tree, depth: nat, path: seq<nat>)

  type QueueEntry = (Hash, nat, seq<nat>)

  ghost function QueueOf(e: Env, visits: seq<Visit>): (queue: seq<QueueEntry>)
    requires Trusted(e)
    ensures |queue| == |visits|
    ensures forall i :: 0 <= i < |visits| ==> queue[i] == (HashOf(e, visits[i].tree), visits[i].depth, visits[i].path)
  {
    seq(|visits|, i requires 0 <= i < |visits| => (HashOf(e, visits[i].tree), visits[i].depth, visits[i].path))
  }

  ghost function VisitItems(e: Env, maxDepth: Option<nat>, visits: seq<Visit>): seq<HierarchyItem>
    requires Trusted(e)
  {
    if visits == [] then []
    else Preorder(e, visits[0].tree, visits[0].depth, maxDepth, visits[0].path) + VisitItems(e, maxDepth, visits[1..])
  }

  ghost function KidVisits(kids: seq<Tree>, i: nat, depth: nat, path: seq<nat>): (visits: seq<Visit>)
    ensures |visits| == |kids|
    ensures forall j :: 0 <= j < |kids| ==> visits[j] == Visit(kids[j], depth, path + [i + j])
    decreases |kids|
  {
    if kids == [] then [] else [Visit(kids[0], depth, path + [i])] + KidVisits(kids[1..], i + 1, depth, path)
  }

  ghost predicate VisitsOk(e: Env, keys: set<Hash>, visits: seq<Visit>)
    requires Trusted(e)
  {
    forall i :: 0 <= i < |visits| ==> FrameOk(e, keys, visits[i].tree)
  }

  lemma {:induction false} VisitItemsTwo(e: Env, maxDepth: Option<nat>, a: seq<Visit>, b: seq<Visit>)
    requires Trusted(e)
    ensures VisitItems(e, maxDepth, a + b) == VisitItems(e, maxDepth, a) + VisitItems(e, maxDepth, b)
    decreases |a|
  {
    hide Trusted, Preorder;
    if a == [] {
      assert a + b == b;
    } else {
      VisitItemsTwo(e, maxDepth, a[1..], b);
      HeadOfAppend(a, b);
      Associative(Preorder(e, a[0].tree, a[0].depth, maxDepth, a[0].path),
        VisitItems(e, maxDepth, a[1..]), VisitItems(e, maxDepth, b));
    }
  }

  lemma {:induction false} KidsVisited(e: Env, kids: seq<Tree>, i: nat, depth: nat, maxDepth: Option<nat>,
                                       path: seq<nat>)
    requires Trusted(e)
    ensures VisitItems(e, maxDepth, KidVisits(kids, i, depth, path)) == ChildrenPreorder(e, kids, i, depth, maxDepth, path)
    decreases |kids|
  {
    hide Trusted, Preorder;
    if kids != [] {
      KidsVisited(e, kids[1..], i + 1, depth, maxDepth, path);
      var visits := KidVisits(kids, i, depth, path);
      assert visits[1..] == KidVisits(kids[1..], i + 1, depth, path);
    }
  }

  /** The visits that a visit leads to. */
  ghost function Deeper(v: Visit, maxDepth: Option<nat>): seq<Visit> {
    if v.tree.Branch? && (maxDepth.None? || v.depth < maxDepth.value)
    then KidVisits(v.tree.kids, 0, v.depth + 1, v.path) else []
  }

  ghost predicate TooDeep(v: Visit, maxDepth: Option<nat>) {
    maxDepth.Some? && v.depth > maxDepth.value
  }

  lemma VisitPreorder(e: Env, maxDepth: Option<nat>, v: Visit)
    requires Trusted(e)
    ensures Preorder(e, v.tree, v.depth, maxDepth, v.path) ==
              if TooDeep(v, maxDepth) then []
              else [NodeItemOf(e, v.tree, v.path)] + EntryItems(e, v.tree) + VisitItems(e, maxDepth, Deeper(v, maxDepth))
  {
    hide Trusted, NodeItemOf, EntryItems, ChildrenPreorder, KidVisits;
    if v.tree.Branch? { KidsVisited(e, v.tree.kids, 0, v.depth + 1, maxDepth, v.path); }
  }

  lemma VisitsHead(e: Env, maxDepth: Option<nat>, visits: seq<Visit>)
    requires Trusted(e) && visits != []
    ensures var v := visits[0];
            VisitItems(e, maxDepth, visits)
            == Preorder(e, v.tree, v.depth, maxDepth, v.path) + VisitItems(e, maxDepth, visits[1..])
  {
  }

  /** What a visit to the front of the queue puts ahead of the rest. */
  lemma FrontVisited(e: Env, maxDepth: Option<nat>, visits: seq<Visit>)
    requires Trusted(e) && visits != []
    ensures var v, rest := visits[0], visits[1..];
            VisitItems(e, maxDepth, visits) ==
              if TooDeep(v, maxDepth) then VisitItems(e, maxDepth, rest)
              else [NodeItemOf(e, v.tree, v.path)]
                   + (EntryItems(e, v.tree) + VisitItems(e, maxDepth, Deeper(v, maxDepth) + rest))
  {
    hide *;
    var v, rest := visits[0], visits[1..];
    VisitsHead(e, maxDepth, visits);
    VisitPreorder(e, maxDepth, v);
    VisitItemsTwo(e, maxDepth, Deeper(v, maxDepth), rest);
    FourParts([NodeItemOf(e, v.tree, v.path)], EntryItems(e, v.tree),
      VisitItems(e, maxDepth, Deeper(v, maxDepth)), VisitItems(e, maxDepth, rest));
  }

  lemma FourParts<T>(a: seq<T>, b: seq<T>, c: seq<T>, d: seq<T>)
    ensures a + b + c + d == a + (b + (c + d))
    ensures [] + d == d
  {
  }

  /** The children go to the front of the queue, in their order. */
  method PushFront(queue: seq<QueueEntry>, children: seq<InternalEntry>, depth: nat, path: seq<nat>)
    returns (queue': seq<QueueEntry>)
    ensures |queue'| == |children| + |queue| && queue'[|children|..] == queue
    ensures forall i :: 0 <= i < |children| ==> queue'[i] == (children[i].childHash, depth, path + [i])
  {
    queue' := queue;
    for i := |children| downto 0
      invariant |queue'| == |children| - i + |queue| && queue'[|children| - i..] == queue
      invariant forall j :: i <= j < |children| ==> queue'[j - i] == (children[j].childHash, depth, path + [j])
    {
      queue' := [(children[i].childHash, depth, path + [i])] + queue';
    }
  }

  lemma PushedFront(e: Env, t: Tree, depth: nat, path: seq<nat>, rest: seq<Visit>, queue': seq<QueueEntry>)
    requires Trusted(e) && t.Branch? && |queue'| == |t.kids| + |rest| && queue'[|t.kids|..] == QueueOf(e, rest)
    requires forall i :: 0 <= i < |t.kids| ==> queue'[i] == (Entries(e, t.kids)[i].childHash, depth, path + [i])
    ensures queue' == QueueOf(e, KidVisits(t.kids, 0, depth, path) + rest)
  {
    hide Trusted, HashOf, MaxKey, Count, KidVisits, Entries, QueueOf;
    var kids, n := KidVisits(t.kids, 0, depth, path), |t.kids|;
    forall i | 0 <= i < n
      ensures queue'[..n][i] == QueueOf(e, kids)[i]
    {
      assert Entries(e, t.kids)[i] == EntryOf(e, t.kids[i]);
    }
    assert queue'[..n] == QueueOf(e, kids);
    assert queue' == queue'[..n] + queue'[n..];
    QueueOfTwo(e, kids, rest);
  }

  lemma QueueOfTwo(e: Env, a: seq<Visit>, b: seq<Visit>)
    requires Trusted(e)
    ensures QueueOf(e, a + b) == QueueOf(e, a) + QueueOf(e, b)
  {
    hide Trusted, HashOf;
  }

  /** The entry item a loaded node shows; `value_size` is taken from the store for a
      single chunk. */
  method ShowEntry(store: InMemoryStore, hash: Hash, node: Node, i: nat, ghost t: Tree) returns (item: HierarchyItem)
    requires Trusted(store.e) && Consistent(store.e, store.data) && FrameOk(store.e, store.data.Keys, t)
    requires hash == HashOf(store.e, t) && node == NodeOf(store.e, t) && i < node.NumEntries() && i < Size(t)
    ensures item == EntryItem(store.e, t, i) && !item.NodeItem? && item.parentHash == hash && item.entryIndex == i
    ensures t.Branch? ==>
              && item.InternalEntryItem? && item.childHash == HashOf(store.e, t.kids[i])
              && item.boundaryKey == MaxKey(t.kids[i]) && item.numItemsSubtree == |ItemsOf(t.kids[i])|
    ensures t.Leaf? ==>
              item.LeafEntryItem? && item.key == t.items[i].key && item.valueSize == |t.items[i].value|
  {
    hide Trusted, Consistent, HashOf, ReprOf, ItemsHeld, Body, AllItems, MaxKey, Held;
    match node {
      case InternalNode(_, children) =>
        assert children[i] == EntryOf(store.e, t.kids[i]);
        item := InternalEntryItem(hash, i, children[i].boundaryKey, children[i].childHash, children[i].numItemsSubtree);
      case LeafNode(_, entries) =>
        HeldBelow(store.e, store.data.Keys, t);
        LeafHeld(store.e, store.data.Keys, t);
        ShownSize(store.e, store.data, t.items, i);
        match entries[i].value {
          case Inline(v) =>
            item := LeafEntryItem(hash, i, entries[i].key, "Inline", None, |v|);
          case Chunked(h) =>
            var chunk := store.Get(h);
            item := LeafEntryItem(hash, i, entries[i].key, "Chunked", Some(h), if chunk.Some? then |chunk.value| else 0);
          case ChunkedSequence(hs, totalSize) =>
            var first := if |hs| > 0 then Some(hs[0]) else None;
            item := LeafEntryItem(hash, i, entries[i].key, "ChunkedSequence", first, totalSize);
        }
    }
  }

  lemma ShownSize(e: Env, data: Chunks, items: seq<Item>, i: nat)
    requires Trusted(e) && Consistent(e, data) && ItemsHeld(e, data.Keys, items) && i < |items|
    ensures match ReprOf(e, items[i].value)
            case Inline(v) => v == items[i].value
            case Chunked(h) => h in data && data[h] == items[i].value
            case ChunkedSequence(_, totalSize) => totalSize == |items[i].value|
  {
    hide ItemsHeld, Trusted, Consistent;
    HeldValueLoads(e, data, items, items[i]);
  }

  class HierarchyCursor {
    const store: InMemoryStore
    const maxDepth: Option<nat>
    var traversalQueue: seq<QueueEntry>
    var currentNode: Option<(Hash, Node, nat)>
    ghost var visits: seq<Visit>
    ghost var current: Tree

    ghost predicate Valid()
      reads this, store
    {
      && Trusted(store.e) && Consistent(store.e, store.data)
      && VisitsOk(store.e, store.data.Keys, visits) && traversalQueue == QueueOf(store.e, visits)
      && (currentNode.Some? ==>
            && FrameOk(store.e, store.data.Keys, current) && currentNode.value.2 <= Size(current)
            && currentNode.value.0 == HashOf(store.e, current) && currentNode.value.1 == NodeOf(store.e, current))
    }

    /** The items still to come. */
    ghost function Pending(): seq<HierarchyItem>
      requires Valid()
      reads this, store
    {
      (if currentNode.Some? then EntryItems(store.e, current)[currentNode.value.2..] else [])
      + VisitItems(store.e, maxDepth, visits)
    }

    constructor (tree: ProllyTree, max: Option<nat>)
      requires tree.Valid()
      ensures Valid() && store == tree.store && maxDepth == max
      ensures Pending() == Listing(tree.store.e, tree.tree, max)
    {
      hide Trusted, Consistent, HashOf, Held, Body, Sorted, Preorder;
      ghost var e, data := tree.store.e, tree.store.data;
      store, maxDepth, currentNode := tree.store, max, None;
      traversalQueue := if tree.rootHash.Some? then [(tree.rootHash.value, 0, [])] else [];
      visits := if tree.tree.Some? then [Visit(tree.tree.value, 0, [])] else [];
      RootVisit(e, data, tree.rootHash, tree.tree, max);
    }

    /** The next item; none at the end. */
    method NextItem() returns (r: Result<Option<HierarchyItem>>)
      requires Valid()
      modifies this
      ensures Valid()
      ensures var pending := old(Pending());
              if pending == [] then r == Ok(None) && Pending() == []
              else r == Ok(Some(pending[0])) && Pending() == pending[1..]
      decreases |traversalQueue|
    {
      hide Trusted, Consistent, HashOf, NodeOf, FrameOk, EntryItems, VisitItems, EntryItem, Preorder, VisitsOk,
        QueueOf, Deeper;
      ghost var e, data := store.e, store.data;
      match currentNode {
        case None =>
        case Some((hash, node, idx)) =>
          NodeSize(e, current);
          EntriesFrom(e, current, idx, VisitItems(e, maxDepth, visits));
          if idx < node.NumEntries() {
            var item := ShowEntry(store, hash, node, idx, current);
            currentNode := Some((hash, node, idx + 1));
            return Ok(Some(item));
          }
          currentNode := None;
      }
      EmptySides(VisitItems(e, maxDepth, visits), VisitItems(e, maxDepth, visits));
      if |traversalQueue| == 0 {
        NothingToVisit(e, maxDepth, visits);
        return Ok(None);
      }
      FrontOf(e, data, visits);
      if maxDepth.Some? && traversalQueue[0].1 > maxDepth.value {
        FrontVisited(e, maxDepth, visits);
        EmptySides(VisitItems(e, maxDepth, visits[1..]), VisitItems(e, maxDepth, visits[1..]));
        traversalQueue, visits := traversalQueue[1..], visits[1..];
        r := NextItem();
        return;
      }
      var visited := VisitFront();
      match visited { case Err(error) => return Err(error); case Ok(item) => return Ok(Some(item)); }
    }

    /** Loads the node at the front of the queue: it is the next item, its entries
        come next, and its children go to the front of the queue. */
    method VisitFront() returns (r: Result<HierarchyItem>)
      requires Valid() && currentNode.None? && |traversalQueue| > 0
      requires maxDepth.Some? ==> traversalQueue[0].1 <= maxDepth.value
      modifies this
      ensures Valid()
      ensures var pending := old(Pending()); pending != [] && r == Ok(pending[0]) && Pending() == pending[1..]
    {
      hide Trusted, Consistent, HashOf, NodeOf, FrameOk, EntryItems, VisitItems, EntryItem, Preorder, VisitsOk,
        QueueOf, Deeper, KidVisits;
      ghost var e, data, v, rest := store.e, store.data, visits[0], visits[1..];
      FrontOf(e, data, visits);
      VisitAhead(e, maxDepth, visits);
      var (nodeHash, depth, path) := traversalQueue[0];
      traversalQueue := traversalQueue[1..];
      FrameLoads(e, data, v.tree);
      NodeSize(e, v.tree);
      DeeperOk(e, data, v, maxDepth, rest);
      var loaded := LoadNode(store, nodeHash);
      match loaded { case Err(error) => return Err(error); case Ok(_) => }
      var node := loaded.value;
      if node.NumEntries() > 0 {
        currentNode := Some((nodeHash, node, 0));
        current := v.tree;
      }
      if node.InternalNode? && (maxDepth.None? || depth < maxDepth.value) {
        var queue := PushFront(traversalQueue, node.children, depth + 1, path);
        PushedFront(e, v.tree, depth + 1, path, rest, queue);
        traversalQueue := queue;
      }
      visits := Deeper(v, maxDepth) + rest;
      return Ok(NodeItem(nodeHash, node.level, node.LeafNode?, node.NumEntries(), path));
    }
  }

  /** A visit's node, its entries if it has any, and what it leads to. */
  lemma VisitAhead(e: Env, maxDepth: Option<nat>, visits: seq<Visit>)
    requires Trusted(e) && visits != [] && !TooDeep(visits[0], maxDepth)
    ensures var v, rest := visits[0], VisitItems(e, maxDepth, Deeper(visits[0], maxDepth) + visits[1..]);
            var all := [] + VisitItems(e, maxDepth, visits);
            && all != [] && all[0] == NodeItemOf(e, v.tree, v.path)
            && (Size(v.tree) > 0 ==> all[1..] == EntryItems(e, v.tree)[0..] + rest)
            && (Size(v.tree) == 0 ==> all[1..] == [] + rest)
  {
    hide Trusted, VisitItems, Deeper, EntryItem, NodeItemOf;
    var v, rest := visits[0], VisitItems(e, maxDepth, Deeper(visits[0], maxDepth) + visits[1..]);
    FrontVisited(e, maxDepth, visits);
    EmptySides(VisitItems(e, maxDepth, visits), VisitItems(e, maxDepth, visits));
    EntriesFrom(e, v.tree, 0, rest);
    AfterFirst(NodeItemOf(e, v.tree, v.path), EntryItems(e, v.tree) + rest);
  }

  lemma AfterFirst<T>(x: T, s: seq<T>)
    ensures ([x] + s)[1..] == s && ([x] + s)[0] == x
  {
  }

  lemma NodeSize(e: Env, t: Tree)
    requires Trusted(e)
    ensures NodeOf(e, t).NumEntries() == Size(t) && NodeOf(e, t).level == Level(t)
    ensures (NodeOf(e, t).LeafNode? <==> t.Leaf?)
    ensures t.Branch? ==> NodeOf(e, t).children == Entries(e, t.kids) && |Entries(e, t.kids)| == |t.kids|
  {
    hide Trusted, HashOf, ReprOf;
  }

  /** The entries of a node from an index on, followed by the rest. */
  lemma EntriesFrom(e: Env, t: Tree, i: nat, rest: seq<HierarchyItem>)
    requires Trusted(e) && i <= Size(t)
    ensures EntryItems(e, t)[0..] == EntryItems(e, t)
    ensures i == Size(t) ==> EntryItems(e, t)[i..] + rest == rest
    ensures i < Size(t) ==> var all := EntryItems(e, t)[i..] + rest;
                            all != [] && all[0] == EntryItem(e, t, i) && all[1..] == EntryItems(e, t)[i + 1..] + rest
  {
    hide Trusted, EntryItem;
  }

  lemma NothingToVisit(e: Env, maxDepth: Option<nat>, visits: seq<Visit>)
    requires Trusted(e) && |QueueOf(e, visits)| == 0
    ensures VisitItems(e, maxDepth, visits) == []
  {
  }

  lemma FrontOf(e: Env, data: Chunks, visits: seq<Visit>)
    requires Trusted(e) && |QueueOf(e, visits)| > 0 && VisitsOk(e, data.Keys, visits)
    ensures visits != [] && FrameOk(e, data.Keys, visits[0].tree) && VisitsOk(e, data.Keys, visits[1..])
    ensures QueueOf(e, visits)[0] == (HashOf(e, visits[0].tree), visits[0].depth, visits[0].path)
    ensures QueueOf(e, visits)[1..] == QueueOf(e, visits[1..])
  {
    hide Trusted, HashOf, FrameOk;
  }

  lemma DeeperOk(e: Env, data: Chunks, v: Visit, maxDepth: Option<nat>, rest: seq<Visit>)
    requires Trusted(e) && FrameOk(e, data.Keys, v.tree) && VisitsOk(e, data.Keys, rest)
    ensures VisitsOk(e, data.Keys, Deeper(v, maxDepth) + rest)
    ensures if v.tree.Branch? && (maxDepth.None? || v.depth < maxDepth.value)
            then Deeper(v, maxDepth) == KidVisits(v.tree.kids, 0, v.depth + 1, v.path)
            else Deeper(v, maxDepth) + rest == rest
  {
    hide Trusted, HashOf, FrameOk;
    if v.tree.Branch? {
      forall i | 0 <= i < |v.tree.kids|
        ensures FrameOk(e, data.Keys, v.tree.kids[i])
      {
        KidFrame(e, data.Keys, v.tree, i);
      }
    }
  }

  /** All items of a hierarchy scan. */
  ghost function Listing(e: Env, t: Option<Tree>, maxDepth: Option<nat>): seq<HierarchyItem>
    requires Trusted(e)
  {
    if t.None? then [] else Preorder(e, t.value, 0, maxDepth, [])
  }

  lemma RootVisit(e: Env, data: Chunks, root: Option<Hash>, t: Option<Tree>, maxDepth: Option<nat>)
    requires Trusted(e) && Denotes(e, data, root, t)
    ensures var visits := if t.Some? then [Visit(t.value, 0, [])] else [];
            && VisitsOk(e, data.Keys, visits) && VisitItems(e, maxDepth, visits) == Listing(e, t, maxDepth)
            && QueueOf(e, visits) == if root.Some? then [(root.value, 0, [])] else []
  {
    hide Trusted, HashOf, Held, Body, Sorted, Preorder;
    if t.Some? { assert [Visit(t.value, 0, [])][1..] == []; }
  }

  // ----- pages

  datatype HierarchyScanArgs = HierarchyScanArgs(maxDepth: Option<nat>, limit: Option<nat>, offset: Option<nat>)

  datatype HierarchyScanPage = HierarchyScanPage(items: seq<HierarchyItem>, hasNextPage: bool)

  ghost function OffsetOf(args: HierarchyScanArgs): nat {
    if args.offset.Some? then args.offset.value else 0
  }

  /** The slice of a listing between the offset and the limit. */
  ghost function SliceOf(all: seq<HierarchyItem>, args: HierarchyScanArgs): HierarchyScanPage {
    var rest := Drop(all, OffsetOf(args));
    if args.limit.Some? && |rest| > args.limit.value then HierarchyScanPage(rest[..args.limit.value], true)
    else HierarchyScanPage(rest, false)
  }

  lemma DropNext<T>(s: seq<T>, n: nat)
    ensures n < |s| ==> Drop(s, n) != [] && Drop(s, n)[1..] == Drop(s, n + 1)
    ensures n >= |s| ==> Drop(s, n) == [] && forall m: nat :: m >= n ==> Drop(s, m) == []
    ensures Drop(s, 0) == s
  {
  }

  lemma OneMore<T>(got: seq<T>, rest: seq<T>)
    ensures rest != [] ==> got + rest == (got + [rest[0]]) + rest[1..]
    ensures (got + rest)[..|got|] == got && (rest == [] ==> got + rest == got) && [] + rest == rest
  {
  }

  /** Passes over `n` items; false when there are not that many. */
  method SkipItems(cursor: HierarchyCursor, n: nat) returns (r: Result<bool>)
    requires cursor.Valid()
    modifies cursor
    ensures cursor.Valid()
    ensures r == Ok(n <= |old(cursor.Pending())|) && cursor.Pending() == Drop(old(cursor.Pending()), n)
  {
    hide *;
    ghost var all := cursor.Pending();
    DropNext(all, 0);
    for i := 0 to n
      invariant cursor.Valid() && cursor.Pending() == Drop(all, i) && i <= |all|
    {
      DropNext(all, i);
      var item := cursor.NextItem();
      match item {
        case Err(error) => return Err(error);
        case Ok(None) => return Ok(false);
        case Ok(Some(_)) =>
      }
    }
    return Ok(true);
  }

  /** A page of the hierarchy scan is exactly the slice of the recursive preorder. */
  method HierarchyScan(tree: ProllyTree, args: HierarchyScanArgs) returns (r: Result<HierarchyScanPage>)
    requires tree.Valid()
    ensures Trusted(tree.store.e) && r == Ok(SliceOf(Listing(tree.store.e, tree.tree, args.maxDepth), args))
  {
    hide Trusted, Consistent, HashOf, Held, Body, Sorted, Listing, Drop, Good;
    var cursor := new HierarchyCursor(tree, args.maxDepth);
    ghost var all := cursor.Pending();
    DropNext(all, 0);
    match args.offset {
      case None =>
      case Some(offset) =>
        DropNext(all, offset);
        var enough := SkipItems(cursor, offset);
        match enough { case Err(error) => return Err(error); case Ok(_) => }
        if !enough.value { return Ok(HierarchyScanPage([], false)); }
    }
    if args.limit == Some(0) {
      var item := cursor.NextItem();
      match item { case Err(error) => return Err(error); case Ok(_) => }
      return Ok(HierarchyScanPage([], item.value.Some?));
    }
    r := CollectPage(cursor, args.limit);
  }

  /** Collects up to `limit` items and looks one item further. */
  method CollectPage(cursor: HierarchyCursor, limit: Option<nat>) returns (r: Result<HierarchyScanPage>)
    requires cursor.Valid() && limit != Some(0)
    modifies cursor
    ensures var rest := old(cursor.Pending());
            r == Ok(if limit.Some? && |rest| > limit.value then HierarchyScanPage(rest[..limit.value], true)
                    else HierarchyScanPage(rest, false))
  {
    hide *;
    ghost var rest := cursor.Pending();
    var collected: seq<HierarchyItem> := [];
    var hasNextPage := false;
    OneMore([], rest);
    while limit.None? || |collected| <= limit.value
      invariant cursor.Valid() && collected + cursor.Pending() == rest
      invariant limit.Some? ==> |collected| <= limit.value
      decreases |cursor.Pending()|
    {
      OneMore(collected, cursor.Pending());
      var item := cursor.NextItem();
      match item {
        case Err(error) => return Err(error);
        case Ok(None) => break;
        case Ok(Some(x)) =>
          if limit.None? || |collected| < limit.value {
            collected := collected + [x];
          } else {
            hasNextPage := true;
            break;
          }
      }
    }
    return Ok(HierarchyScanPage(collected, hasNextPage));
  }
}
