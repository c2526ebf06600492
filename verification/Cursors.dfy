/** The scan cursor: a stack of nodes and an index, proved to run through exactly
    the stream that `Scans` specifies. */
module Cursors {
  import opened Sequences
  import opened Keys
  import opened Items
  import opened Nodes
  import opened Values
  import opened Trees
  import opened Insertion
  import opened Store
  import opened CoreLogic
  import opened Trails
  import opened Scans
  import opened Prolly

  /** The index points into the leaf a trail ends in: a forward cursor may stand
      past the last entry, a reverse cursor before the first (`Max`). */
  ghost predicate IndexFits(fs: seq<Frame>, index: Index, reverse: bool) {
    fs != [] ==>
      && Last(fs).Leaf?
      && (if reverse then index.At? ==> index.i < |Last(fs).items| else index.At? && index.i <= |Last(fs).items|)
  }

  /** What is left of the leaf, in scan direction. */
  ghost function InLeaf(fs: seq<Frame>, index: Index, reverse: bool): seq<Item>
    requires IndexFits(fs, index, reverse)
  {
    if fs == [] then []
    else if !reverse then Last(fs).items[index.i..]
    else if index.Max? then []
    else Reversed(Last(fs).items[..index.i + 1])
  }

  /** What lies beyond the leaf, in scan direction. */
  ghost function Beyond(fs: seq<Frame>, reverse: bool): seq<Item> {
    if fs == [] then [] else if reverse then Reversed(Before(fs)) else After(fs)
  }

  /** What a cursor has still to run through, in scan direction. */
  ghost function PendingOf(fs: seq<Frame>, index: Index, reverse: bool): seq<Item>
    requires IndexFits(fs, index, reverse)
  {
    InLeaf(fs, index, reverse) + Beyond(fs, reverse)
  }

  lemma ReversedTwo<T>(a: seq<T>, b: seq<T>)
    ensures Reversed(a + b) == Reversed(b) + Reversed(a)
  {
  }

  // ----- the first position

  /** The leaf in which a key is looked for. */
  ghost function SeekLeaf(t: Tree, k: Key): Tree
    decreases t
  {
    if t.Leaf? || t.kids == [] then t else SeekLeaf(t.kids[Route(t.kids, k)], k)
  }

  /** The key is smaller than everything in the leaf it is looked for in: it falls
      between two leaves, or below the whole tree. */
  ghost predicate InGap(t: Tree, k: Key) {
    SeekLeaf(t, k).Leaf? && LowerBound(KeysOf(SeekLeaf(t, k).items), k) == 0 && Find(SeekLeaf(t, k).items, k).None?
  }

  ghost predicate StartsInGap(t: Tree, args: ScanArgs) {
    args.reverse && args.startBound.Some? && InGap(t, args.startBound.value)
  }

  lemma BoundInMiddle(a: seq<Item>, b: seq<Item>, c: seq<Item>, k: Key)
    requires AllBelow(a, k) && AllAbove(c, k) && Sorted(b)
    ensures LowerBound(KeysOf(a + b + c), k) == |a| + LowerBound(KeysOf(b), k)
    ensures Find(a + b + c, k) == Find(b, k)
  {
    hide LowerBound, Find, Sorted, AllBelow, AllAbove;
    var b0, m, b1 := CutAt(b, k);
    CutMiddle(a, b, c, k, b0, m, b1);
    OnCut(b, k, b0, m, b1, []);
    OnCut(a + b + c, k, a + b0, m, b1 + c, []);
  }

  lemma SliceInMiddle<T>(a: seq<T>, b: seq<T>, c: seq<T>, q: nat)
    requires q <= |b|
    ensures (a + b + c)[|a| + q..] == b[q..] + c && (a + b + c)[..|a| + q] == a + b[..q]
  {
  }

  /** The position found in the leaf is the position of the specification. */
  lemma PositionInLeaf(items: seq<Item>, args: ScanArgs, a: seq<Item>, b: seq<Item>, c: seq<Item>, gap: bool)
    requires args.startBound.Some? && items == a + b + c && Sorted(b) && b != []
    requires AllBelow(a, args.startBound.value) && AllAbove(c, args.startBound.value)
    requires gap <==>
      args.reverse && LowerBound(KeysOf(b), args.startBound.value) == 0 && Find(b, args.startBound.value).None?
    ensures GapFits(items, args, gap)
    ensures var q, found := LowerBound(KeysOf(b), args.startBound.value), Find(b, args.startBound.value).Some?;
            && q <= |b| && (found ==> q < |b|)
            && From(items, args, gap) ==
                 if args.reverse then AtPosition(b, q, found || q == 0, true) + Reversed(a)
                 else AtPosition(b, q, found || q == 0, false) + c
  {
    hide *;
    var k := args.startBound.value;
    BoundInMiddle(a, b, c, k);
    FoundWithin(b, k);
    FoundWithin(items, k);
    var q, found := LowerBound(KeysOf(b), k), Find(b, k).Some?;
    FromAt(items, args, gap, |a| + q, found || (args.reverse && q == 0));
    InMiddle(a, b, c, q, found || q == 0, args.reverse);
    AnyForward(items, |a| + q, found || (args.reverse && q == 0), found || q == 0);
  }

  /** What lies ahead of position `p`, in either direction, with the item there or,
      backwards, without it. */
  ghost function AtPosition(items: seq<Item>, p: nat, included: bool, reverse: bool): seq<Item>
    requires p <= |items| && (included ==> p < |items|)
  {
    if !reverse then items[p..] else Reversed(items[..if included then p + 1 else p])
  }

  lemma AnyForward(items: seq<Item>, p: nat, x: bool, y: bool)
    requires p <= |items| && (x || y ==> p < |items|)
    ensures AtPosition(items, p, x, false) == AtPosition(items, p, y, false)
  {
  }

  lemma InMiddle(a: seq<Item>, b: seq<Item>, c: seq<Item>, q: nat, included: bool, reverse: bool)
    requires q <= |b| && (included ==> q < |b|)
    ensures AtPosition(a + b + c, |a| + q, included, reverse) ==
              if reverse then AtPosition(b, q, included, true) + Reversed(a) else AtPosition(b, q, included, false) + c
  {
    hide Reversed;
    if reverse { TakenFrom(a, b, c, if included then q + 1 else q); } else { SliceInMiddle(a, b, c, q); }
  }

  lemma FoundWithin(s: seq<Item>, k: Key)
    ensures LowerBound(KeysOf(s), k) <= |s|
    ensures Find(s, k).Some? ==> LowerBound(KeysOf(s), k) < |s|
  {
    hide LowerBound;
  }

  lemma FromAt(items: seq<Item>, args: ScanArgs, gap: bool, p: nat, included: bool)
    requires args.startBound.Some? && p == LowerBound(KeysOf(items), args.startBound.value) <= |items|
    requires included == (gap || Find(items, args.startBound.value).Some?) && (included ==> p < |items|)
    ensures GapFits(items, args, gap)
    ensures From(items, args, gap) == AtPosition(items, p, included, args.reverse)
  {
    hide LowerBound, Reversed;
  }

  lemma TakenFrom(a: seq<Item>, b: seq<Item>, c: seq<Item>, q: nat)
    requires q <= |b|
    ensures Reversed((a + b + c)[..|a| + q]) == Reversed(b[..q]) + Reversed(a)
  {
    hide Reversed;
    SliceInMiddle(a, b, c, q);
    ReversedTwo(a, b[..q]);
  }

  /** One step of the descent keeps the key inside the subtree. */
  lemma DownRoute(e: Env, keys: set<Hash>, fs: seq<Frame>, k: Key)
    requires Trusted(e) && fs != [] && OnTrail(e, keys, fs) && Last(fs).Branch?
    requires Sorted(ItemsOf(Last(fs))) && AllBelow(Before(fs), k) && AllAbove(After(fs), k)
    ensures Last(fs).kids != [] && SeekLeaf(Last(fs), k) == SeekLeaf(Last(fs).kids[Route(Last(fs).kids, k)], k)
    ensures var gs := Down(fs, Route(Last(fs).kids, k));
            && Sorted(ItemsOf(Last(gs))) && AllBelow(Before(gs), k) && AllAbove(After(gs), k)
    ensures Ascending(MaxKeys(Last(fs).kids))
  {
    hide Trusted, OnTrail, HashOf, AllItems, Sorted, Before, After, Inner, AllInner, Route, Ascending, Held;
    TopOfPath(e, keys, fs);
    var kids, i := Last(fs).kids, Route(Last(fs).kids, k);
    ConfigIsValid(e);
    KidsInner(e.config, Last(fs));
    RouteSplits(e.config, kids, Last(fs).level - 1, k);
    MaxKeysAscend(e.config, kids, Last(fs).level - 1);
    DownItems(fs, i);
  }

  /** The child a boundary search picks is the routed one. */
  lemma RouteBySearch(e: Env, kids: seq<Tree>, k: Key, idx: nat)
    requires Trusted(e) && kids != [] && idx == LowerBound(Boundaries(Entries(e, kids)), k)
    ensures Route(kids, k) == if idx < |kids| then idx else |kids| - 1
  {
    hide Trusted, LowerBound, HashOf, MaxKey;
    BoundariesOf(e, kids);
  }

  /** Phase one with a start bound: descend by binary search on the boundaries. */
  method SeekBound(store: InMemoryStore, rootHash: Hash, key: Key, ghost t: Tree)
    returns (r: Result<seq<PathEntry>>, ghost fs: seq<Frame>)
    requires Trusted(store.e) && Enters(store.e, store.data, rootHash, t)
    ensures r == Ok(PathFor(store.e, fs)) && r.value != []
    ensures r.value[|r.value| - 1].node == NodeOf(store.e, SeekLeaf(t, key))
    ensures fs != [] && OnTrail(store.e, store.data.Keys, fs) && fs[0].tree == t && Last(fs).Leaf?
    ensures Last(fs) == SeekLeaf(t, key) && Sorted(ItemsOf(Last(fs)))
    ensures AllBelow(Before(fs), key) && AllAbove(After(fs), key)
  {
    hide Trusted, HashOf, AllItems, OnTrail, ItemsOf, Before, After, Consistent, PathFor, Down, Held, Body, Sorted, Find,
      Route, LowerBound, AllBelow, AllAbove, SeekLeaf, Enters, Ascending, MaxKeys;
    ghost var e := store.e;
    fs := [Frame(t, 0)];
    RootTrail(e, store.data, rootHash, t, key);
    var loaded := LoadNode(store, rootHash);
    match loaded { case Err(error) => r := Err(error); return; case Ok(_) => }
    var node := loaded.value;
    var path := [PathEntry(rootHash, node, Max)];
    while node.InternalNode?
      invariant fs != [] && OnTrail(e, store.data.Keys, fs) && path == PathFor(e, fs) && fs[0].tree == t
      invariant node == NodeOf(e, Last(fs)) && SeekLeaf(Last(fs), key) == SeekLeaf(t, key)
      invariant Sorted(ItemsOf(Last(fs))) && AllBelow(Before(fs), key) && AllAbove(After(fs), key)
      decreases Last(fs)
    {
      TopOfPath(e, store.data.Keys, fs);
      FrameLoads(e, store.data, Last(fs));
      if |node.children| == 0 { break; }
      ghost var kids := Last(fs).kids;
      DownRoute(e, store.data.Keys, fs, key);
      BoundariesOf(e, kids);
      var _, idx := BinarySearch(Boundaries(node.children), key);
      RouteBySearch(e, kids, key, idx);
      var i := if idx < |node.children| then idx else |node.children| - 1;
      DownOnTrail(e, store.data.Keys, fs, i);
      KidFrame(e, store.data.Keys, Last(fs), i);
      FrameLoads(e, store.data, kids[i]);
      DownLast(fs, i);
      var child := LoadNode(store, node.children[i].childHash);
      match child { case Err(error) => r := Err(error); return; case Ok(_) => }
      path := path + [PathEntry(node.children[i].childHash, child.value, At(i))];
      node := child.value;
      fs := Down(fs, i);
    }
    SeekLeafOfLeaf(Last(fs), key);
    TopOfPath(e, store.data.Keys, fs);
    r := Ok(path);
  }

  lemma SeekLeafOfLeaf(t: Tree, k: Key)
    requires t.Leaf?
    ensures SeekLeaf(t, k) == t
  {
  }

  lemma RootTrail(e: Env, data: Chunks, hash: Hash, t: Tree, k: Key)
    requires Trusted(e) && Enters(e, data, hash, t)
    ensures var fs := [Frame(t, 0)];
            && OnTrail(e, data.Keys, fs) && Last(fs) == t && Sorted(ItemsOf(t))
            && PathFor(e, fs) == [PathEntry(hash, NodeOf(e, t), Max)]
            && Before(fs) == [] && After(fs) == [] && AllBelow(Before(fs), k) && AllAbove(After(fs), k)
    ensures hash in data && e.decode(data[hash]) == Some(NodeOf(e, t)) && Consistent(e, data)
  {
    hide Trusted, HashOf, AllItems, NodeOf;
    EntersLoads(e, data, hash, t);
  }

  /** Standing past the leaf, the start key is passed too. */
  ghost predicate PastStart(fs: seq<Frame>, index: Index, args: ScanArgs)
    requires IndexFits(fs, index, args.reverse)
  {
    InLeaf(fs, index, args.reverse) == [] ==> SkipStart(Beyond(fs, args.reverse), args) == Beyond(fs, args.reverse)
  }

  /** A cursor stack over the tree, standing somewhere in it. */
  ghost predicate Stands(e: Env, keys: set<Hash>, path: seq<PathEntry>, index: Index, args: ScanArgs, fs: seq<Frame>)
    requires Trusted(e)
  {
    && OnTrail(e, keys, fs) && path == PathFor(e, fs) && IndexFits(fs, index, args.reverse) && PastStart(fs, index, args)
  }

  /** Phase one: the first position of a scan. */
  method FirstPosition(store: InMemoryStore, rootHash: Hash, args: ScanArgs, ghost t: Tree)
    returns (r: Result<(seq<PathEntry>, Index)>, ghost fs: seq<Frame>)
    requires Trusted(store.e) && Enters(store.e, store.data, rootHash, t)
    ensures r.Ok? && IndexFits(fs, r.value.1, args.reverse)
    ensures Stands(store.e, store.data.Keys, r.value.0, r.value.1, args, fs)
    ensures GapFits(ItemsOf(t), args, StartsInGap(t, args))
    ensures PendingOf(fs, r.value.1, args.reverse) == From(ItemsOf(t), args, StartsInGap(t, args))
  {
    hide *;
    match args.startBound {
      case Some(key) => r, fs := PositionAtBound(store, rootHash, key, args, t);
      case None => r, fs := PositionAtEdge(store, rootHash, args, t);
    }
  }

  method PositionAtBound(store: InMemoryStore, rootHash: Hash, key: Key, args: ScanArgs, ghost t: Tree)
    returns (r: Result<(seq<PathEntry>, Index)>, ghost fs: seq<Frame>)
    requires Trusted(store.e) && Enters(store.e, store.data, rootHash, t) && args.startBound == Some(key)
    ensures r.Ok? && IndexFits(fs, r.value.1, args.reverse)
    ensures Stands(store.e, store.data.Keys, r.value.0, r.value.1, args, fs)
    ensures GapFits(ItemsOf(t), args, StartsInGap(t, args))
    ensures PendingOf(fs, r.value.1, args.reverse) == From(ItemsOf(t), args, StartsInGap(t, args))
  {
    hide *;
    var sought;
    sought, fs := SeekBound(store, rootHash, key, t);
    match sought { case Err(error) => r := Err(error); return; case Ok(_) => }
    var path := sought.value;
    TopOfPath(store.e, store.data.Keys, fs);
    LeafOnTrail(store.e, store.data.Keys, fs);
    ghost var leaf := Last(fs).items;
    var entries := path[|path| - 1].node.entries;
    var found, q := BinarySearch(EntryKeys(entries), key);
    FoundInLeaf(leaf, key);
    var index := if !args.reverse || found then q else if q > 0 then q - 1 else 0;
    if args.reverse && index >= |entries| { index := |entries| - 1; }
    BoundPosition(store.e, store.data.Keys, fs, t, args, index);
    r := Ok((path, At(index)));
  }

  lemma BoundPosition(e: Env, keys: set<Hash>, fs: seq<Frame>, t: Tree, args: ScanArgs, index: nat)
    requires Trusted(e) && fs != [] && OnTrail(e, keys, fs) && fs[0].tree == t && Last(fs).Leaf?
    requires args.startBound.Some?
    requires Last(fs) == SeekLeaf(t, args.startBound.value) && Sorted(Last(fs).items) && Last(fs).items != []
    requires AllBelow(Before(fs), args.startBound.value) && AllAbove(After(fs), args.startBound.value)
    requires var q := LowerBound(KeysOf(Last(fs).items), args.startBound.value);
             var found := Find(Last(fs).items, args.startBound.value).Some?;
             index == if !args.reverse then q else if found then q else if q == 0 then 0 else q - 1
    ensures IndexFits(fs, At(index), args.reverse) && PastStart(fs, At(index), args)
    ensures Stands(e, keys, PathFor(e, fs), At(index), args, fs)
    ensures GapFits(ItemsOf(t), args, StartsInGap(t, args))
    ensures PendingOf(fs, At(index), args.reverse) == From(ItemsOf(t), args, StartsInGap(t, args))
  {
    hide Trusted, HashOf, AllItems, OnTrail, Before, After, Held, Body, Sorted, Find, SeekLeaf, LowerBound, AllBelow, AllAbove,
      From, Reversed, GapFits, PathFor;
    TrailTotal(e, keys, fs);
    PositionInLeaf(ItemsOf(t), args, Before(fs), Last(fs).items, After(fs), StartsInGap(t, args));
    AboveIsPast(After(fs), args);
  }

  lemma AboveIsPast(s: seq<Item>, args: ScanArgs)
    requires args.startBound.Some? && AllAbove(s, args.startBound.value)
    ensures SkipStart(s, args) == s
  {
  }

  method PositionAtEdge(store: InMemoryStore, rootHash: Hash, args: ScanArgs, ghost t: Tree)
    returns (r: Result<(seq<PathEntry>, Index)>, ghost fs: seq<Frame>)
    requires Trusted(store.e) && Enters(store.e, store.data, rootHash, t) && args.startBound.None?
    ensures r.Ok? && IndexFits(fs, r.value.1, args.reverse)
    ensures Stands(store.e, store.data.Keys, r.value.0, r.value.1, args, fs)
    ensures GapFits(ItemsOf(t), args, StartsInGap(t, args))
    ensures PendingOf(fs, r.value.1, args.reverse) == From(ItemsOf(t), args, StartsInGap(t, args))
  {
    hide *;
    RootTrail(store.e, store.data, rootHash, t, []);
    var loaded := LoadNode(store, rootHash);
    match loaded { case Err(error) => r := Err(error); return; case Ok(_) => }
    var edge;
    edge, fs := DescendEdge(store, [PathEntry(rootHash, loaded.value, Max)], args.reverse, [Frame(t, 0)]);
    match edge { case Err(error) => r := Err(error); return; case Ok(_) => }
    var path := edge.value;
    TopOfPath(store.e, store.data.Keys, fs);
    LeafOnTrail(store.e, store.data.Keys, fs);
    var entries := path[|path| - 1].node.entries;
    var index := if !args.reverse then At(0) else if |entries| == 0 then Max else At(|entries| - 1);
    EdgePosition(store.e, store.data.Keys, fs, t, args);
    r := Ok((path, index));
  }

  lemma EdgePosition(e: Env, keys: set<Hash>, fs: seq<Frame>, t: Tree, args: ScanArgs)
    requires Trusted(e) && fs != [] && OnTrail(e, keys, fs) && Last(fs).Leaf? && Last(fs).items != []
    requires args.startBound.None?
    requires !args.reverse ==> Before(fs) == [] && Last(fs).items + After(fs) == ItemsOf(t)
    requires args.reverse ==> After(fs) == [] && Before(fs) + Last(fs).items == ItemsOf(t)
    ensures var index := if !args.reverse then At(0) else At(|Last(fs).items| - 1);
            && Stands(e, keys, PathFor(e, fs), index, args, fs) && IndexFits(fs, index, args.reverse)
            && PendingOf(fs, index, args.reverse) == From(ItemsOf(t), args, StartsInGap(t, args))
    ensures GapFits(ItemsOf(t), args, StartsInGap(t, args))
  {
    hide Trusted, HashOf, AllItems, ItemsOf, OnTrail, Before, After, From, Reversed, PathFor;
    WholeRange(ItemsOf(t), args, Before(fs), Last(fs).items, After(fs));
  }

  lemma FoundInLeaf(leaf: seq<Item>, k: Key)
    ensures var q := LowerBound(KeysOf(leaf), k); q <= |leaf| && (Find(leaf, k).Some? <==> q < |leaf| && KeysOf(leaf)[q] == k)
  {
  }

  lemma LeafOnTrail(e: Env, keys: set<Hash>, fs: seq<Frame>)
    requires Trusted(e) && fs != [] && OnTrail(e, keys, fs) && Last(fs).Leaf?
    ensures Last(fs).items != [] && ItemsOf(Last(fs)) == Last(fs).items && ItemsHeld(e, keys, Last(fs).items)
    ensures NodeOf(e, Last(fs)) == LeafNode(0, LeafEntries(e, Last(fs).items))
    ensures EntryKeys(LeafEntries(e, Last(fs).items)) == KeysOf(Last(fs).items)
    ensures Sorted(Last(fs).items) ==> Ascending(KeysOf(Last(fs).items))
  {
    hide Trusted, HashOf, ItemsHeld, LeafEntries;
    TopOfPath(e, keys, fs);
    HeldBelow(e, keys, Last(fs));
    LeafHeld(e, keys, Last(fs));
    EntryKeysOf(e, Last(fs).items);
    if Sorted(Last(fs).items) { KeysAscend(Last(fs).items); }
  }

  lemma WholeRange(items: seq<Item>, args: ScanArgs, a: seq<Item>, b: seq<Item>, c: seq<Item>)
    requires args.startBound.None? && b != []
    requires !args.reverse ==> a == [] && b + c == items
    requires args.reverse ==> c == [] && a + b == items
    ensures !args.reverse ==> b[0..] + c == From(items, args, false)
    ensures args.reverse ==> Reversed(b[..|b| - 1 + 1]) + Reversed(a) == From(items, args, false)
  {
    assert b[0..] == b && b[..|b|] == b;
    ReversedTwo(a, b);
  }

  // ----- moving on

  /** Moves to the next leaf in scan direction, at its first item. */
  method AdvanceLeaf(store: InMemoryStore, path: seq<PathEntry>, args: ScanArgs, ghost fs: seq<Frame>)
    returns (r: Result<(bool, seq<PathEntry>, Index)>, ghost gs: seq<Frame>)
    requires Trusted(store.e) && Consistent(store.e, store.data)
    requires fs != [] && OnTrail(store.e, store.data.Keys, fs) && path == PathFor(store.e, fs)
    ensures r.Ok? && (r.value.0 <==> gs != []) && IndexFits(gs, r.value.2, args.reverse)
    ensures Stands(store.e, store.data.Keys, r.value.1, r.value.2, args, gs)
    ensures PendingOf(gs, r.value.2, args.reverse) == Beyond(fs, args.reverse)
    ensures gs != [] ==> InLeaf(gs, r.value.2, args.reverse) != []
  {
    hide *;
    var moved;
    if args.reverse {
      moved, gs := PreviousLeaf(store, path, fs);
    } else {
      moved, gs := NextLeaf(store, path, fs);
    }
    match moved { case Err(error) => r := Err(error); return; case Ok(_) => }
    if !moved.value.0 {
      NoLeafBeyond(store.e, store.data.Keys, fs, args);
      r := Ok((false, moved.value.1, if args.reverse then Max else At(0)));
      return;
    }
    var newPath := moved.value.1;
    TopOfPath(store.e, store.data.Keys, gs);
    LeafOnTrail(store.e, store.data.Keys, gs);
    var entries := newPath[|newPath| - 1].node.entries;
    var index := if !args.reverse then At(0) else if |entries| == 0 then Max else At(|entries| - 1);
    NewLeaf(store.e, store.data.Keys, fs, gs, args);
    r := Ok((true, newPath, index));
  }

  lemma NoLeafBeyond(e: Env, keys: set<Hash>, fs: seq<Frame>, args: ScanArgs)
    requires Trusted(e) && (if args.reverse then Before(fs) == [] else After(fs) == [])
    ensures var index := if args.reverse then Max else At(0);
            && Stands(e, keys, PathFor(e, []), index, args, []) && IndexFits([], index, args.reverse)
            && PendingOf([], index, args.reverse) == Beyond(fs, args.reverse)
  {
    hide Before, After;
    EmptyTrail(e, keys);
  }

  lemma NewLeaf(e: Env, keys: set<Hash>, fs: seq<Frame>, gs: seq<Frame>, args: ScanArgs)
    requires Trusted(e) && fs != [] && gs != [] && OnTrail(e, keys, gs) && Last(gs).Leaf? && Last(gs).items != []
    requires if args.reverse then Before(fs) == Before(gs) + Last(gs).items else After(fs) == Last(gs).items + After(gs)
    ensures var index := if !args.reverse then At(0) else At(|Last(gs).items| - 1);
            && Stands(e, keys, PathFor(e, gs), index, args, gs) && IndexFits(gs, index, args.reverse)
            && PendingOf(gs, index, args.reverse) == Beyond(fs, args.reverse)
            && InLeaf(gs, index, args.reverse) != []
  {
    hide Before, After, Reversed, OnTrail, PathFor, Trusted;
    ReversedTwo(Before(gs), Last(gs).items);
    assert Last(gs).items[0..] == Last(gs).items && Last(gs).items[..|Last(gs).items|] == Last(gs).items;
  }

  /** How many entries the leaf still has, in scan direction. */
  function Available(entries: seq<LeafEntry>, index: Index, reverse: bool): nat {
    if reverse then (if index.Max? then 0 else index.i + 1)
    else if index.Max? || index.i >= |entries| then 0 else |entries| - index.i
  }

  /** The index `n` entries further on; before the first entry is `Max`. */
  function Moved(index: Index, n: nat, reverse: bool): Index {
    if index.Max? then Max
    else if !reverse then At(index.i + n)
    else if n <= index.i then At(index.i - n) else Max
  }

  lemma MovedInLeaf(e: Env, fs: seq<Frame>, index: Index, reverse: bool, n: nat)
    requires Trusted(e) && fs != [] && IndexFits(fs, index, reverse)
    ensures |InLeaf(fs, index, reverse)| == Available(LeafEntries(e, Last(fs).items), index, reverse)
    ensures n <= |InLeaf(fs, index, reverse)| ==>
              && IndexFits(fs, Moved(index, n, reverse), reverse)
              && InLeaf(fs, Moved(index, n, reverse), reverse) == InLeaf(fs, index, reverse)[n..]
  {
    hide Trusted, LeafEntries, ReprOf, Reversed;
    var items := Last(fs).items;
    if !reverse {
      DropTwice(items, index.i, n);
    } else if index.At? && n <= index.i + 1 {
      ReversedDropped(items, index.i + 1, index.i + 1 - n);
    }
  }

  lemma DropTwice<T>(s: seq<T>, i: nat, n: nat)
    requires i <= |s|
    ensures i + n <= |s| ==> s[i..][n..] == s[i + n..]
  {
  }

  lemma DropFromTwo<T>(a: seq<T>, b: seq<T>, n: nat)
    ensures n <= |a| ==> Drop(a + b, n) == a[n..] + b
    ensures |a| <= n ==> Drop(a + b, n) == Drop(b, n - |a|)
    ensures Drop(a, 0) == a
  {
  }

  /** What a cursor that has not run off the tree stands on. */
  lemma StandsOn(e: Env, keys: set<Hash>, path: seq<PathEntry>, index: Index, args: ScanArgs, fs: seq<Frame>)
    requires Trusted(e) && Stands(e, keys, path, index, args, fs) && path != []
    ensures fs != [] && |path| == |fs| && OnTrail(e, keys, fs) && path == PathFor(e, fs)
    ensures IndexFits(fs, index, args.reverse)
    ensures PastStart(fs, index, args)
    ensures Last(fs).Leaf? && Last(fs).items != [] && ItemsHeld(e, keys, Last(fs).items)
    ensures path[|path| - 1].node == LeafNode(0, LeafEntries(e, Last(fs).items))
  {
    hide Trusted, OnTrail, PastStart, ItemsHeld, ItemsOf, HashOf, NodeOf;
    TopOfPath(e, keys, fs);
    LeafOnTrail(e, keys, fs);
  }

  /** What passing over `n` items comes to, inside the leaf and beyond it. */
  lemma PassOver(e: Env, keys: set<Hash>, fs: seq<Frame>, index: Index, args: ScanArgs, n: nat)
    requires Trusted(e) && fs != [] && OnTrail(e, keys, fs) && IndexFits(fs, index, args.reverse)
    ensures var k := Available(LeafEntries(e, Last(fs).items), index, args.reverse);
            && k == |InLeaf(fs, index, args.reverse)|
            && (n < k ==> Stands(e, keys, PathFor(e, fs), Moved(index, n, args.reverse), args, fs)
                          && IndexFits(fs, Moved(index, n, args.reverse), args.reverse)
                          && PendingOf(fs, Moved(index, n, args.reverse), args.reverse)
                             == Drop(PendingOf(fs, index, args.reverse), n))
            && (n >= k ==> Drop(PendingOf(fs, index, args.reverse), n) == Drop(Beyond(fs, args.reverse), n - k))
  {
    hide Trusted, OnTrail, InLeaf, Beyond, Drop, LeafEntries, PathFor, Moved, Available, SkipStart;
    MovedInLeaf(e, fs, index, args.reverse, n);
    DropFromTwo(InLeaf(fs, index, args.reverse), Beyond(fs, args.reverse), n);
  }

  /** A stack run off the tree has nothing pending. */
  lemma Exhausted(e: Env, keys: set<Hash>, path: seq<PathEntry>, index: Index, args: ScanArgs, fs: seq<Frame>, n: nat)
    requires Trusted(e) && Stands(e, keys, path, index, args, fs) && (path == [] || fs == [])
    ensures fs == [] && path == [] && IndexFits(fs, index, args.reverse)
    ensures PendingOf(fs, index, args.reverse) == [] && Drop(PendingOf(fs, index, args.reverse), n) == []
  {
    hide Trusted, OnTrail;
    assert |PathFor(e, fs)| == |fs|;
  }

  /** Phase two: pass over `offset` items, across leaves; running off the tree
      leaves an empty stack. */
  method ApplyOffset(store: InMemoryStore, path: seq<PathEntry>, index: Index, args: ScanArgs, ghost fs: seq<Frame>)
    returns (r: Result<(seq<PathEntry>, Index)>, ghost gs: seq<Frame>)
    requires Trusted(store.e) && Consistent(store.e, store.data)
    requires Stands(store.e, store.data.Keys, path, index, args, fs) && IndexFits(fs, index, args.reverse)
    ensures r.Ok? && IndexFits(gs, r.value.1, args.reverse)
    ensures Stands(store.e, store.data.Keys, r.value.0, r.value.1, args, gs)
    ensures PendingOf(gs, r.value.1, args.reverse) == Drop(PendingOf(fs, index, args.reverse), args.offset)
  {
    hide *;
    var p, at, remaining := path, index, args.offset;
    gs := fs;
    ghost var keys := store.data.Keys;
    while remaining > 0 && p != []
      invariant Stands(store.e, keys, p, at, args, gs) && IndexFits(gs, at, args.reverse)
      invariant Drop(PendingOf(gs, at, args.reverse), remaining) == Drop(PendingOf(fs, index, args.reverse), args.offset)
      decreases remaining, |InLeaf(gs, at, args.reverse)| == 0
    {
      StandsOn(store.e, keys, p, at, args, gs);
      match p[|p| - 1].node {
        case InternalNode(_, _) => break;
        case LeafNode(_, entries) =>
          var available := Available(entries, at, args.reverse);
          PassOver(store.e, keys, gs, at, args, remaining);
          if remaining < available {
            at := Moved(at, remaining, args.reverse);
            DropFromTwo(PendingOf(gs, at, args.reverse), [], 0);
            remaining := 0;
          } else {
            remaining := remaining - available;
            var next;
            next, gs := AdvanceLeaf(store, p, args, gs);
            match next { case Err(error) => r := Err(error); return; case Ok(_) => }
            p := next.value.1;
            at := next.value.2;
            if !next.value.0 {
              Exhausted(store.e, keys, p, at, args, gs, remaining);
              remaining := 0;
              break;
            }
          }
      }
    }
    if p == [] { Exhausted(store.e, keys, p, at, args, gs, remaining); }
    DropFromTwo(PendingOf(gs, at, args.reverse), [], 0);
    r := Ok((p, at));
  }

  /** What the entry under the index is: the head of what is left in the leaf. */
  lemma UnderIndex(e: Env, keys: set<Hash>, fs: seq<Frame>, index: Index, args: ScanArgs)
    requires Trusted(e) && fs != [] && OnTrail(e, keys, fs) && IndexFits(fs, index, args.reverse)
    ensures var entries, rest := LeafEntries(e, Last(fs).items), InLeaf(fs, index, args.reverse);
            && (index.At? && index.i < |entries| <==> rest != [])
            && (rest != [] ==>
                  && index.At? && index.i < |entries|
                  && entries[index.i] == LeafEntry(rest[0].key, ReprOf(e, rest[0].value)) && rest[0] in Last(fs).items
                  && IndexFits(fs, Moved(index, 1, args.reverse), args.reverse)
                  && PendingOf(fs, index, args.reverse) != [] && PendingOf(fs, index, args.reverse)[0] == rest[0]
                  && PendingOf(fs, Moved(index, 1, args.reverse), args.reverse) == PendingOf(fs, index, args.reverse)[1..])
  {
    hide Trusted, OnTrail, ReprOf, Moved, Beyond;
    MovedInLeaf(e, fs, index, args.reverse, 1);
    var rest := InLeaf(fs, index, args.reverse);
    if rest != [] { DropFromTwo(rest, Beyond(fs, args.reverse), 1); }
  }

  /** Phase three: step over the start key itself when it is excluded. */
  method SkipExcludedStart(path: seq<PathEntry>, index: Index, args: ScanArgs, ghost e: Env, ghost keys: set<Hash>,
                           ghost fs: seq<Frame>)
    returns (at: Index)
    requires Trusted(e) && Stands(e, keys, path, index, args, fs) && IndexFits(fs, index, args.reverse)
    ensures IndexFits(fs, at, args.reverse)
    ensures PendingOf(fs, at, args.reverse) == SkipStart(PendingOf(fs, index, args.reverse), args)
  {
    hide *;
    at := index;
    if path == [] {
      Exhausted(e, keys, path, index, args, fs, 0);
      SkipNothing(args);
      return;
    }
    StandsOn(e, keys, path, index, args, fs);
    UnderIndex(e, keys, fs, index, args);
    SkipHead(fs, index, args);
    match path[|path| - 1].node {
      case InternalNode(_, _) =>
      case LeafNode(_, entries) =>
        if args.startBound.Some? && !args.startInclusive && index.At? && index.i < |entries|
           && entries[index.i].key == args.startBound.value {
          at := Moved(index, 1, args.reverse);
        }
    }
  }

  lemma SkipNothing(args: ScanArgs)
    ensures SkipStart([], args) == []
  {
  }

  lemma SkipHead(fs: seq<Frame>, index: Index, args: ScanArgs)
    requires IndexFits(fs, index, args.reverse) && PastStart(fs, index, args)
    ensures var pending, rest := PendingOf(fs, index, args.reverse), InLeaf(fs, index, args.reverse);
            SkipStart(pending, args) ==
              if rest != [] && args.startBound.Some? && !args.startInclusive && rest[0].key == args.startBound.value
              then pending[1..] else pending
  {
    hide InLeaf, Beyond;
    var rest := InLeaf(fs, index, args.reverse);
    if rest == [] { EmptySides(Beyond(fs, args.reverse), Beyond(fs, args.reverse)); }
  }

  // ----- the cursor

  ghost function ItemsIn(t: Option<Tree>): seq<Item> {
    if t.None? then [] else ItemsOf(t.value)
  }

  ghost predicate GapIn(t: Option<Tree>, args: ScanArgs) {
    t.Some? && StartsInGap(t.value, args)
  }

  lemma NothingToScan(e: Env, data: Chunks, t: Option<Tree>, args: ScanArgs)
    requires Trusted(e) && Denotes(e, data, None, t)
    ensures var index := if args.reverse then Max else At(0);
            && OnTrail(e, data.Keys, []) && PathFor(e, []) == [] && IndexFits([], index, args.reverse)
            && GapFits(ItemsIn(t), args, GapIn(t, args))
            && PendingOf([], index, args.reverse) == Stream(ItemsIn(t), args, GapIn(t, args))
  {
    EmptyTrail(e, data.Keys);
  }

  /** The three phases of a scan's start, on a tree. */
  method Position(store: InMemoryStore, rootHash: Hash, args: ScanArgs, ghost t: Tree)
    returns (r: Result<(seq<PathEntry>, Index)>, ghost fs: seq<Frame>)
    requires Trusted(store.e) && Enters(store.e, store.data, rootHash, t)
    ensures r.Ok? && OnTrail(store.e, store.data.Keys, fs) && r.value.0 == PathFor(store.e, fs)
    ensures IndexFits(fs, r.value.1, args.reverse) && GapFits(ItemsOf(t), args, StartsInGap(t, args))
    ensures PendingOf(fs, r.value.1, args.reverse) == Stream(ItemsOf(t), args, StartsInGap(t, args))
  {
    hide *;
    ghost var e, keys := store.e, store.data.Keys;
    EntersConsistent(e, store.data, rootHash, t);
    var first, gs := FirstPosition(store, rootHash, args, t);
    match first { case Err(error) => r := Err(error); fs := []; return; case Ok(_) => }
    var moved;
    moved, fs := ApplyOffset(store, first.value.0, first.value.1, args, gs);
    match moved { case Err(error) => r := Err(error); return; case Ok(_) => }
    var index := SkipExcludedStart(moved.value.0, moved.value.1, args, e, keys, fs);
    StandsParts(e, keys, moved.value.0, moved.value.1, args, fs);
    StreamIs(ItemsOf(t), args, StartsInGap(t, args));
    r := Ok((moved.value.0, index));
  }

  lemma StandsParts(e: Env, keys: set<Hash>, path: seq<PathEntry>, index: Index, args: ScanArgs, fs: seq<Frame>)
    requires Trusted(e) && Stands(e, keys, path, index, args, fs)
    ensures OnTrail(e, keys, fs) && path == PathFor(e, fs)
  {
  }

  lemma StreamIs(items: seq<Item>, args: ScanArgs, gap: bool)
    requires GapFits(items, args, gap)
    ensures Stream(items, args, gap) == SkipStart(Drop(From(items, args, gap), args.offset), args)
  {
  }

  class Cursor {
    const store: InMemoryStore
    var path: seq<PathEntry>
    var index: Index
    ghost var trail: seq<Frame>

    ghost predicate Valid(args: ScanArgs)
      reads this, store
    {
      && Trusted(store.e) && Consistent(store.e, store.data)
      && OnTrail(store.e, store.data.Keys, trail) && path == PathFor(store.e, trail) && IndexFits(trail, index, args.reverse)
    }

    /** The items the cursor has still to run through. */
    ghost function Pending(args: ScanArgs): seq<Item>
      requires Valid(args)
      reads this, store
    {
      PendingOf(trail, index, args.reverse)
    }

    constructor (s: InMemoryStore, p: seq<PathEntry>, at: Index, ghost fs: seq<Frame>)
      ensures store == s && path == p && index == at && trail == fs
    {
      store, path, index, trail := s, p, at, fs;
    }

    /** A cursor has the same ahead of it, however the store has grown meanwhile: it
        reads the version it was opened on. */
    twostate lemma StaysValid(args: ScanArgs)
      requires old(Valid(args)) && unchanged(this)
      requires Consistent(store.e, store.data) && Extends(old(store.data), store.data)
      ensures Valid(args) && Pending(args) == old(Pending(args))
    {
      OnTrailGrows(store.e, old(store.data.Keys), store.data.Keys, trail);
    }

    /** A cursor for a range scan of the tree. */
    static method NewForScan(tree: ProllyTree, args: ScanArgs) returns (r: Result<Cursor>)
      requires tree.Valid()
      ensures r.Ok? && fresh(r.value) && r.value.store == tree.store && r.value.Valid(args)
      ensures GapFits(ItemsIn(tree.tree), args, GapIn(tree.tree, args))
      ensures r.value.Pending(args) == Stream(ItemsIn(tree.tree), args, GapIn(tree.tree, args))
    {
      hide Trusted, Consistent, HashOf, AllItems, Stream, GapFits, StartsInGap, PathFor, OnTrail, PendingOf, Held,
        WellFormed, Enters, RootShape;
      ghost var e, data := tree.store.e, tree.store.data;
      if tree.rootHash.None? {
        NothingToScan(e, data, tree.tree, args);
        var empty := new Cursor(tree.store, [], if args.reverse then Max else At(0), []);
        return Ok(empty);
      }
      DenotesEnters(e, data, tree.rootHash, tree.tree);
      var position, fs := Position(tree.store, tree.rootHash.value, args, tree.tree.value);
      match position { case Err(error) => return Err(error); case Ok(_) => }
      var cursor := new Cursor(tree.store, position.value.0, position.value.1, fs);
      return Ok(cursor);
    }

    /** The next item of the scan; none when the scan is over. */
    method NextInScan(args: ScanArgs) returns (r: Result<Option<Item>>)
      requires Valid(args)
      modifies this
      ensures Valid(args)
      ensures var pending := old(Pending(args));
              if pending == [] || Stops(args, pending[0].key) then r == Ok(None) && Pending(args) == pending
              else r == Ok(Some(pending[0])) && Pending(args) == pending[1..]
    {
      hide Trusted, Consistent, HashOf, AllItems, PathFor, OnTrail, PendingOf, InLeaf, Held, Stops, IndexFits, Stands;
      ghost var e, keys := store.e, store.data.Keys;
      while true
        invariant Valid(args) && Pending(args) == old(Pending(args))
        decreases InLeaf(trail, index, args.reverse) == []
      {
        if |path| == 0 {
          NothingPending(e, path, trail, index, args);
          return Ok(None);
        }
        ValidStandsOn(e, keys, path, index, args, trail);
        UnderIndex(e, keys, trail, index, args);
        match path[|path| - 1].node {
          case InternalNode(_, _) => return Err(InternalError);
          case LeafNode(_, entries) =>
            if index.At? && index.i < |entries| {
              var entry := entries[index.i];
              if Stops(args, entry.key) { return Ok(None); }
              HeldValueLoads(e, store.data, Last(trail).items, InLeaf(trail, index, args.reverse)[0]);
              var value := LoadValueRepr(store, entry.value);
              match value { case Err(error) => return Err(error); case Ok(_) => }
              index := Moved(index, 1, args.reverse);
              return Ok(Some(Item(entry.key, value.value)));
            }
            OnlyBeyond(trail, index, args);
            var next, gs := AdvanceLeaf(store, path, args, trail);
            match next { case Err(error) => return Err(error); case Ok(_) => }
            StandsParts(e, keys, next.value.1, next.value.2, args, gs);
            path, index, trail := next.value.1, next.value.2, gs;
            if !next.value.0 {
              NothingPending(e, path, trail, index, args);
              return Ok(None);
            }
        }
      }
    }
  }

  lemma NothingPending(e: Env, path: seq<PathEntry>, fs: seq<Frame>, index: Index, args: ScanArgs)
    requires Trusted(e) && path == PathFor(e, fs) && IndexFits(fs, index, args.reverse) && (path == [] || fs == [])
    ensures PendingOf(fs, index, args.reverse) == []
  {
    assert |PathFor(e, fs)| == |fs|;
  }

  lemma OnlyBeyond(fs: seq<Frame>, index: Index, args: ScanArgs)
    requires IndexFits(fs, index, args.reverse) && InLeaf(fs, index, args.reverse) == []
    ensures PendingOf(fs, index, args.reverse) == Beyond(fs, args.reverse)
  {
    hide InLeaf, Beyond;
    EmptySides(Beyond(fs, args.reverse), Beyond(fs, args.reverse));
  }

  lemma ValidStandsOn(e: Env, keys: set<Hash>, path: seq<PathEntry>, index: Index, args: ScanArgs, fs: seq<Frame>)
    requires Trusted(e) && OnTrail(e, keys, fs) && path == PathFor(e, fs) && IndexFits(fs, index, args.reverse)
    requires path != []
    ensures fs != [] && |path| == |fs| && Last(fs).Leaf? && ItemsHeld(e, keys, Last(fs).items)
    ensures path[|path| - 1].node == LeafNode(0, LeafEntries(e, Last(fs).items))
  {
    hide Trusted, OnTrail, ItemsHeld, ItemsOf, HashOf, NodeOf;
    TopOfPath(e, keys, fs);
    LeafOnTrail(e, keys, fs);
  }
}
