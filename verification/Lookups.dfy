/** Three ways to a key: `get`, a seek with the plain cursor, and a range scan. */
module Lookups {
  import opened Keys
  import opened Items
  import opened Nodes
  import opened Trees
  import opened Insertion
  import opened Store
  import opened CoreLogic
  import opened Trails
  import opened Scans
  import opened Prolly
  import opened Cursors
  import opened Pages

  /** A forward scan of everything; the plain `next` of a cursor is its step. */
  function FullScan(): ScanArgs {
    ScanArgs(None, None, true, true, false, 0, None)
  }

  function AtKey(key: Key): ScanArgs {
    FullScan().(startBound := Some(key))
  }

  function OnlyKey(key: Key): ScanArgs {
    AtKey(key).(endBound := Some(key))
  }

  /** The descent of `new_at_key`: the child is found by running along the
      boundaries, as in `get`, not by binary search. */
  method SeekKey(store: InMemoryStore, rootHash: Hash, key: Key, ghost t: Tree)
    returns (r: Result<seq<PathEntry>>, ghost fs: seq<Frame>)
    requires Trusted(store.e) && Enters(store.e, store.data, rootHash, t)
    ensures r == Ok(PathFor(store.e, fs)) && r.value != []
    ensures r.value[|r.value| - 1].node == NodeOf(store.e, SeekLeaf(t, key))
    ensures fs != [] && OnTrail(store.e, store.data.Keys, fs) && fs[0].tree == t && Last(fs).Leaf?
    ensures Last(fs) == SeekLeaf(t, key) && Sorted(ItemsOf(Last(fs)))
    ensures AllBelow(Before(fs), key) && AllAbove(After(fs), key)
  {
    hide Trusted, HashOf, AllItems, OnTrail, ItemsOf, Before, After, Consistent, PathFor, Down, Held, Body, Sorted, Find,
      Route, LowerBound, AllBelow, AllAbove, SeekLeaf, Enters, Ascending, MaxKeys;
    ghost var e := store.e;
    fs := [Frame(t, 0)];
    RootTrail(e, store.data, rootHash, t, key);
    var loaded := LoadNode(store, rootHash);
    match loaded { case Err(error) => r := Err(error); return; case Ok(_) => }
    var node := loaded.value;
    var path := [PathEntry(rootHash, node, Max)];
    while node.InternalNode?
      invariant fs != [] && OnTrail(e, store.data.Keys, fs) && path == PathFor(e, fs) && fs[0].tree == t
      invariant node == NodeOf(e, Last(fs)) && SeekLeaf(Last(fs), key) == SeekLeaf(t, key)
      invariant Sorted(ItemsOf(Last(fs))) && AllBelow(Before(fs), key) && AllAbove(After(fs), key)
      decreases Last(fs)
    {
      TopOfPath(e, store.data.Keys, fs);
      FrameLoads(e, store.data, Last(fs));
      if |node.children| == 0 { r := Err(InternalError); return; }
      ghost var kids := Last(fs).kids;
      DownRoute(e, store.data.Keys, fs, key);
      var i := FindChild(node.children, key);
      RouteIs(e, kids, key, i);
      DownOnTrail(e, store.data.Keys, fs, i);
      KidFrame(e, store.data.Keys, Last(fs), i);
      FrameLoads(e, store.data, kids[i]);
      DownLast(fs, i);
      var child := LoadNode(store, node.children[i].childHash);
      match child { case Err(error) => r := Err(error); return; case Ok(_) => }
      path := path + [PathEntry(node.children[i].childHash, child.value, At(i))];
      node := child.value;
      fs := Down(fs, i);
    }
    SeekLeafOfLeaf(Last(fs), key);
    TopOfPath(e, store.data.Keys, fs);
    r := Ok(path);
  }

  /** `new_at_key`: a plain cursor ahead of the first item that is not below the
      key. */
  method NewAtKey(tree: ProllyTree, key: Key) returns (r: Result<Cursor>)
    requires tree.Valid()
    ensures r.Ok? && fresh(r.value) && r.value.store == tree.store && r.value.Valid(FullScan())
    ensures r.value.Pending(FullScan()) == From(ItemsIn(tree.tree), AtKey(key), false)
  {
    hide Trusted, Consistent, HashOf, AllItems, From, StartsInGap, PathFor, OnTrail, InLeaf, Beyond, Held, WellFormed, Enters,
      RootShape, Sorted, LowerBound, Find, AllBelow, AllAbove, SeekLeaf, Stands, PastStart, EntryKeys, LeafEntries;
    ghost var e, data := tree.store.e, tree.store.data;
    if tree.rootHash.None? {
      EmptyTrail(e, data.Keys);
      FromNothing(AtKey(key));
      NothingPending(e, [], [], At(0), FullScan());
      var empty := new Cursor(tree.store, [], At(0), []);
      return Ok(empty);
    }
    DenotesEnters(e, data, tree.rootHash, tree.tree);
    var sought, fs := SeekKey(tree.store, tree.rootHash.value, key, tree.tree.value);
    match sought { case Err(error) => return Err(error); case Ok(_) => }
    TopOfPath(e, data.Keys, fs);
    LeafOnTrail(e, data.Keys, fs);
    var path := sought.value;
    var _, index := BinarySearch(EntryKeys(path[|path| - 1].node.entries), key);
    BoundPosition(e, data.Keys, fs, tree.tree.value, AtKey(key), index);
    ForwardHasNoGap(tree.tree.value, AtKey(key));
    var cursor := new Cursor(tree.store, path, At(index), fs);
    return Ok(cursor);
  }

  lemma FromNothing(args: ScanArgs)
    ensures From([], args, false) == []
  {
  }

  lemma ForwardHasNoGap(t: Tree, args: ScanArgs)
    requires !args.reverse
    ensures !StartsInGap(t, args)
  {
  }

  /** The plain cursor's next item; none at the end. */
  method Next(cursor: Cursor) returns (r: Result<Option<Item>>)
    requires cursor.Valid(FullScan())
    modifies cursor
    ensures cursor.Valid(FullScan())
    ensures var pending := old(cursor.Pending(FullScan()));
            if pending == [] then r == Ok(None) && cursor.Pending(FullScan()) == []
            else r == Ok(Some(pending[0])) && cursor.Pending(FullScan()) == pending[1..]
  {
    r := cursor.NextInScan(FullScan());
  }

  /** What a seek has ahead of it: the items from the first one on that is not below the
      key, and all of them. */
  lemma SeekIs(items: seq<Item>, key: Key)
    requires Sorted(items)
    ensures var ahead := From(items, AtKey(key), false);
            && |ahead| <= |items| && ahead == items[|items| - |ahead|..]
            && (forall i :: 0 <= i < |items| - |ahead| ==> KeyLess(items[i].key, key))
            && (forall i :: 0 <= i < |ahead| ==> KeyLeq(key, ahead[i].key))
  {
    hide Find, From, LowerBound, Sorted;
    var a, m, c := CutAt(items, key);
    OnCut(items, key, a, m, c, []);
    FromCut(items, AtKey(key), a, m, c);
    SeekCut(items, a, m, c, key);
  }

  lemma SeekCut(items: seq<Item>, a: seq<Item>, m: seq<Item>, c: seq<Item>, key: Key)
    requires Cut(items, key, a, m, c)
    ensures items[|items| - |m + c|..] == m + c
    ensures forall i :: 0 <= i < |items| - |m + c| ==> KeyLess(items[i].key, key)
    ensures forall i :: 0 <= i < |m + c| ==> KeyLeq(key, (m + c)[i].key)
  {
    assert items == a + (m + c);
  }

  /** The first item a seek comes to shows whether the key is there, and its value. */
  lemma SeekShows(items: seq<Item>, key: Key)
    requires Sorted(items)
    ensures var sought := From(items, AtKey(key), false);
            Find(items, key) == if sought != [] && sought[0].key == key then Some(sought[0].value) else None
  {
    hide Find, From, LowerBound, Sorted, AllBelow;
    var a, m, c := CutAt(items, key);
    OnCut(items, key, a, m, c, []);
    FromCut(items, AtKey(key), a, m, c);
    OnlyTheKey(m, c, key);
  }

  /** The scan from a key to itself has the key's item for its only row, if any. */
  lemma ScanShows(items: seq<Item>, key: Key)
    requires Sorted(items)
    ensures Rows(items, OnlyKey(key), false) ==
              match Find(items, key) case None => [] case Some(value) => [Item(key, value)]
  {
    hide Find, From, LowerBound, Sorted, AllBelow, Rows, Upto;
    var a, m, c := CutAt(items, key);
    OnCut(items, key, a, m, c, []);
    FromCut(items, OnlyKey(key), a, m, c);
    OnlyTheKey(m, c, key);
    RowsFrom(items, OnlyKey(key));
  }

  /** A scan of everything has every item for a row. */
  lemma FullScanIsAll(items: seq<Item>)
    ensures Rows(items, FullScan(), false) == items
  {
    hide Rows, Upto;
    RowsFrom(items, FullScan());
    UptoIs(items, FullScan(), |items|);
    assert items[..|items|] == items;
  }

  /** The lookups agree on every tree: a seek followed by `next`, and a scan from the
      key to itself, show exactly what `get` returns; a scan of everything yields as
      many items as the root's counters promise. */
  method LookupsAgree(tree: ProllyTree, key: Key)
    returns (got: Result<Option<Value>>, sought: Result<Option<Item>>, page: Result<ScanPage>,
             all: Result<ScanPage>, count: Result<nat>)
    requires tree.Valid()
    ensures got.Ok? && sought.Ok? && page.Ok? && all.Ok? && count.Ok?
    ensures got.value == if sought.value.Some? && sought.value.value.key == key
                         then Some(sought.value.value.value) else None
    ensures page.value.items == if got.value.None? then [] else [Item(key, got.value.value)]
    ensures all.value.items == ItemsIn(tree.tree) && count.value == |all.value.items|
  {
    hide *;
    TreeLookup(tree, key);
    BothForward(key);
    SeekShows(ItemsIn(tree.tree), key);
    ScanShows(ItemsIn(tree.tree), key);
    FullScanIsAll(ItemsIn(tree.tree));
    got := tree.Get(key);
    var cursor := NewAtKey(tree, key);
    match cursor { case Err(error) => sought := Err(error); return; case Ok(_) => }
    sought := Next(cursor.value);
    page := Scan(tree, OnlyKey(key));
    UnlimitedPage(tree.tree, OnlyKey(key));
    all := Scan(tree, FullScan());
    UnlimitedPage(tree.tree, FullScan());
    count := tree.CountAllItems();
  }

  lemma TreeLookup(tree: ProllyTree, key: Key)
    requires tree.Valid()
    ensures Sorted(ItemsIn(tree.tree))
    ensures Find(ItemsIn(tree.tree), key) == if key in tree.Contents() then Some(tree.Contents()[key]) else None
    ensures |ItemsIn(tree.tree)| == if tree.tree.None? then 0 else |ItemsOf(tree.tree.value)|
  {
    hide Find, ToMap, HashOf, Held, Body, Trusted, Consistent, ItemsOf;
    if tree.tree.None? {
      NotBelow([], key);
    } else {
      MapAt(ItemsOf(tree.tree.value), key);
    }
  }

  lemma BothForward(key: Key)
    ensures !OnlyKey(key).reverse && OnlyKey(key).limit.None? && !FullScan().reverse && FullScan().limit.None?
  {
  }

  /** A forward scan without a limit returns all its rows on one page. */
  lemma UnlimitedPage(t: Option<Tree>, args: ScanArgs)
    requires !args.reverse && args.limit.None?
    ensures !GapIn(t, args) && GapFits(ItemsIn(t), args, GapIn(t, args))
    ensures PageOf(RowsIn(t, args), args).items == Rows(ItemsIn(t), args, false)
  {
    hide Rows, ItemsIn;
  }

  lemma OnlyTheKey(m: seq<Item>, c: seq<Item>, key: Key)
    requires |m| <= 1 && (m != [] ==> m[0].key == key) && AllAbove(c, key)
    ensures Upto(m + c, OnlyKey(key)) == m
    ensures m + c != [] && (m + c)[0].key == key <==> m != []
  {
    var args := OnlyKey(key);
    UptoIs(m + c, args, |m|);
    assert (m + c)[..|m|] == m;
    if m == [] && c != [] { assert (m + c)[0] == c[0]; }
  }

  lemma RowsFrom(items: seq<Item>, args: ScanArgs)
    requires args.offset == 0 && args.startInclusive && !args.reverse
    ensures Rows(items, args, false) == Upto(From(items, args, false), args)
    ensures args.startBound.None? ==> From(items, args, false) == items
  {
    hide LowerBound, Upto;
    assert From(items, args, false)[0..] == From(items, args, false);
  }
}
