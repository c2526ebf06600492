/** The difference of two roots, computed on the chunk store. */
module Differ {
  import opened Sequences
  import opened Keys
  import opened Items
  import opened Nodes
  import opened Values
  import opened Trees
  import opened Store
  import opened CoreLogic
  import opened Trails
  import opened Prolly
  import opened Diffs

  // ----- a whole subtree, breadth first

  ghost function HashesOf(e: Env, ts: seq<Tree>): (hs: seq<Hash>)
    requires Trusted(e)
    ensures |hs| == |ts|
    ensures forall i :: 0 <= i < |ts| ==> hs[i] == HashOf(e, ts[i])
  {
    seq(|ts|, i requires 0 <= i < |ts| => HashOf(e, ts[i]))
  }

  /** Stored trees of one level. */
  ghost predicate Row(e: Env, keys: set<Hash>, ts: seq<Tree>, level: nat)
    requires Trusted(e)
  {
    forall i :: 0 <= i < |ts| ==> FrameOk(e, keys, ts[i]) && Level(ts[i]) == level
  }

  /** The state of the queue: the rest of one row of the tree, then the children of
      what is done of that row; nothing is reported before the row of the leaves. */
  ghost predicate Queued(e: Env, keys: set<Hash>, queue: seq<Hash>, row: seq<Tree>, below: seq<Tree>, level: nat,
                         d: seq<DiffEntry>, total: seq<DiffEntry>, isAddition: bool)
    requires Trusted(e)
  {
    && queue == HashesOf(e, row) + HashesOf(e, below) && Row(e, keys, row, level)
    && (if level > 0 then Row(e, keys, below, level - 1) && d == [] else below == [])
    && d + AllAs(AllItems(below) + AllItems(row), isAddition) == total
  }

  lemma QueueStarts(e: Env, keys: set<Hash>, t: Tree, isAddition: bool)
    requires Trusted(e) && FrameOk(e, keys, t)
    ensures Queued(e, keys, [HashOf(e, t)], [t], [], Level(t), [], AllAs(ItemsOf(t), isAddition), isAddition)
  {
    hide HashOf, FrameOk, ItemsOf, AllItems;
    AllItemsOne(t);
    AllItemsNone();
  }

  /** A finished row is followed by the one below. */
  lemma RowTurns(e: Env, keys: set<Hash>, queue: seq<Hash>, below: seq<Tree>, level: nat,
                 d: seq<DiffEntry>, total: seq<DiffEntry>, isAddition: bool)
    requires Trusted(e) && Queued(e, keys, queue, [], below, level, d, total, isAddition) && queue != []
    ensures level > 0 && below != [] && Queued(e, keys, queue, below, [], level - 1, d, total, isAddition)
  {
    hide HashOf, FrameOk, ItemsOf, AllItems;
    AllItemsNone();
  }

  lemma QueueEnds(e: Env, keys: set<Hash>, row: seq<Tree>, below: seq<Tree>, level: nat,
                  d: seq<DiffEntry>, total: seq<DiffEntry>, isAddition: bool)
    requires Trusted(e) && Queued(e, keys, [], row, below, level, d, total, isAddition)
    ensures d == total
  {
    hide HashOf, FrameOk, ItemsOf, AllItems;
    AllItemsNone();
    assert |HashesOf(e, row)| == 0 && |HashesOf(e, below)| == 0;
  }

  lemma AllAsTwo(a: seq<Item>, b: seq<Item>, isAddition: bool)
    ensures AllAs(a + b, isAddition) == AllAs(a, isAddition) + AllAs(b, isAddition)
  {
  }

  /** Reporting a leaf. */
  lemma LeafReported(e: Env, keys: set<Hash>, queue: seq<Hash>, row: seq<Tree>, below: seq<Tree>, level: nat,
                     d: seq<DiffEntry>, total: seq<DiffEntry>, isAddition: bool)
    requires Trusted(e) && Queued(e, keys, queue, row, below, level, d, total, isAddition) && row != [] && row[0].Leaf?
    ensures Queued(e, keys, queue[1..], row[1..], below, level, d + AllAs(row[0].items, isAddition), total, isAddition)
  {
    hide HashOf, FrameOk, AllItems, AllAs, HashesOf, Row;
    RowTail(e, keys, row, below, level);
    AllItemsHead(row);
    AllItemsNone();
    var s, rest := row[0].items, AllItems(row[1..]);
    EmptySides(rest, s + rest);
    EmptySides(s, rest);
    AllAsTwo(s, rest, isAddition);
    Associative(d, AllAs(s, isAddition), AllAs(rest, isAddition));
  }

  lemma RowTail(e: Env, keys: set<Hash>, row: seq<Tree>, below: seq<Tree>, level: nat)
    requires Trusted(e) && Row(e, keys, row, level) && row != []
    ensures Row(e, keys, row[1..], level) && Level(row[0]) == level && FrameOk(e, keys, row[0])
    ensures (HashesOf(e, row) + HashesOf(e, below))[1..] == HashesOf(e, row[1..]) + HashesOf(e, below)
    ensures row[0].Leaf? ==> level == 0
    ensures row[0].Branch? ==> level > 0 && Row(e, keys, row[0].kids, level - 1)
  {
    hide HashOf, FrameOk;
    assert HashesOf(e, row)[1..] == HashesOf(e, row[1..]);
    assert HashesOf(e, row) == [HashesOf(e, row)[0]] + HashesOf(e, row)[1..];
    if row[0].Branch? { RowKids(e, keys, row[0]); }
  }

  lemma RowsJoin(e: Env, keys: set<Hash>, a: seq<Tree>, b: seq<Tree>, level: nat)
    requires Trusted(e) && Row(e, keys, a, level) && Row(e, keys, b, level)
    ensures Row(e, keys, a + b, level) && HashesOf(e, a + b) == HashesOf(e, a) + HashesOf(e, b)
  {
    hide HashOf, FrameOk;
  }

  /** Queueing the children of a branch. */
  lemma BranchQueued(e: Env, keys: set<Hash>, queue: seq<Hash>, row: seq<Tree>, below: seq<Tree>, level: nat,
                     d: seq<DiffEntry>, total: seq<DiffEntry>, isAddition: bool)
    requires Trusted(e) && Queued(e, keys, queue, row, below, level, d, total, isAddition) && row != []
    requires row[0].Branch?
    ensures Queued(e, keys, queue[1..] + HashesOf(e, row[0].kids), row[1..], below + row[0].kids, level, d, total, isAddition)
  {
    hide HashOf, FrameOk, AllItems, AllAs, HashesOf, Row;
    RowTail(e, keys, row, below, level);
    RowsJoin(e, keys, below, row[0].kids, level - 1);
    AllItemsHead(row);
    AllItemsAppend(below, row[0].kids);
    Associative(AllItems(below), AllItems(row[0].kids), AllItems(row[1..]));
    Associative(HashesOf(e, row[1..]), HashesOf(e, below), HashesOf(e, row[0].kids));
  }

  lemma RowKids(e: Env, keys: set<Hash>, t: Tree)
    requires Trusted(e) && FrameOk(e, keys, t) && t.Branch?
    ensures t.level > 0 && Row(e, keys, t.kids, t.level - 1)
  {
    hide HashOf, AllItems, Held, Inner;
    KidsInner(e.config, t);
    forall i | 0 <= i < |t.kids|
      ensures FrameOk(e, keys, t.kids[i])
    {
      KidFrame(e, keys, t, i);
    }
  }

  /** A stored tree loads as its node. */
  lemma Loads(e: Env, data: Chunks, t: Tree)
    requires Trusted(e) && Consistent(e, data) && FrameOk(e, data.Keys, t)
    ensures HashOf(e, t) in data && e.decode(data[HashOf(e, t)]) == Some(NodeOf(e, t))
    ensures t.Leaf? ==> NodeOf(e, t) == LeafNode(0, LeafEntries(e, t.items)) && ItemsHeld(e, data.Keys, t.items)
    ensures t.Branch? ==> NodeOf(e, t) == InternalNode(t.level, Entries(e, t.kids)) && t.level > 0 && t.kids != []
    ensures t.Branch? ==> Row(e, data.Keys, t.kids, t.level - 1)
  {
    hide AllItems, Trusted, Consistent, HashOf, ItemsHeld, Row, Inner, AllInner;
    FrameLoads(e, data, t);
    HeldBelow(e, data.Keys, t);
    if t.Leaf? { LeafHeld(e, data.Keys, t); } else { RowKids(e, data.Keys, t); }
  }

  /** The children's hashes go to the back of the queue. */
  method PushChildren(queue: seq<Hash>, children: seq<InternalEntry>) returns (queue': seq<Hash>)
    ensures |queue'| == |queue| + |children| && queue'[..|queue|] == queue
    ensures forall i :: 0 <= i < |children| ==> queue'[|queue| + i] == children[i].childHash
  {
    queue' := queue;
    for i := 0 to |children|
      invariant |queue'| == |queue| + i && queue'[..|queue|] == queue
      invariant forall j :: 0 <= j < i ==> queue'[|queue| + j] == children[j].childHash
    {
      queue' := queue' + [children[i].childHash];
    }
  }

  lemma Pushed(e: Env, queue: seq<Hash>, kids: seq<Tree>, queue': seq<Hash>)
    requires Trusted(e)
    requires |queue'| == |queue| + |kids| && queue'[..|queue|] == queue
    requires forall i :: 0 <= i < |kids| ==> queue'[|queue| + i] == Entries(e, kids)[i].childHash
    ensures queue' == queue + HashesOf(e, kids)
  {
    hide HashOf, MaxKey, Count, Trusted;
    assert queue' == queue'[..|queue|] + queue'[|queue|..];
    forall i | 0 <= i < |kids|
      ensures queue'[|queue| + i] == HashOf(e, kids[i])
    {
      assert Entries(e, kids)[i] == EntryOf(e, kids[i]);
    }
  }

  /** The entries of a leaf, all as additions or all as deletions. */
  method ReportLeaf(store: InMemoryStore, entries: seq<LeafEntry>, isAddition: bool, ghost items: seq<Item>)
    returns (r: Result<seq<DiffEntry>>)
    requires Trusted(store.e) && Consistent(store.e, store.data)
    requires entries == LeafEntries(store.e, items) && ItemsHeld(store.e, store.data.Keys, items)
    ensures r == Ok(AllAs(items, isAddition))
  {
    hide Trusted, Consistent, ReprOf, ItemsHeld, LoadValue;
    var diffs := [];
    for i := 0 to |entries|
      invariant diffs == AllAs(items[..i], isAddition)
    {
      HeldValueLoads(store.e, store.data, items, items[i]);
      var value := LoadValueRepr(store, entries[i].value);
      match value { case Err(error) => return Err(error); case Ok(_) => }
      assert items[..i + 1] == items[..i] + [items[i]];
      var item := Item(entries[i].key, value.value);
      diffs := diffs + [if isAddition then AsAddition(item) else AsDeletion(item)];
    }
    assert items[..|entries|] == items;
    return Ok(diffs);
  }

  /** `generate_diffs_for_subtree`: although it goes breadth first, the entries come
      out in key order, because all leaves are on one level. */
  method GenerateDiffs(store: InMemoryStore, rootHash: Hash, isAddition: bool, ghost t: Tree)
    returns (r: Result<seq<DiffEntry>>)
    requires Trusted(store.e) && Consistent(store.e, store.data)
    requires rootHash == HashOf(store.e, t) && FrameOk(store.e, store.data.Keys, t)
    ensures r == Ok(AllAs(ItemsOf(t), isAddition))
  {
    hide *;
    ghost var e, keys, total := store.e, store.data.Keys, AllAs(ItemsOf(t), isAddition);
    var diffs: seq<DiffEntry>, queue := [], [rootHash];
    ghost var row, below, level := [t], [], Level(t);
    QueueStarts(e, keys, t, isAddition);
    while |queue| > 0
      invariant Queued(e, keys, queue, row, below, level, diffs, total, isAddition)
      decreases level, |row|
    {
      if row == [] {
        RowTurns(e, keys, queue, below, level, diffs, total, isAddition);
        row, below, level := below, [], level - 1;
      }
      FrontOfQueue(e, store.data, queue, row, below, level, diffs, total, isAddition);
      Loads(e, store.data, row[0]);
      var hash := queue[0];
      queue := queue[1..];
      var node := LoadNode(store, hash);
      match node {
        case Err(error) => return Err(error);
        case Ok(LeafNode(_, entries)) =>
          var reported := ReportLeaf(store, entries, isAddition, row[0].items);
          match reported { case Err(error) => return Err(error); case Ok(_) => }
          LeafReported(e, keys, [hash] + queue, row, below, level, diffs, total, isAddition);
          diffs := diffs + reported.value;
          row := row[1..];
        case Ok(InternalNode(_, children)) =>
          BranchQueued(e, keys, [hash] + queue, row, below, level, diffs, total, isAddition);
          var queue' := PushChildren(queue, children);
          Pushed(e, queue, row[0].kids, queue');
          queue := queue';
          row, below := row[1..], below + row[0].kids;
      }
    }
    QueueEnds(e, keys, row, below, level, diffs, total, isAddition);
    return Ok(diffs);
  }

  lemma FrontOfQueue(e: Env, data: Chunks, queue: seq<Hash>, row: seq<Tree>, below: seq<Tree>, level: nat,
                     d: seq<DiffEntry>, total: seq<DiffEntry>, isAddition: bool)
    requires Trusted(e) && Queued(e, data.Keys, queue, row, below, level, d, total, isAddition) && row != []
    ensures queue != [] && queue[0] == HashOf(e, row[0]) && FrameOk(e, data.Keys, row[0])
    ensures queue == [queue[0]] + queue[1..] && ([queue[0]] + queue[1..])[1..] == queue[1..]
  {
    hide HashOf, FrameOk, AllItems, AllAs;
  }

  // ----- the recursion

  /** `load_node_for_diff` on both leaves, merged by key. */
  method DiffLeaves(store: InMemoryStore, entries1: seq<LeafEntry>, entries2: seq<LeafEntry>,
                    ghost a: seq<Item>, ghost b: seq<Item>)
    returns (r: Result<seq<DiffEntry>>)
    requires Trusted(store.e) && Consistent(store.e, store.data)
    requires entries1 == LeafEntries(store.e, a) && ItemsHeld(store.e, store.data.Keys, a)
    requires entries2 == LeafEntries(store.e, b) && ItemsHeld(store.e, store.data.Keys, b)
    ensures r == Ok(MergeDiff(a, b))
  {
    hide Trusted, Consistent, ReprOf, ItemsHeld, LoadValue, MergeDiff;
    var diffs: seq<DiffEntry>, i, j := [], 0, 0;
    while i < |entries1| || j < |entries2|
      invariant i <= |a| && j <= |b|
      invariant diffs + MergeDiff(a[i..], b[j..]) == MergeDiff(a, b)
      decreases |a| - i + |b| - j
    {
      TailAt(a, i);
      TailAt(b, j);
      MergeStep(diffs, a[i..], b[j..]);
      if j == |entries2| || (i < |entries1| && KeyLess(entries1[i].key, entries2[j].key)) {
        HeldValueLoads(store.e, store.data, a, a[i]);
        var value := LoadValueRepr(store, entries1[i].value);
        match value { case Err(error) => return Err(error); case Ok(_) => }
        diffs := diffs + [AsDeletion(Item(entries1[i].key, value.value))];
        i := i + 1;
      } else if i == |entries1| || KeyLess(entries2[j].key, entries1[i].key) {
        HeldValueLoads(store.e, store.data, b, b[j]);
        var value := LoadValueRepr(store, entries2[j].value);
        match value { case Err(error) => return Err(error); case Ok(_) => }
        diffs := diffs + [AsAddition(Item(entries2[j].key, value.value))];
        j := j + 1;
      } else {
        HeldValueLoads(store.e, store.data, a, a[i]);
        HeldValueLoads(store.e, store.data, b, b[j]);
        var value1 := LoadValueRepr(store, entries1[i].value);
        match value1 { case Err(error) => return Err(error); case Ok(_) => }
        var value2 := LoadValueRepr(store, entries2[j].value);
        match value2 { case Err(error) => return Err(error); case Ok(_) => }
        if value1.value != value2.value {
          diffs := diffs + [AsModification(entries1[i].key, value1.value, value2.value)];
        }
        i, j := i + 1, j + 1;
      }
    }
    MergeStep(diffs, a[i..], b[j..]);
    return Ok(diffs);
  }

  /** What one step of the merge adds to the entries so far. */
  lemma MergeStep(d: seq<DiffEntry>, a: seq<Item>, b: seq<Item>)
    ensures a == [] && b == [] ==> d + MergeDiff(a, b) == d
    ensures a != [] && (b == [] || KeyLess(a[0].key, b[0].key)) ==>
              d + MergeDiff(a, b) == d + [AsDeletion(a[0])] + MergeDiff(a[1..], b)
    ensures b != [] && (a == [] || KeyLess(b[0].key, a[0].key)) ==>
              d + MergeDiff(a, b) == d + [AsAddition(b[0])] + MergeDiff(a, b[1..])
    ensures a != [] && b != [] && !KeyLess(a[0].key, b[0].key) && !KeyLess(b[0].key, a[0].key) ==>
              d + MergeDiff(a, b) ==
                (if a[0].value != b[0].value then d + [AsModification(a[0].key, a[0].value, b[0].value)] else d)
                + MergeDiff(a[1..], b[1..])
  {
    if a != [] { Associative(d, [AsDeletion(a[0])], MergeDiff(a[1..], b)); }
    if b != [] { Associative(d, [AsAddition(b[0])], MergeDiff(a, b[1..])); }
    if a != [] && b != [] {
      Associative(d, HeadDiff(a[0], b[0]), MergeDiff(a[1..], b[1..]));
      EmptySides(d, MergeDiff(a[1..], b[1..]));
    }
  }

  /** A stored root, or none. */
  ghost predicate Stored(e: Env, keys: set<Hash>, hash: Option<Hash>, t: Option<Tree>)
    requires Trusted(e)
  {
    match t
    case None => hash == None
    case Some(u) => hash == Some(HashOf(e, u)) && FrameOk(e, keys, u)
  }

  ghost function Height(t: Option<Tree>): nat {
    if t.None? then 0 else Level(t.value) + 1
  }

  /** `recursive_diff` refines the difference of the two trees. */
  method RecursiveDiff(store: InMemoryStore, leftHash: Option<Hash>, rightHash: Option<Hash>,
                       ghost t: Option<Tree>, ghost u: Option<Tree>)
    returns (r: Result<seq<DiffEntry>>)
    requires Trusted(store.e) && Consistent(store.e, store.data)
    requires Stored(store.e, store.data.Keys, leftHash, t) && Stored(store.e, store.data.Keys, rightHash, u)
    ensures r == Ok(DiffRoots(t, u))
    decreases Height(t) + Height(u), 1
  {
    hide Trusted, Consistent, HashOf, FrameOk, AllItems, AllAs, MergeDiff, DiffChildren, ItemsOf, Row;
    ghost var e, data := store.e, store.data;
    SameRoots(e, data.Keys, leftHash, rightHash, t, u);
    if leftHash == rightHash { return Ok([]); }
    if leftHash.None? {
      r := GenerateDiffs(store, rightHash.value, true, u.value);
      return;
    }
    if rightHash.None? {
      r := GenerateDiffs(store, leftHash.value, false, t.value);
      return;
    }
    Loads(e, data, t.value);
    Loads(e, data, u.value);
    var node1 := LoadNode(store, leftHash.value);
    match node1 { case Err(error) => return Err(error); case Ok(_) => }
    var node2 := LoadNode(store, rightHash.value);
    match node2 { case Err(error) => return Err(error); case Ok(_) => }
    match (node1.value, node2.value) {
      case (LeafNode(_, entries1), LeafNode(_, entries2)) =>
        r := DiffLeaves(store, entries1, entries2, t.value.items, u.value.items);
      case (InternalNode(l1, children1), InternalNode(l2, children2)) =>
        if l1 != l2 {
          r := DeleteAndAdd(store, leftHash.value, rightHash.value, t.value, u.value);
        } else {
          r := DiffChildNodes(store, children1, children2, t.value.kids, u.value.kids, l1 - 1);
        }
      case (_, _) =>
        r := DeleteAndAdd(store, leftHash.value, rightHash.value, t.value, u.value);
    }
  }

  lemma SameRoots(e: Env, keys: set<Hash>, leftHash: Option<Hash>, rightHash: Option<Hash>, t: Option<Tree>,
                  u: Option<Tree>)
    requires Trusted(e) && Stored(e, keys, leftHash, t) && Stored(e, keys, rightHash, u)
    ensures leftHash == rightHash <==> t == u
  {
    hide Trusted, HashOf, FrameOk;
    if leftHash == rightHash && t.Some? { HashOfInjective(e, t.value, u.value); }
  }

  method DeleteAndAdd(store: InMemoryStore, h1: Hash, h2: Hash, ghost t: Tree,
                      ghost u: Tree) returns (r: Result<seq<DiffEntry>>)
    requires Trusted(store.e) && Consistent(store.e, store.data)
    requires h1 == HashOf(store.e, t) && FrameOk(store.e, store.data.Keys, t)
    requires h2 == HashOf(store.e, u) && FrameOk(store.e, store.data.Keys, u)
    ensures r == Ok(AllAs(ItemsOf(t), false) + AllAs(ItemsOf(u), true))
  {
    hide *;
    var deletions := GenerateDiffs(store, h1, false, t);
    match deletions { case Err(error) => return Err(error); case Ok(_) => }
    var additions := GenerateDiffs(store, h2, true, u);
    match additions { case Err(error) => return Err(error); case Ok(_) => }
    return Ok(deletions.value + additions.value);
  }

  /** The children of two branches of one level, merged by their boundary keys. The
      recursive calls, which the source runs concurrently, are made in order. */
  method DiffChildNodes(store: InMemoryStore, children1: seq<InternalEntry>, children2: seq<InternalEntry>,
                        ghost xs: seq<Tree>, ghost ys: seq<Tree>, ghost level: nat)
    returns (r: Result<seq<DiffEntry>>)
    requires Trusted(store.e) && Consistent(store.e, store.data)
    requires children1 == Entries(store.e, xs) && Row(store.e, store.data.Keys, xs, level)
    requires children2 == Entries(store.e, ys) && Row(store.e, store.data.Keys, ys, level)
    ensures r == Ok(DiffChildren(xs, ys))
    decreases 2 * (level + 2), 0
  {
    hide Trusted, Consistent, HashOf, FrameOk, AllItems, AllAs, DiffChildren, DiffTrees, ItemsOf, MaxKey, Row, Entries;
    ghost var e, keys := store.e, store.data.Keys;
    var diffs: seq<DiffEntry>, i, j := [], 0, 0;
    while i < |children1| || j < |children2|
      invariant i <= |xs| && j <= |ys|
      invariant diffs + DiffChildren(xs[i..], ys[j..]) == DiffChildren(xs, ys)
      decreases |xs| - i + |ys| - j
    {
      TailAt(xs, i);
      TailAt(ys, j);
      ChildStep(diffs, xs[i..], ys[j..]);
      if i < |children1| { ChildAt(e, keys, xs, level, i); }
      if j < |children2| { ChildAt(e, keys, ys, level, j); }
      var part: Result<seq<DiffEntry>>;
      if j == |children2| || (i < |children1| && KeyLess(children1[i].boundaryKey, children2[j].boundaryKey)) {
        part := RecursiveDiff(store, Some(children1[i].childHash), None, Some(xs[i]), None);
        i := i + 1;
      } else if i == |children1| || KeyLess(children2[j].boundaryKey, children1[i].boundaryKey) {
        part := RecursiveDiff(store, None, Some(children2[j].childHash), None, Some(ys[j]));
        j := j + 1;
      } else {
        SameRoots(e, keys, Some(children1[i].childHash), Some(children2[j].childHash), Some(xs[i]), Some(ys[j]));
        part := Ok([]);
        if children1[i].childHash != children2[j].childHash {
          part := RecursiveDiff(store, Some(children1[i].childHash), Some(children2[j].childHash), Some(xs[i]), Some(ys[j]));
        }
        i, j := i + 1, j + 1;
      }
      match part { case Err(error) => return Err(error); case Ok(_) => }
      diffs := diffs + part.value;
    }
    ChildStep(diffs, xs[i..], ys[j..]);
    return Ok(diffs);
  }

  lemma ChildAt(e: Env, keys: set<Hash>, kids: seq<Tree>, level: nat, i: nat)
    requires Trusted(e) && Row(e, keys, kids, level) && i < |kids|
    ensures Entries(e, kids)[i].boundaryKey == MaxKey(kids[i]) && Entries(e, kids)[i].childHash == HashOf(e, kids[i])
    ensures FrameOk(e, keys, kids[i]) && Level(kids[i]) == level
  {
    hide Trusted, HashOf, FrameOk, MaxKey, Count;
    assert Entries(e, kids)[i] == EntryOf(e, kids[i]);
  }

  /** What one step of the child merge adds to the entries so far. */
  lemma ChildStep(d: seq<DiffEntry>, xs: seq<Tree>, ys: seq<Tree>)
    ensures xs == [] && ys == [] ==> d + DiffChildren(xs, ys) == d
    ensures xs != [] && (ys == [] || KeyLess(MaxKey(xs[0]), MaxKey(ys[0]))) ==>
              d + DiffChildren(xs, ys) == d + DiffRoots(Some(xs[0]), None) + DiffChildren(xs[1..], ys)
    ensures ys != [] && (xs == [] || KeyLess(MaxKey(ys[0]), MaxKey(xs[0]))) ==>
              d + DiffChildren(xs, ys) == d + DiffRoots(None, Some(ys[0])) + DiffChildren(xs, ys[1..])
    ensures xs != [] && ys != [] && !KeyLess(MaxKey(xs[0]), MaxKey(ys[0])) && !KeyLess(MaxKey(ys[0]), MaxKey(xs[0])) ==>
              d + DiffChildren(xs, ys) == d + DiffRoots(Some(xs[0]), Some(ys[0])) + DiffChildren(xs[1..], ys[1..])
  {
    hide MaxKey, ItemsOf, AllAs, KeyLess;
    if xs != [] { Associative(d, DiffRoots(Some(xs[0]), None), DiffChildren(xs[1..], ys)); }
    if ys != [] { Associative(d, DiffRoots(None, Some(ys[0])), DiffChildren(xs, ys[1..])); }
    if xs != [] && ys != [] { Associative(d, DiffRoots(Some(xs[0]), Some(ys[0])), DiffChildren(xs[1..], ys[1..])); }
  }

  /** `diff`: from this tree to another root in the same store. */
  method Diff(tree: ProllyTree, otherRootHash: Option<Hash>,
              ghost other: Option<Tree>) returns (r: Result<seq<DiffEntry>>)
    requires tree.Valid() && Denotes(tree.store.e, tree.store.data, otherRootHash, other)
    ensures r == Ok(DiffRoots(tree.tree, other))
  {
    hide Trusted, Consistent, HashOf, Held, DiffRoots, Body, Sorted;
    r := RecursiveDiff(tree.store, tree.rootHash, otherRootHash, tree.tree, other);
  }
}
