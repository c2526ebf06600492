/** When a difference is exact: trees with the same skeleton, and what a sequence of
    overwrites does to it. */
module ExactDiffs {
  import opened Sequences
  import opened Keys
  import opened Items
  import opened Nodes
  import opened Trees
  import opened Insertion
  import opened Diffs

  // ----- the merge of two leaves is the difference of two maps

  lemma MergeLeft(a: seq<Item>, b: seq<Item>)
    requires a != [] && (b == [] || KeyLess(a[0].key, b[0].key))
    ensures MergeDiff(a, b) == [AsDeletion(a[0])] + MergeDiff(a[1..], b)
  {
  }

  lemma MergeRight(a: seq<Item>, b: seq<Item>)
    requires b != [] && (a == [] || KeyLess(b[0].key, a[0].key))
    ensures MergeDiff(a, b) == [AsAddition(b[0])] + MergeDiff(a, b[1..])
  {
  }

  lemma MergeBoth(a: seq<Item>, b: seq<Item>)
    requires a != [] && b != [] && a[0].key == b[0].key
    ensures MergeDiff(a, b) == HeadDiff(a[0], b[0]) + MergeDiff(a[1..], b[1..])
  {
  }

  /** A change of the maps behind two item sequences: the value, or its absence, on
      the left and on the right, when they differ. */
  ghost predicate IsChange(a: seq<Item>, b: seq<Item>, e: DiffEntry) {
    e.leftValue == Find(a, e.key) && e.rightValue == Find(b, e.key) && e.leftValue != e.rightValue
  }

  ghost predicate KeysAscending(d: seq<DiffEntry>) {
    forall i, j :: 0 <= i < j < |d| ==> Pos(d[i].key) < Pos(d[j].key)
  }

  /** Exactly the changes, each once, in key order. */
  ghost predicate IsMapDiff(a: seq<Item>, b: seq<Item>, d: seq<DiffEntry>) {
    KeysAscending(d) && forall e :: e in d <==> IsChange(a, b, e)
  }

  /** `s` is `s'` and possibly the key `k` before it. */
  ghost predicate Leads(s: seq<Item>, k: Key, s': seq<Item>) {
    forall j :: (j != k ==> Find(s, j) == Find(s', j)) && (Pos(j) <= Pos(k) ==> Find(s', j) == None)
  }

  lemma HeadLeads(s: seq<Item>)
    requires Sorted(s) && s != []
    ensures Sorted(s[1..]) && Leads(s, s[0].key, s[1..]) && Find(s, s[0].key) == Some(s[0].value)
  {
    hide Find, Sorted;
    HeadTail(s);
    SortedParts([s[0]], s[1..]);
    EmptyFront(s[0], s[1..]);
    OnCut(s, s[0].key, [], [s[0]], s[1..], []);
    forall j
      ensures j != s[0].key ==> Find(s, j) == Find(s[1..], j)
      ensures Pos(j) <= Pos(s[0].key) ==> Find(s[1..], j) == None
    {
      if j != s[0].key { FindBeside([], [s[0]], s[1..], s[0].key, j); }
      if Pos(j) <= Pos(s[0].key) { NotBelow(s[1..], j); NotBelow([], j); }
    }
  }

  lemma EmptyFront(x: Item, s: seq<Item>)
    ensures [] + [x] + s == [x] + s
  {
  }

  lemma AboveLeads(s: seq<Item>, k: Key)
    requires Sorted(s) && (s != [] ==> Pos(k) < Pos(s[0].key))
    ensures Leads(s, k, s) && Find(s, k) == None
  {
    hide Find;
    forall j | Pos(j) <= Pos(k)
      ensures Find(s, j) == None
    {
      NotBelow(s, j);
    }
  }

  /** One step of the merge: `k` is the next key. */
  lemma StepIsChange(a: seq<Item>, b: seq<Item>, k: Key, a': seq<Item>, b': seq<Item>, head: seq<DiffEntry>,
                     d: seq<DiffEntry>)
    requires Leads(a, k, a') && Leads(b, k, b') && IsMapDiff(a', b', d)
    requires head == if Find(a, k) == Find(b, k) then [] else [DiffEntry(k, Find(a, k), Find(b, k))]
    ensures IsMapDiff(a, b, head + d)
  {
    hide Find;
    forall e
      ensures e in head + d <==> IsChange(a, b, e)
    {
      if e.key == k { assert e in d ==> IsChange(a', b', e); }
    }
    forall i | 0 <= i < |d|
      ensures Pos(k) < Pos(d[i].key)
    {
      assert IsChange(a', b', d[i]);
    }
  }

  /** The merge of two sorted leaves is exactly the key-sorted difference of their
      maps. */
  lemma {:induction false} MergeIsMapDiff(a: seq<Item>, b: seq<Item>)
    requires Sorted(a) && Sorted(b)
    ensures IsMapDiff(a, b, MergeDiff(a, b))
    decreases |a| + |b|
  {
    hide Find, Sorted, MergeDiff, IsMapDiff, Leads;
    if a == [] && b == [] {
      NothingChanged(a);
    } else if b == [] || (a != [] && KeyLess(a[0].key, b[0].key)) {
      MergeLeft(a, b);
      HeadLeads(a);
      AboveLeads(b, a[0].key);
      MergeIsMapDiff(a[1..], b);
      StepIsChange(a, b, a[0].key, a[1..], b, [AsDeletion(a[0])], MergeDiff(a[1..], b));
    } else if a == [] || KeyLess(b[0].key, a[0].key) {
      MergeRight(a, b);
      HeadLeads(b);
      AboveLeads(a, b[0].key);
      MergeIsMapDiff(a, b[1..]);
      StepIsChange(a, b, b[0].key, a, b[1..], [AsAddition(b[0])], MergeDiff(a, b[1..]));
    } else {
      SameKey(a[0].key, b[0].key);
      MergeBoth(a, b);
      HeadLeads(a);
      HeadLeads(b);
      MergeIsMapDiff(a[1..], b[1..]);
      StepIsChange(a, b, a[0].key, a[1..], b[1..], HeadDiff(a[0], b[0]), MergeDiff(a[1..], b[1..]));
    }
  }

  /** Nothing is reported for equal leaves. */
  lemma {:induction false} NothingChanged(a: seq<Item>)
    ensures MergeDiff(a, a) == []
    ensures IsMapDiff(a, a, [])
    decreases |a|
  {
    hide Find;
    if a != [] {
      NothingChanged(a[1..]);
      MergeBoth(a, a);
    }
  }

  // ----- merging piece by piece

  ghost predicate AtMost(s: seq<Item>, k: Key) {
    forall i :: 0 <= i < |s| ==> Pos(s[i].key) <= Pos(k)
  }

  /** Two sequences that are cut at the same key merge piece by piece. */
  lemma {:induction false} MergeSplits(a: seq<Item>, b: seq<Item>, c: seq<Item>, d: seq<Item>, k: Key)
    requires AtMost(a, k) && AtMost(b, k) && AllAbove(c, k) && AllAbove(d, k)
    ensures MergeDiff(a + c, b + d) == MergeDiff(a, b) + MergeDiff(c, d)
    decreases |a| + |b|
  {
    hide MergeDiff;
    if a == [] && b == [] {
      assert a + c == c && b + d == d;
      NothingChanged(a);
    } else if b == [] || (a != [] && KeyLess(a[0].key, b[0].key)) {
      MergeLeft(a, b);
      HeadOfAppend(a, c);
      FirstOf(b, d);
      MergeLeft(a + c, b + d);
      MergeSplits(a[1..], b, c, d, k);
      Associative([AsDeletion(a[0])], MergeDiff(a[1..], b), MergeDiff(c, d));
    } else if a == [] || KeyLess(b[0].key, a[0].key) {
      MergeRight(a, b);
      HeadOfAppend(b, d);
      FirstOf(a, c);
      MergeRight(a + c, b + d);
      MergeSplits(a, b[1..], c, d, k);
      Associative([AsAddition(b[0])], MergeDiff(a, b[1..]), MergeDiff(c, d));
    } else {
      SameKey(a[0].key, b[0].key);
      MergeBoth(a, b);
      HeadOfAppend(a, c);
      HeadOfAppend(b, d);
      MergeBoth(a + c, b + d);
      MergeSplits(a[1..], b[1..], c, d, k);
      Associative(HeadDiff(a[0], b[0]), MergeDiff(a[1..], b[1..]), MergeDiff(c, d));
    }
  }

  lemma FirstOf<T>(a: seq<T>, c: seq<T>)
    ensures a + c != [] ==> (a + c)[0] == if a != [] then a[0] else c[0]
  {
  }

  // ----- trees with one skeleton

  /** Equal levels and equal boundary keys all the way down. */
  ghost predicate SameSkeleton(t: Tree, u: Tree)
    decreases t
  {
    if t.Leaf? || u.Leaf? then t.Leaf? && u.Leaf?
    else t.level == u.level && |t.kids| == |u.kids| && MaxKeys(t.kids) == MaxKeys(u.kids)
         && forall i :: 0 <= i < |t.kids| ==> SameSkeleton(t.kids[i], u.kids[i])
  }

  /** On trees with one skeleton the recursion, with all its skipping, reports what
      one merge of the two item sequences would. */
  lemma {:induction false} DiffIsMerge(cfg: TreeConfig, t: Tree, u: Tree)
    requires cfg.Valid() && Body(cfg, t) && Body(cfg, u) && Sorted(ItemsOf(t)) && Sorted(ItemsOf(u))
    requires SameSkeleton(t, u)
    ensures DiffTrees(t, u) == MergeDiff(ItemsOf(t), ItemsOf(u))
    decreases t, 1
  {
    hide MergeDiff, Sorted, AllItems, DiffChildren, AllInner;
    if t == u {
      NothingChanged(ItemsOf(t));
    } else if t.Branch? {
      KidsInner(cfg, t);
      KidsInner(cfg, u);
      ChildrenMerge(cfg, t.kids, u.kids, t.level - 1);
    }
  }

  lemma {:induction false} ChildrenMerge(cfg: TreeConfig, xs: seq<Tree>, ys: seq<Tree>, level: nat)
    requires cfg.Valid() && AllInner(cfg, xs, level) && AllInner(cfg, ys, level)
    requires Sorted(AllItems(xs)) && Sorted(AllItems(ys)) && |xs| == |ys| && MaxKeys(xs) == MaxKeys(ys)
    requires forall i :: 0 <= i < |xs| ==> SameSkeleton(xs[i], ys[i])
    ensures DiffChildren(xs, ys) == MergeDiff(AllItems(xs), AllItems(ys))
    decreases xs, 0
  {
    hide MergeDiff, Sorted, ItemsOf, AllInner, Inner, Body, DiffTrees, SameSkeleton, MaxKey, AtMost, AllAbove;
    if xs == [] {
      NothingChanged([]);
    } else {
      var k := MaxKey(xs[0]);
      assert MaxKeys(xs)[0] == MaxKeys(ys)[0];
      FirstChild(cfg, xs, level);
      FirstChild(cfg, ys, level);
      TailSkeleton(xs, ys);
      DiffIsMerge(cfg, xs[0], ys[0]);
      ChildrenMerge(cfg, xs[1..], ys[1..], level);
      MergeSplits(ItemsOf(xs[0]), ItemsOf(ys[0]), AllItems(xs[1..]), AllItems(ys[1..]), k);
      HeadsMatch(xs, ys);
    }
  }

  lemma HeadsMatch(xs: seq<Tree>, ys: seq<Tree>)
    requires xs != [] && ys != [] && MaxKey(xs[0]) == MaxKey(ys[0])
    ensures DiffChildren(xs, ys) == DiffTrees(xs[0], ys[0]) + DiffChildren(xs[1..], ys[1..])
  {
    hide DiffTrees, MaxKey;
  }

  lemma TailSkeleton(xs: seq<Tree>, ys: seq<Tree>)
    requires |xs| == |ys| && xs != [] && MaxKeys(xs) == MaxKeys(ys)
    ensures MaxKeys(xs[1..]) == MaxKeys(ys[1..]) && |xs[1..]| == |ys[1..]|
  {
    hide MaxKey;
    forall i | 0 <= i < |xs| - 1
      ensures MaxKeys(xs[1..])[i] == MaxKeys(ys[1..])[i]
    {
      assert MaxKeys(xs)[i + 1] == MaxKeys(ys)[i + 1];
    }
  }

  /** The items of the first child end at its boundary; the others lie above. */
  lemma FirstChild(cfg: TreeConfig, kids: seq<Tree>, level: nat)
    requires cfg.Valid() && kids != [] && AllInner(cfg, kids, level) && Sorted(AllItems(kids))
    ensures AllItems(kids) == ItemsOf(kids[0]) + AllItems(kids[1..])
    ensures Sorted(ItemsOf(kids[0])) && Sorted(AllItems(kids[1..])) && Body(cfg, kids[0])
    ensures AllInner(cfg, kids[1..], level)
    ensures AtMost(ItemsOf(kids[0]), MaxKey(kids[0])) && AllAbove(AllItems(kids[1..]), MaxKey(kids[0]))
  {
    hide AllItems, ItemsOf, AllInner, Inner, Body;
    AllItemsHead(kids);
    SortedParts(ItemsOf(kids[0]), AllItems(kids[1..]));
    AllInnerParts(cfg, kids, level, 1);
    KidInner(cfg, kids, level, 0);
    InnerBody(cfg, kids[0]);
    InnerNonEmpty(cfg, kids[0]);
  }

  /** The difference of two versions with one skeleton is exactly the key-sorted
      difference of their maps: one entry per changed key and nothing else. */
  lemma DiffIsMapDiff(cfg: TreeConfig, t: Tree, u: Tree)
    requires cfg.Valid() && WellFormed(cfg, t) && WellFormed(cfg, u) && SameSkeleton(t, u)
    ensures IsMapDiff(ItemsOf(t), ItemsOf(u), DiffTrees(t, u))
  {
    hide Sorted, Body, ItemsOf, IsMapDiff, SameSkeleton, DiffTrees, MergeDiff;
    DiffIsMerge(cfg, t, u);
    MergeIsMapDiff(ItemsOf(t), ItemsOf(u));
  }

  // ----- overwrites keep the skeleton

  lemma {:induction false} SkeletonSame(t: Tree)
    ensures SameSkeleton(t, t)
    decreases t
  {
    if t.Branch? {
      forall i | 0 <= i < |t.kids|
        ensures SameSkeleton(t.kids[i], t.kids[i])
      {
        SkeletonSame(t.kids[i]);
      }
    }
  }

  lemma {:induction false} SkeletonTwice(t: Tree, u: Tree, w: Tree)
    requires SameSkeleton(t, u) && SameSkeleton(u, w)
    ensures SameSkeleton(t, w) && SameSkeleton(u, t)
    decreases t
  {
    if t.Branch? {
      forall i | 0 <= i < |t.kids|
        ensures SameSkeleton(t.kids[i], w.kids[i]) && SameSkeleton(u.kids[i], t.kids[i])
      {
        SkeletonTwice(t.kids[i], u.kids[i], w.kids[i]);
      }
    }
  }

  /** Overwriting a key changes no key. */
  lemma UpsertKeepsKeys(s: seq<Item>, k: Key, v: Value)
    requires Find(s, k).Some?
    ensures KeysOf(Upsert(s, k, v)) == KeysOf(s)
  {
    hide LowerBound;
  }

  lemma MaxKeyOfKeys(t: Tree, u: Tree)
    requires KeysOf(ItemsOf(t)) == KeysOf(ItemsOf(u))
    ensures MaxKey(t) == MaxKey(u)
  {
    hide ItemsOf;
    var a, b := ItemsOf(t), ItemsOf(u);
    assert |a| == |KeysOf(a)| == |b|;
    if a != [] { assert KeysOf(a)[|a| - 1] == KeysOf(b)[|b| - 1]; }
  }

  /** Overwriting a key splits nothing and keeps the skeleton. */
  lemma {:induction false} OverwriteKeepsSkeleton(cfg: TreeConfig, t: Tree, k: Key, v: Value)
    requires cfg.Valid() && Body(cfg, t) && 1 <= Size(t) <= cfg.targetFanout && Sorted(ItemsOf(t))
    requires Find(ItemsOf(t), k).Some?
    ensures var g := Insert(cfg, t, k, v); g.right.None? && SameSkeleton(t, g.left) && MaxKey(g.left) == MaxKey(t)
    decreases t
  {
    hide AllItems, Find, Upsert, Inner, AllInner, Route, Sorted, MaxKey, SameSkeleton, GrowBranch;
    if t.Leaf? {
      UpsertKeepsKeys(t.items, k, v);
      assert |Upsert(t.items, k, v)| == |KeysOf(Upsert(t.items, k, v))| == |t.items|;
      LeavesSame(t.items, Upsert(t.items, k, v));
    } else {
      var kids, i := t.kids, Route(t.kids, k);
      KidsInner(cfg, t);
      InnerBody(cfg, kids[i]);
      RouteSplits(cfg, kids, t.level - 1, k);
      FindInMiddle(AllItems(kids[..i]), ItemsOf(kids[i]), AllItems(kids[i + 1..]), k);
      OverwriteKeepsSkeleton(cfg, kids[i], k, v);
      OneChildSame(t.level, kids, i, Insert(cfg, kids[i], k, v).left);
    }
    OverwrittenMax(cfg, t, k, v);
  }

  lemma LeavesSame(s: seq<Item>, r: seq<Item>)
    ensures SameSkeleton(Leaf(s), Leaf(r))
  {
  }

  lemma OneChildSame(level: nat, kids: seq<Tree>, i: nat, kid: Tree)
    requires i < |kids| && SameSkeleton(kids[i], kid) && MaxKey(kid) == MaxKey(kids[i])
    ensures SameSkeleton(Branch(level, kids), Branch(level, kids[i := kid]))
  {
    hide MaxKey;
    var kids' := kids[i := kid];
    assert MaxKeys(kids) == MaxKeys(kids');
    forall j | 0 <= j < |kids|
      ensures SameSkeleton(kids[j], kids'[j])
    {
      if j != i { SkeletonSame(kids[j]); }
    }
  }

  lemma OverwrittenMax(cfg: TreeConfig, t: Tree, k: Key, v: Value)
    requires cfg.Valid() && Body(cfg, t) && 1 <= Size(t) <= cfg.targetFanout && Sorted(ItemsOf(t))
    requires Find(ItemsOf(t), k).Some?
    requires Insert(cfg, t, k, v).right.None?
    ensures MaxKey(Insert(cfg, t, k, v).left) == MaxKey(t)
  {
    hide AllItems, Find, Upsert, Body, Insert, Sorted, MaxKey, ItemsOf;
    InsertCorrect(cfg, t, k, v);
    var g := Insert(cfg, t, k, v);
    AllItemsOne(g.left);
    UpsertKeepsKeys(ItemsOf(t), k, v);
    MaxKeyOfKeys(g.left, t);
  }

  /** A run of overwrites, and the version it ends in. */
  ghost function Overwritten(cfg: TreeConfig, t: Tree, writes: seq<Item>): Tree
    decreases |writes|
  {
    if writes == [] then t
    else Overwritten(cfg, InsertRoot(cfg, Some(t), writes[0].key, writes[0].value), writes[1..])
  }

  /** Every write goes to a key that is there. */
  ghost predicate OnlyOverwrites(items: seq<Item>, writes: seq<Item>) {
    forall i :: 0 <= i < |writes| ==> Find(items, writes[i].key).Some?
  }

  lemma {:induction false} OverwritesKeepSkeleton(cfg: TreeConfig, t: Tree, writes: seq<Item>)
    requires cfg.Valid() && WellFormed(cfg, t) && OnlyOverwrites(ItemsOf(t), writes)
    ensures WellFormed(cfg, Overwritten(cfg, t, writes)) && SameSkeleton(t, Overwritten(cfg, t, writes))
    decreases |writes|
  {
    hide AllItems, Find, Upsert, Body, Sorted, MaxKey, ItemsOf, SameSkeleton, Insert;
    if writes == [] {
      SkeletonSame(t);
    } else {
      var k, v := writes[0].key, writes[0].value;
      OverwriteKeepsSkeleton(cfg, t, k, v);
      InsertRootCorrect(cfg, Some(t), k, v);
      var t' := InsertRoot(cfg, Some(t), k, v);
      forall i | 0 <= i < |writes| - 1
        ensures Find(ItemsOf(t'), writes[1..][i].key).Some?
      {
        assert Find(ItemsOf(t), writes[i + 1].key).Some?;
        FindUpsert(ItemsOf(t), k, v, writes[i + 1].key);
      }
      OverwritesKeepSkeleton(cfg, t', writes[1..]);
      SkeletonTwice(t, t', Overwritten(cfg, t', writes[1..]));
    }
  }

  /** Any two versions that runs of overwrites made of one tree differ by exactly
      the key-sorted difference of their maps. */
  lemma OverwritesDiff(cfg: TreeConfig, t: Tree, left: seq<Item>, right: seq<Item>)
    requires cfg.Valid() && WellFormed(cfg, t) && OnlyOverwrites(ItemsOf(t), left) && OnlyOverwrites(ItemsOf(t), right)
    ensures var t1, t2 := Overwritten(cfg, t, left), Overwritten(cfg, t, right);
            IsMapDiff(ItemsOf(t1), ItemsOf(t2), DiffTrees(t1, t2))
  {
    hide *;
    OverwritesKeepSkeleton(cfg, t, left);
    OverwritesKeepSkeleton(cfg, t, right);
    SkeletonSame(Overwritten(cfg, t, left));
    SkeletonTwice(t, Overwritten(cfg, t, left), Overwritten(cfg, t, left));
    SkeletonTwice(Overwritten(cfg, t, left), t, Overwritten(cfg, t, right));
    DiffIsMapDiff(cfg, Overwritten(cfg, t, left), Overwritten(cfg, t, right));
  }

  /** One overwrite by another value is reported as one modification. */
  lemma OverwriteDiff(cfg: TreeConfig, t: Tree, k: Key, v: Value)
    requires cfg.Valid() && WellFormed(cfg, t) && Find(ItemsOf(t), k).Some? && Find(ItemsOf(t), k).value != v
    ensures DiffTrees(t, InsertRoot(cfg, Some(t), k, v)) == [AsModification(k, Find(ItemsOf(t), k).value, v)]
  {
    hide AllItems, Find, Upsert, Body, Sorted, ItemsOf, SameSkeleton, Insert, DiffTrees, IsMapDiff;
    OverwriteKeepsSkeleton(cfg, t, k, v);
    InsertRootCorrect(cfg, Some(t), k, v);
    DiffIsMapDiff(cfg, t, InsertRoot(cfg, Some(t), k, v));
    OnlyChange(ItemsOf(t), k, v, DiffTrees(t, InsertRoot(cfg, Some(t), k, v)));
  }

  lemma OnlyChange(s: seq<Item>, k: Key, v: Value, d: seq<DiffEntry>)
    requires Sorted(s) && Find(s, k).Some? && Find(s, k).value != v && IsMapDiff(s, Upsert(s, k, v), d)
    ensures d == [AsModification(k, Find(s, k).value, v)]
  {
    hide Find, Upsert, Sorted;
    var m := AsModification(k, Find(s, k).value, v);
    FindUpsert(s, k, v, k);
    assert IsChange(s, Upsert(s, k, v), m);
    FindUpsert(s, k, v, k);
    forall i | 0 <= i < |d|
      ensures d[i] == m
    {
      assert IsChange(s, Upsert(s, k, v), d[i]);
      FindUpsert(s, k, v, d[i].key);
    }
    assert m in d;
    FirstTwoAscend(d);
  }

  lemma FirstTwoAscend(d: seq<DiffEntry>)
    requires KeysAscending(d)
    ensures |d| > 1 ==> Pos(d[0].key) < Pos(d[1].key)
  {
  }

  /** Without a common skeleton the difference is a patch but need not be minimal:
      these two trees have the same contents, and yet a difference is reported. */
  lemma SameContentsReported() returns (cfg: TreeConfig, t: Tree, u: Tree)
    ensures cfg.Valid() && WellFormed(cfg, t) && WellFormed(cfg, u)
    ensures ItemsOf(t) == ItemsOf(u) && DiffTrees(t, u) != []
  {
    cfg := TreeConfig(4, 2, 0, 0, 0, 0);
    var a, b, c, d, f := Item([1], []), Item([2], []), Item([3], []), Item([4], []), Item([5], []);
    t := Branch(1, [Leaf([a, b]), Leaf([c, d, f])]);
    u := Branch(1, [Leaf([a, b, c]), Leaf([d, f])]);
    FiveAscend(a, b, c, d, f);
    assert [a, b] + [c, d, f] == [a, b, c, d, f] == [a, b, c] + [d, f];
    TwoLeaves(cfg, [a, b], [c, d, f]);
    TwoLeaves(cfg, [a, b, c], [d, f]);
    FirstUnmatched(a, b, c, d, f);
  }

  lemma FiveAscend(a: Item, b: Item, c: Item, d: Item, f: Item)
    requires a.key == [1] && b.key == [2] && c.key == [3] && d.key == [4] && f.key == [5]
    ensures Sorted([a, b, c, d, f]) && KeyLess(b.key, c.key)
  {
    assert KeyLess(a.key, b.key) && KeyLess(b.key, c.key) && KeyLess(c.key, d.key) && KeyLess(d.key, f.key);
  }

  lemma FirstUnmatched(a: Item, b: Item, c: Item, d: Item, f: Item)
    requires KeyLess(b.key, c.key)
    ensures DiffTrees(Branch(1, [Leaf([a, b]), Leaf([c, d, f])]), Branch(1, [Leaf([a, b, c]), Leaf([d, f])])) != []
  {
    var xs, ys := [Leaf([a, b]), Leaf([c, d, f])], [Leaf([a, b, c]), Leaf([d, f])];
    assert MaxKey(xs[0]) == b.key && MaxKey(ys[0]) == c.key;
    assert Branch(1, xs) != Branch(1, ys) by { assert xs[0] != ys[0] by { assert |xs[0].items| != |ys[0].items|; } }
    assert DiffChildren(xs, ys) == AllAs([a, b], false) + DiffChildren(xs[1..], ys);
  }
}
