/** The difference of two trees: what the recursion reports, and what it means. */
module Diffs {
  import opened Sequences
  import opened Keys
  import opened Items
  import opened Trees

  /** A reported change; an absent left value is an addition, an absent right value
      a deletion. */
  datatype DiffEntry = DiffEntry(key: Key, leftValue: Option<Value>, rightValue: Option<Value>)

  function AsAddition(x: Item): DiffEntry {
    DiffEntry(x.key, None, Some(x.value))
  }

  function AsDeletion(x: Item): DiffEntry {
    DiffEntry(x.key, Some(x.value), None)
  }

  function AsModification(key: Key, left: Value, right: Value): DiffEntry {
    DiffEntry(key, Some(left), Some(right))
  }

  /** Every item of a subtree as an addition, or as a deletion. */
  ghost function AllAs(s: seq<Item>, isAddition: bool): (d: seq<DiffEntry>)
    ensures |d| == |s|
    ensures forall i :: 0 <= i < |s| ==> d[i] == if isAddition then AsAddition(s[i]) else AsDeletion(s[i])
  {
    seq(|s|, i requires 0 <= i < |s| => if isAddition then AsAddition(s[i]) else AsDeletion(s[i]))
  }

  /** The merge of two leaves. */
  ghost function MergeDiff(a: seq<Item>, b: seq<Item>): seq<DiffEntry>
    decreases |a| + |b|
  {
    if a == [] && b == [] then []
    else if b == [] || (a != [] && KeyLess(a[0].key, b[0].key)) then [AsDeletion(a[0])] + MergeDiff(a[1..], b)
    else if a == [] || KeyLess(b[0].key, a[0].key) then [AsAddition(b[0])] + MergeDiff(a, b[1..])
    else (if a[0].value != b[0].value then [AsModification(a[0].key, a[0].value, b[0].value)] else [])
         + MergeDiff(a[1..], b[1..])
  }

  /** The recursion on two trees: equal ones are skipped, leaves are merged, branches
      of one level are merged by the boundary keys of their children, and anything
      else is deleted and added as a whole. */
  ghost function DiffTrees(t: Tree, u: Tree): seq<DiffEntry>
    decreases t, u, 1
  {
    if t == u then []
    else if t.Leaf? && u.Leaf? then MergeDiff(t.items, u.items)
    else if t.Branch? && u.Branch? && t.level == u.level then DiffChildren(t.kids, u.kids)
    else AllAs(ItemsOf(t), false) + AllAs(ItemsOf(u), true)
  }

  ghost function DiffChildren(xs: seq<Tree>, ys: seq<Tree>): seq<DiffEntry>
    decreases xs, ys, 0
  {
    if xs == [] && ys == [] then []
    else if ys == [] || (xs != [] && KeyLess(MaxKey(xs[0]), MaxKey(ys[0])))
    then AllAs(ItemsOf(xs[0]), false) + DiffChildren(xs[1..], ys)
    else if xs == [] || KeyLess(MaxKey(ys[0]), MaxKey(xs[0]))
    then AllAs(ItemsOf(ys[0]), true) + DiffChildren(xs, ys[1..])
    else DiffTrees(xs[0], ys[0]) + DiffChildren(xs[1..], ys[1..])
  }

  /** The difference of two roots, either of which may be absent. */
  ghost function DiffRoots(t: Option<Tree>, u: Option<Tree>): seq<DiffEntry> {
    if t == u then []
    else if t.None? then AllAs(ItemsOf(u.value), true)
    else if u.None? then AllAs(ItemsOf(t.value), false)
    else DiffTrees(t.value, u.value)
  }

  /** Trees that cannot be compared node by node, because only one is a leaf or their
      levels differ, are reported as a whole: first every left item as a deletion, then
      every right item as an addition, each in order. */
  lemma MismatchReported(t: Tree, u: Tree)
    requires if t.Leaf? || u.Leaf? then t.Leaf? != u.Leaf? else t.level != u.level
    ensures var d, a, b := DiffTrees(t, u), ItemsOf(t), ItemsOf(u);
            && |d| == |a| + |b|
            && (forall i :: 0 <= i < |a| ==> d[i] == DiffEntry(a[i].key, Some(a[i].value), None))
            && (forall i :: 0 <= i < |b| ==> d[|a| + i] == DiffEntry(b[i].key, None, Some(b[i].value)))
  {
    hide ItemsOf, AllAs;
    OneThenOther(AllAs(ItemsOf(t), false), AllAs(ItemsOf(u), true));
  }

  lemma OneThenOther(d: seq<DiffEntry>, f: seq<DiffEntry>)
    ensures |d + f| == |d| + |f|
    ensures forall i :: 0 <= i < |d| ==> (d + f)[i] == d[i]
    ensures forall i :: 0 <= i < |f| ==> (d + f)[|d| + i] == f[i]
  {
  }

  /** Against an absent root every item is reported, in order. */
  lemma RootReported(t: Tree)
    ensures |DiffRoots(Some(t), None)| == |ItemsOf(t)| == |DiffRoots(None, Some(t))|
    ensures forall i :: 0 <= i < |ItemsOf(t)| ==>
              var x := ItemsOf(t)[i];
              && DiffRoots(Some(t), None)[i] == DiffEntry(x.key, Some(x.value), None)
              && DiffRoots(None, Some(t))[i] == DiffEntry(x.key, None, Some(x.value))
    ensures DiffRoots(None, None) == []
  {
    hide ItemsOf;
  }

  /** Of one child against one, the subtree with the smaller largest key is reported
      first, as a whole, and then the merge goes on with the other one. */
  lemma ChildrenReported(xs: seq<Tree>, ys: seq<Tree>)
    ensures var d := DiffChildren(xs, ys);
            && (xs != [] && (ys == [] || KeyLess(MaxKey(xs[0]), MaxKey(ys[0]))) ==>
                 var a := ItemsOf(xs[0]);
                 && |d| == |a| + |DiffChildren(xs[1..], ys)| && d[|a|..] == DiffChildren(xs[1..], ys)
                 && forall i :: 0 <= i < |a| ==> d[i] == DiffEntry(a[i].key, Some(a[i].value), None))
            && (ys != [] && (xs == [] || KeyLess(MaxKey(ys[0]), MaxKey(xs[0]))) ==>
                 var b := ItemsOf(ys[0]);
                 && |d| == |b| + |DiffChildren(xs, ys[1..])| && d[|b|..] == DiffChildren(xs, ys[1..])
                 && forall i :: 0 <= i < |b| ==> d[i] == DiffEntry(b[i].key, None, Some(b[i].value)))
            && (xs != [] && ys != [] && MaxKey(xs[0]) == MaxKey(ys[0]) ==>
                 d == DiffTrees(xs[0], ys[0]) + DiffChildren(xs[1..], ys[1..]))
  {
    hide ItemsOf, MaxKey, DiffTrees;
  }

  // ----- a difference is a patch

  ghost function OldOf(e: DiffEntry): seq<Item> {
    if e.leftValue.Some? then [Item(e.key, e.leftValue.value)] else []
  }

  ghost function NewOf(e: DiffEntry): seq<Item> {
    if e.rightValue.Some? then [Item(e.key, e.rightValue.value)] else []
  }

  /** The pairs that a difference takes away, and those that it brings. */
  ghost function Olds(d: seq<DiffEntry>): seq<Item> {
    if d == [] then [] else OldOf(d[0]) + Olds(d[1..])
  }

  ghost function News(d: seq<DiffEntry>): seq<Item> {
    if d == [] then [] else NewOf(d[0]) + News(d[1..])
  }

  lemma {:induction false} PartsOfTwo(d: seq<DiffEntry>, f: seq<DiffEntry>)
    ensures Olds(d + f) == Olds(d) + Olds(f) && News(d + f) == News(d) + News(f)
    decreases |d|
  {
    hide OldOf, NewOf;
    if d == [] {
      assert d + f == f;
    } else {
      PartsOfTwo(d[1..], f);
      HeadOfAppend(d, f);
      Associative(OldOf(d[0]), Olds(d[1..]), Olds(f));
      Associative(NewOf(d[0]), News(d[1..]), News(f));
    }
  }

  lemma PartsOfOne(e: DiffEntry)
    ensures Olds([e]) == if e.leftValue.Some? then [Item(e.key, e.leftValue.value)] else []
    ensures News([e]) == if e.rightValue.Some? then [Item(e.key, e.rightValue.value)] else []
  {
    assert Olds([e][1..]) == [] && News([e][1..]) == [];
  }

  lemma {:induction false} PartsOfAll(s: seq<Item>, isAddition: bool)
    ensures Olds(AllAs(s, isAddition)) == if isAddition then [] else s
    ensures News(AllAs(s, isAddition)) == if isAddition then s else []
    decreases |s|
  {
    if s != [] {
      PartsOfAll(s[1..], isAddition);
      assert AllAs(s, isAddition)[1..] == AllAs(s[1..], isAddition);
      assert s == [s[0]] + s[1..];
    }
  }

  /** `common` is what the difference leaves alone: with the old pairs it makes up
      the left items, with the new pairs the right items. */
  ghost predicate Patches(d: seq<DiffEntry>, a: seq<Item>, b: seq<Item>, common: multiset<Item>) {
    && multiset(a) == common + multiset(Olds(d))
    && multiset(b) == common + multiset(News(d))
  }

  lemma PatchesTwo(d: seq<DiffEntry>, a: seq<Item>, b: seq<Item>, m: multiset<Item>,
                   d': seq<DiffEntry>, a': seq<Item>, b': seq<Item>, m': multiset<Item>)
    requires Patches(d, a, b, m) && Patches(d', a', b', m')
    ensures Patches(d + d', a + a', b + b', m + m')
  {
    hide Olds, News;
    PartsOfTwo(d, d');
  }

  lemma PatchesSame(a: seq<Item>)
    ensures Patches([], a, a, multiset(a))
  {
  }

  lemma PatchesAll(s: seq<Item>, isAddition: bool)
    ensures if isAddition then Patches(AllAs(s, true), [], s, multiset{}) else Patches(AllAs(s, false), s, [], multiset{})
  {
    hide Olds, News;
    PartsOfAll(s, isAddition);
  }

  lemma PatchesBoth(a: seq<Item>, b: seq<Item>)
    ensures Patches(AllAs(a, false) + AllAs(b, true), a, b, multiset{})
  {
    hide Patches;
    PatchesAll(a, false);
    PatchesAll(b, true);
    PatchesTwo(AllAs(a, false), a, [], multiset{}, AllAs(b, true), [], b, multiset{});
    EmptySides(a, b);
    var none: multiset<Item> := multiset{};
    assert none + none == none;
  }

  /** The entries that one pair of heads contributes. */
  ghost function HeadDiff(x: Item, y: Item): seq<DiffEntry> {
    if x.value != y.value then [AsModification(x.key, x.value, y.value)] else []
  }

  lemma PatchesHeads(x: Item, y: Item)
    requires x.key == y.key
    ensures Patches(HeadDiff(x, y), [x], [y], if x.value != y.value then multiset{} else multiset{x})
    ensures Patches([AsDeletion(x)], [x], [], multiset{}) && Patches([AsAddition(y)], [], [y], multiset{})
  {
    PartsOfOne(AsModification(x.key, x.value, y.value));
    PartsOfOne(AsDeletion(x));
    PartsOfOne(AsAddition(y));
  }

  lemma SameKey(j: Key, k: Key)
    requires !KeyLess(j, k) && !KeyLess(k, j)
    ensures j == k
  {
    assert KeyAt(Pos(j)) == j && KeyAt(Pos(k)) == k;
  }

  lemma {:induction false} MergePatches(a: seq<Item>, b: seq<Item>) returns (common: multiset<Item>)
    ensures Patches(MergeDiff(a, b), a, b, common)
    decreases |a| + |b|
  {
    hide Patches, KeyLess;
    common := multiset{};
    if a == [] && b == [] {
      PatchesSame(a);
    } else if b == [] || (a != [] && KeyLess(a[0].key, b[0].key)) {
      common := MergePatches(a[1..], b);
      PatchesHeads(a[0], a[0]);
      PatchesTwo([AsDeletion(a[0])], [a[0]], [], multiset{}, MergeDiff(a[1..], b), a[1..], b, common);
      HeadTail(a);
      EmptySides(a, b);
      assert multiset{} + common == common;
    } else if a == [] || KeyLess(b[0].key, a[0].key) {
      common := MergePatches(a, b[1..]);
      PatchesHeads(b[0], b[0]);
      PatchesTwo([AsAddition(b[0])], [], [b[0]], multiset{}, MergeDiff(a, b[1..]), a, b[1..], common);
      HeadTail(b);
      EmptySides(b, a);
      assert multiset{} + common == common;
    } else {
      common := MergePatches(a[1..], b[1..]);
      SameKey(a[0].key, b[0].key);
      PatchesHeads(a[0], b[0]);
      var m := if a[0].value != b[0].value then multiset{} else multiset{a[0]};
      PatchesTwo(HeadDiff(a[0], b[0]), [a[0]], [b[0]], m, MergeDiff(a[1..], b[1..]), a[1..], b[1..], common);
      HeadTail(a);
      HeadTail(b);
      common := m + common;
    }
  }

  /** A difference is a sound and complete patch for any two trees: there is a common
      part that makes up the left items together with all reported left values and
      the right items together with all reported right values. */
  lemma {:induction false} DiffPatches(t: Tree, u: Tree) returns (common: multiset<Item>)
    ensures Patches(DiffTrees(t, u), ItemsOf(t), ItemsOf(u), common)
    decreases t, u, 1
  {
    hide Patches, MergeDiff, AllItems, DiffChildren;
    if t == u {
      common := multiset(ItemsOf(t));
      PatchesSame(ItemsOf(t));
    } else if t.Leaf? && u.Leaf? {
      common := MergePatches(t.items, u.items);
    } else if t.Branch? && u.Branch? && t.level == u.level {
      common := ChildrenPatch(t.kids, u.kids);
    } else {
      common := multiset{};
      PatchesBoth(ItemsOf(t), ItemsOf(u));
    }
  }

  lemma {:induction false} ChildrenPatch(xs: seq<Tree>, ys: seq<Tree>) returns (common: multiset<Item>)
    ensures Patches(DiffChildren(xs, ys), AllItems(xs), AllItems(ys), common)
    decreases xs, ys, 0
  {
    hide Patches, KeyLess, ItemsOf, MaxKey, DiffTrees;
    common := multiset{};
    if xs == [] && ys == [] {
      PatchesSame([]);
    } else if ys == [] || (xs != [] && KeyLess(MaxKey(xs[0]), MaxKey(ys[0]))) {
      var s := ItemsOf(xs[0]);
      common := ChildrenPatch(xs[1..], ys);
      PatchesAll(s, false);
      PatchesTwo(AllAs(s, false), s, [], multiset{}, DiffChildren(xs[1..], ys), AllItems(xs[1..]), AllItems(ys), common);
      EmptySides(s, AllItems(ys));
      assert multiset{} + common == common;
    } else if xs == [] || KeyLess(MaxKey(ys[0]), MaxKey(xs[0])) {
      var s := ItemsOf(ys[0]);
      common := ChildrenPatch(xs, ys[1..]);
      PatchesAll(s, true);
      PatchesTwo(AllAs(s, true), [], s, multiset{}, DiffChildren(xs, ys[1..]), AllItems(xs), AllItems(ys[1..]), common);
      EmptySides(s, AllItems(xs));
      assert multiset{} + common == common;
    } else {
      var m := DiffPatches(xs[0], ys[0]);
      common := ChildrenPatch(xs[1..], ys[1..]);
      PatchesTwo(DiffTrees(xs[0], ys[0]), ItemsOf(xs[0]), ItemsOf(ys[0]), m,
        DiffChildren(xs[1..], ys[1..]), AllItems(xs[1..]), AllItems(ys[1..]), common);
      common := m + common;
    }
  }

  ghost function RootItems(t: Option<Tree>): seq<Item> {
    if t.None? then [] else ItemsOf(t.value)
  }

  lemma RootsPatch(t: Option<Tree>, u: Option<Tree>) returns (common: multiset<Item>)
    ensures Patches(DiffRoots(t, u), RootItems(t), RootItems(u), common)
  {
    hide Patches, DiffTrees, ItemsOf;
    if t == u {
      common := multiset(RootItems(t));
      PatchesSame(RootItems(t));
    } else if t.None? {
      common := multiset{};
      PatchesAll(ItemsOf(u.value), true);
    } else if u.None? {
      common := multiset{};
      PatchesAll(ItemsOf(t.value), false);
    } else {
      common := DiffPatches(t.value, u.value);
    }
  }

  /** Sorted sequences of the same items are the same. */
  lemma {:induction false} SortedUnique(a: seq<Item>, b: seq<Item>)
    requires Sorted(a) && Sorted(b) && multiset(a) == multiset(b)
    ensures a == b
    decreases |a|
  {
    hide Sorted;
    if a == [] || b == [] {
      assert |multiset(a)| == |multiset(b)|;
    } else {
      SameHead(a, b);
      HeadTail(a);
      HeadTail(b);
      TailCounts(a[0], a[1..]);
      TailCounts(b[0], b[1..]);
      SortedParts([a[0]], a[1..]);
      SortedParts([b[0]], b[1..]);
      SortedUnique(a[1..], b[1..]);
    }
  }

  lemma TailCounts(x: Item, s: seq<Item>)
    ensures multiset([x] + s) - multiset{x} == multiset(s)
  {
  }

  lemma SameHead(a: seq<Item>, b: seq<Item>)
    requires Sorted(a) && Sorted(b) && multiset(a) == multiset(b) && a != [] && b != []
    ensures a[0] == b[0]
  {
    assert a[0] in multiset(a) && b[0] in multiset(b);
    assert a[0] in b && b[0] in a;
  }

  /** Applying a difference: the only sorted items that the left ones turn into when
      the old pairs are taken out and the new pairs put in are the right ones. In
      particular, no difference is reported only for equal contents. */
  lemma DiffApplies(t: Option<Tree>, u: Option<Tree>, s: seq<Item>)
    requires Sorted(RootItems(t)) && Sorted(RootItems(u)) && Sorted(s)
    ensures multiset(Olds(DiffRoots(t, u))) <= multiset(RootItems(t))
    ensures multiset(s) == multiset(RootItems(t)) - multiset(Olds(DiffRoots(t, u))) + multiset(News(DiffRoots(t, u)))
            <==> s == RootItems(u)
    ensures DiffRoots(t, u) == [] ==> RootItems(t) == RootItems(u)
  {
    hide Sorted, DiffRoots, Olds, News, RootItems;
    var d := DiffRoots(t, u);
    var common := RootsPatch(t, u);
    assert multiset(RootItems(t)) - multiset(Olds(d)) == common;
    if multiset(s) == common + multiset(News(d)) { SortedUnique(s, RootItems(u)); }
    if d == [] {
      NoParts();
      SortedUnique(RootItems(t), RootItems(u));
    }
  }

  lemma NoParts()
    ensures Olds([]) == [] && News([]) == []
  {
  }
}
