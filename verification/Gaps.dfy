/** Where a reverse scan starts one item too high: between two leaves. */
module Gaps {
  import opened Sequences
  import opened Keys
  import opened Items
  import opened Nodes
  import opened Trees
  import opened Insertion
  import opened Scans
  import opened Cursors

  /** The leaves of a tree, left to right. */
  ghost function LeavesOf(t: Tree): seq<seq<Item>>
    decreases t, 1
  {
    match t
    case Leaf(items) => [items]
    case Branch(_, kids) => AllLeaves(kids)
  }

  ghost function AllLeaves(kids: seq<Tree>): seq<seq<Item>>
    decreases kids, 0
  {
    if kids == [] then [] else LeavesOf(kids[0]) + AllLeaves(kids[1..])
  }

  ghost predicate NoneEmpty(leaves: seq<seq<Item>>) {
    forall i :: 0 <= i < |leaves| ==> leaves[i] != []
  }

  /** Leaf `i` starts above the key, and the leaf before it, if any, ends below. */
  ghost predicate GapBefore(leaves: seq<seq<Item>>, k: Key, i: nat)
    requires i < |leaves| && NoneEmpty(leaves)
  {
    && Pos(k) < Pos(leaves[i][0].key)
    && (i > 0 ==> Pos(leaves[i - 1][|leaves[i - 1]| - 1].key) < Pos(k))
  }

  /** The key falls strictly between two leaves, or below the first. */
  ghost predicate BetweenLeaves(leaves: seq<seq<Item>>, k: Key)
    requires NoneEmpty(leaves)
  {
    exists i: nat :: i < |leaves| && GapBefore(leaves, k, i)
  }

  lemma {:induction false} JoinedHas(leaves: seq<seq<Item>>, i: nat, j: nat) returns (n: nat)
    requires i < |leaves| && j < |leaves[i]|
    ensures n < |Joined(leaves)| && Joined(leaves)[n] == leaves[i][j]
    decreases |leaves|
  {
    if i == 0 {
      n := j;
    } else {
      n := JoinedHas(leaves[1..], i - 1, j);
      n := n + |leaves[0]|;
    }
  }

  lemma {:induction false} AllLeavesAppend(a: seq<Tree>, b: seq<Tree>)
    ensures AllLeaves(a + b) == AllLeaves(a) + AllLeaves(b)
    decreases |a|
  {
    hide LeavesOf;
    if a == [] {
      assert a + b == b;
    } else {
      AllLeavesAppend(a[1..], b);
      HeadOfAppend(a, b);
      Associative(LeavesOf(a[0]), AllLeaves(a[1..]), AllLeaves(b));
    }
  }

  lemma AllLeavesAround(a: seq<Tree>, t: Tree, c: seq<Tree>)
    ensures AllLeaves(a + [t] + c) == AllLeaves(a) + LeavesOf(t) + AllLeaves(c)
  {
    hide LeavesOf;
    AllLeavesAppend(a + [t], c);
    AllLeavesAppend(a, [t]);
    assert AllLeaves([t][1..]) == [];
  }

  /** The leaves hold the items, and none of them is empty. */
  lemma {:induction false} LeavesJoin(cfg: TreeConfig, t: Tree)
    requires cfg.Valid() && Body(cfg, t) && Size(t) > 0
    ensures Joined(LeavesOf(t)) == ItemsOf(t) && NoneEmpty(LeavesOf(t)) && LeavesOf(t) != []
    decreases t, 1
  {
    if t.Leaf? {
      assert Joined([t.items][1..]) == [];
    } else {
      KidsInner(cfg, t);
      AllLeavesJoin(cfg, t.kids, t.level - 1);
    }
  }

  lemma {:induction false} AllLeavesJoin(cfg: TreeConfig, kids: seq<Tree>, level: nat)
    requires cfg.Valid() && AllInner(cfg, kids, level)
    ensures Joined(AllLeaves(kids)) == AllItems(kids) && NoneEmpty(AllLeaves(kids))
    ensures kids != [] ==> AllLeaves(kids) != []
    decreases kids, 0
  {
    hide LeavesOf, ItemsOf, Inner;
    if kids != [] {
      KidInner(cfg, kids, level, 0);
      InnerBody(cfg, kids[0]);
      LeavesJoin(cfg, kids[0]);
      AllInnerParts(cfg, kids, level, 1);
      AllLeavesJoin(cfg, kids[1..], level);
      JoinedAppend(LeavesOf(kids[0]), AllLeaves(kids[1..]));
    }
  }

  lemma {:induction false} JoinedLast(leaves: seq<seq<Item>>)
    requires leaves != [] && NoneEmpty(leaves)
    ensures Joined(leaves) != []
    ensures var last := leaves[|leaves| - 1]; Joined(leaves)[|Joined(leaves)| - 1] == last[|last| - 1]
    decreases |leaves|
  {
    if |leaves| > 1 {
      JoinedLast(leaves[1..]);
    } else {
      assert Joined(leaves[1..]) == [];
    }
  }

  /** Gaps in the part of the leaves that the key belongs to are all the gaps. */
  lemma GapInMiddle(a: seq<seq<Item>>, b: seq<seq<Item>>, c: seq<seq<Item>>, k: Key)
    requires NoneEmpty(a) && NoneEmpty(b) && NoneEmpty(c) && b != []
    requires AllBelow(Joined(a), k) && AllAbove(Joined(c), k)
    requires c != [] ==> var last := b[|b| - 1]; Pos(k) <= Pos(last[|last| - 1].key)
    ensures NoneEmpty(a + b + c) && (BetweenLeaves(a + b + c, k) <==> BetweenLeaves(b, k))
  {
    hide Joined;
    var s := a + b + c;
    forall i | 0 <= i < |a|
      ensures Pos(a[i][0].key) < Pos(k) && Pos(a[i][|a[i]| - 1].key) < Pos(k)
    {
      var n := JoinedHas(a, i, 0);
      n := JoinedHas(a, i, |a[i]| - 1);
    }
    forall i | 0 <= i < |c|
      ensures Pos(k) < Pos(c[i][|c[i]| - 1].key)
    {
      var n := JoinedHas(c, i, |c[i]| - 1);
    }
    if BetweenLeaves(b, k) {
      var i: nat :| i < |b| && GapBefore(b, k, i);
      assert GapBefore(s, k, |a| + i);
    }
    if BetweenLeaves(s, k) {
      var i: nat :| i < |s| && GapBefore(s, k, i);
      assert i >= |a|;
      assert i < |a| + |b|;
      assert GapBefore(b, k, i - |a|);
    }
  }

  lemma GapInLeaf(s: seq<Item>, k: Key)
    requires s != [] && Sorted(s)
    ensures NoneEmpty([s]) && (BetweenLeaves([s], k) <==> LowerBound(KeysOf(s), k) == 0 && Find(s, k).None?)
  {
    assert KeyAt(Pos(s[0].key)) == s[0].key && KeyAt(Pos(k)) == k;
    if Pos(k) < Pos(s[0].key) {
      LowerBoundIs(KeysOf(s), k, 0);
      assert GapBefore([s], k, 0);
    }
  }

  /** The starting position of a reverse scan is in a gap exactly when the bound
      falls strictly between the key ranges of two adjacent leaves, or below the
      first leaf. */
  lemma {:induction false} InGapIff(cfg: TreeConfig, t: Tree, k: Key)
    requires cfg.Valid() && Body(cfg, t) && Size(t) > 0 && Sorted(ItemsOf(t))
    ensures NoneEmpty(LeavesOf(t)) && (InGap(t, k) <==> BetweenLeaves(LeavesOf(t), k))
    decreases t
  {
    hide AllItems, AllLeaves, BetweenLeaves, Find, LowerBound, Route, AllInner, Sorted;
    LeavesJoin(cfg, t);
    if t.Leaf? {
      GapInLeaf(t.items, k);
    } else {
      RoutedKid(cfg, t, k);
      InGapIff(cfg, t.kids[Route(t.kids, k)], k);
      GapInBranch(cfg, t, k);
    }
  }

  lemma RoutedKid(cfg: TreeConfig, t: Tree, k: Key)
    requires cfg.Valid() && Body(cfg, t) && Size(t) > 0 && Sorted(ItemsOf(t)) && t.Branch?
    ensures t.level > 0 && t.kids != [] && AllInner(cfg, t.kids, t.level - 1) && Sorted(AllItems(t.kids))
    ensures var kid := t.kids[Route(t.kids, k)];
            && Body(cfg, kid) && Size(kid) > 0 && Sorted(ItemsOf(kid))
            && (InGap(t, k) <==> InGap(kid, k)) && LeavesOf(t) == AllLeaves(t.kids)
  {
    hide AllItems, AllLeaves, Find, LowerBound, Route, Inner, AllInner, Sorted;
    KidsInner(cfg, t);
    InnerBody(cfg, t.kids[Route(t.kids, k)]);
    RouteSplits(cfg, t.kids, t.level - 1, k);
  }

  lemma GapInBranch(cfg: TreeConfig, t: Tree, k: Key)
    requires cfg.Valid() && t.Branch? && t.level > 0 && t.kids != [] && AllInner(cfg, t.kids, t.level - 1)
    requires Sorted(AllItems(t.kids))
    requires var b := LeavesOf(t.kids[Route(t.kids, k)]); NoneEmpty(b) && NoneEmpty(AllLeaves(t.kids))
    ensures BetweenLeaves(AllLeaves(t.kids), k) <==> BetweenLeaves(LeavesOf(t.kids[Route(t.kids, k)]), k)
  {
    hide *;
    var kids, i := t.kids, Route(t.kids, k);
    RouteSplits(cfg, kids, t.level - 1, k);
    LeavesAtRoute(cfg, kids, t.level - 1, k, i);
    GapInMiddle(AllLeaves(kids[..i]), LeavesOf(kids[i]), AllLeaves(kids[i + 1..]), k);
    assert kids == kids[..i] + [kids[i]] + kids[i + 1..];
    AllLeavesAround(kids[..i], kids[i], kids[i + 1..]);
  }

  lemma LeavesAtRoute(cfg: TreeConfig, kids: seq<Tree>, level: nat, k: Key, i: nat)
    requires cfg.Valid() && kids != [] && AllInner(cfg, kids, level) && i == Route(kids, k)
    ensures Joined(AllLeaves(kids[..i])) == AllItems(kids[..i]) && NoneEmpty(AllLeaves(kids[..i]))
    ensures Joined(AllLeaves(kids[i + 1..])) == AllItems(kids[i + 1..]) && NoneEmpty(AllLeaves(kids[i + 1..]))
    ensures NoneEmpty(LeavesOf(kids[i])) && LeavesOf(kids[i]) != []
    ensures AllLeaves(kids[i + 1..]) != [] ==>
              var b := LeavesOf(kids[i]); var last := b[|b| - 1]; Pos(k) <= Pos(last[|last| - 1].key)
  {
    hide AllItems, AllLeaves, LeavesOf, ItemsOf, Joined, Inner, LowerBound, AllInner, MaxKey, Route, NoneEmpty;
    AllInnerParts(cfg, kids, level, i);
    AllInnerParts(cfg, kids, level, i + 1);
    AllLeavesJoin(cfg, kids[..i], level);
    AllLeavesJoin(cfg, kids[i + 1..], level);
    KidInner(cfg, kids, level, i);
    InnerBody(cfg, kids[i]);
    LeavesJoin(cfg, kids[i]);
    MaxOfLeaves(kids[i]);
    if i + 1 < |kids| { RoutedMax(kids, k); } else { NoLeaves(kids[i + 1..]); }
  }

  lemma RoutedMax(kids: seq<Tree>, k: Key)
    requires kids != [] && Route(kids, k) + 1 < |kids|
    ensures Pos(k) <= Pos(MaxKey(kids[Route(kids, k)]))
  {
    hide MaxKey;
    assert Pos(k) <= Pos(MaxKeys(kids)[Route(kids, k)]);
  }

  lemma MaxOfLeaves(t: Tree)
    requires LeavesOf(t) != [] && NoneEmpty(LeavesOf(t)) && Joined(LeavesOf(t)) == ItemsOf(t)
    ensures var b := LeavesOf(t); var last := b[|b| - 1]; last != [] && MaxKey(t) == last[|last| - 1].key
  {
    hide LeavesOf, ItemsOf, Joined;
    JoinedLast(LeavesOf(t));
  }

  lemma NoLeaves(kids: seq<Tree>)
    requires kids == []
    ensures AllLeaves(kids) == []
  {
  }

  /** A bound in a gap is not a key of the tree, and items lie above it. */
  lemma {:induction false} GapIsFree(cfg: TreeConfig, t: Tree, k: Key)
    requires cfg.Valid() && Body(cfg, t) && Size(t) > 0 && Sorted(ItemsOf(t)) && InGap(t, k)
    ensures Find(ItemsOf(t), k).None? && LowerBound(KeysOf(ItemsOf(t)), k) < |ItemsOf(t)|
    decreases t
  {
    hide AllItems, AllLeaves, LeavesOf, Find, LowerBound, Route, Inner, AllInner, Sorted, AllBelow, AllAbove;
    if t.Branch? {
      var i := Route(t.kids, k);
      RoutedKid(cfg, t, k);
      GapIsFree(cfg, t.kids[i], k);
      RouteSplits(cfg, t.kids, t.level - 1, k);
      BoundInMiddle(AllItems(t.kids[..i]), ItemsOf(t.kids[i]), AllItems(t.kids[i + 1..]), k);
    }
  }

  /** The condition under which a scan of a tree returns what was asked for: unless
      it is a reverse scan whose upper bound falls between two leaves, always; then,
      when the item it loses (offset zero) or repeats (a positive offset) is out of
      range or does not exist. */
  ghost predicate LosesNothing(t: Tree, args: ScanArgs)
    requires NoneEmpty(LeavesOf(t))
  {
    args.reverse && args.startBound.Some? && BetweenLeaves(LeavesOf(t), args.startBound.value) ==>
      var below := Reversed(ItemsOf(t)[..LowerBound(KeysOf(ItemsOf(t)), args.startBound.value)]);
      var n := if args.offset == 0 then 0 else args.offset - 1;
      n >= |below| || PastEnd(args, below[n].key)
  }

  /** What a scan of a tree returns: the in-range items in its direction, from its
      offset on, exactly under that condition. */
  lemma ScanMeaning(cfg: TreeConfig, t: Tree, args: ScanArgs)
    requires cfg.Valid() && WellFormed(cfg, t)
    ensures NoneEmpty(LeavesOf(t)) && GapFits(ItemsOf(t), args, StartsInGap(t, args))
    ensures Rows(ItemsOf(t), args, StartsInGap(t, args)) == Wanted(ItemsOf(t), args) <==> LosesNothing(t, args)
  {
    hide AllItems, LeavesOf, ItemsOf, BetweenLeaves, Find, LowerBound, Sorted, Rows, Wanted, Body, PastEnd, InGap,
      Reversed;
    if args.startBound.Some? {
      InGapIff(cfg, t, args.startBound.value);
      if InGap(t, args.startBound.value) { GapIsFree(cfg, t, args.startBound.value); }
    } else {
      LeavesJoin(cfg, t);
    }
    if StartsInGap(t, args) {
      GapRowsIff(ItemsOf(t), args);
    } else {
      RowsAreWanted(ItemsOf(t), args);
    }
  }

  /** And what it returns in every case: what was asked for, or, going backwards from a
      gap, nothing, or what was asked for with an offset one smaller. */
  lemma ScanRows(cfg: TreeConfig, t: Tree, args: ScanArgs)
    requires cfg.Valid() && WellFormed(cfg, t)
    ensures GapFits(ItemsOf(t), args, StartsInGap(t, args))
    ensures Rows(ItemsOf(t), args, StartsInGap(t, args)) ==
              if !StartsInGap(t, args) then Wanted(ItemsOf(t), args)
              else if args.offset == 0 then [] else Wanted(ItemsOf(t), args.(offset := args.offset - 1))
  {
    hide AllItems, LeavesOf, ItemsOf, Find, LowerBound, Sorted, Rows, Wanted, Body, InGap;
    if args.startBound.Some? && InGap(t, args.startBound.value) { GapIsFree(cfg, t, args.startBound.value); }
    if StartsInGap(t, args) {
      GapRowsAre(ItemsOf(t), args);
    } else {
      RowsAreWanted(ItemsOf(t), args);
    }
  }

  /** Every row is an item. */
  lemma RowIsItem(items: seq<Item>, args: ScanArgs, gap: bool, n: nat) returns (i: nat)
    requires GapFits(items, args, gap) && n < |Rows(items, args, gap)|
    ensures i < |items| && Rows(items, args, gap)[n] == items[i]
  {
    hide LowerBound, Upto, Stream, RunFrom;
    var b := StreamIsRun(items, args, gap);
    UptoPrefix(RunFrom(items, args, b), args);
    RunAt(items, args, b, n);
    i := RowIndex(args, b, n);
  }

  /** A scan that goes on from a row never starts in a gap: its bound is a key of the
      tree. */
  lemma RestartHasNoGap(cfg: TreeConfig, t: Tree, args: ScanArgs, n: nat, inclusive: bool)
    requires cfg.Valid() && WellFormed(cfg, t) && GapFits(ItemsOf(t), args, StartsInGap(t, args))
    requires n < |Rows(ItemsOf(t), args, StartsInGap(t, args))|
    ensures !StartsInGap(t, NextArgs(args, Rows(ItemsOf(t), args, StartsInGap(t, args))[n].key, inclusive))
  {
    hide Rows, LowerBound, ItemsOf, Find, InGap, Sorted, Body;
    var i := RowIsItem(ItemsOf(t), args, StartsInGap(t, args), n);
    FoundAt(ItemsOf(t), i);
    if InGap(t, ItemsOf(t)[i].key) { GapIsFree(cfg, t, ItemsOf(t)[i].key); }
  }

  /** A reverse scan that loses its rows: four keys in two leaves, and an upper bound
      between the leaves. Two items are asked for, and none is returned. */
  lemma ReverseScanLosesRows() returns (cfg: TreeConfig, t: Tree, args: ScanArgs)
    ensures cfg.Valid() && WellFormed(cfg, t) && args.reverse && args.offset == 0
    ensures ItemsOf(t) == [Item([1], []), Item([2], []), Item([4], []), Item([5], [])] && args.startBound == Some([3])
    ensures GapFits(ItemsOf(t), args, StartsInGap(t, args)) && Rows(ItemsOf(t), args, StartsInGap(t, args)) == []
    ensures Wanted(ItemsOf(t), args) == [Item([2], []), Item([1], [])]
  {
    hide AllItems, LowerBound, Rows, Wanted, From, Filter, InGap, Find;
    cfg := TreeConfig(4, 2, 0, 0, 0, 0);
    var a, b, c, d := Item([1], []), Item([2], []), Item([4], []), Item([5], []);
    t := Branch(1, [Leaf([a, b]), Leaf([c, d])]);
    args := ScanArgs(Some([3]), None, true, true, true, 0, None);
    KeysAround(a, b, c, d, [3]);
    assert [a, b] + [c, d] == [a, b, c, d];
    TwoLeaves(cfg, [a, b], [c, d]);
    LeavesOfTwo([a, b], [c, d]);
    assert GapBefore([[a, b], [c, d]], [3], 1);
    InGapIff(cfg, t, [3]);
    ScanMeaning(cfg, t, args);
    CutAroundBound(a, b, c, d, [3]);
    FromCut([a, b, c, d], args, [a, b], [], [c, d]);
    NoRowAbove(args, c, Reversed([a, b]), [a, b, c, d]);
    TwoRowsBelow(args, a, b, c, d);
  }

  lemma KeysAround(a: Item, b: Item, c: Item, d: Item, k: Key)
    requires a.key == [1] && b.key == [2] && c.key == [4] && d.key == [5] && k == [3]
    ensures Sorted([a, b, c, d]) && AllBelow([a, b], k) && AllAbove([c, d], k)
    ensures KeyLess(a.key, k) && KeyLess(b.key, k) && KeyLess(k, c.key) && KeyLess(k, d.key)
  {
    assert KeyLess(a.key, b.key) && KeyLess(b.key, k) && KeyLess(k, c.key) && KeyLess(c.key, d.key);
  }

  lemma LeavesOfTwo(s: seq<Item>, r: seq<Item>)
    ensures LeavesOf(Branch(1, [Leaf(s), Leaf(r)])) == [s, r]
  {
    AllLeavesAround([], Leaf(s), [Leaf(r)]);
    AllLeavesAround([], Leaf(r), []);
    assert [] + [Leaf(s)] + [Leaf(r)] == [Leaf(s), Leaf(r)] && [] + [Leaf(r)] + [] == [Leaf(r)];
  }

  lemma CutAroundBound(a: Item, b: Item, c: Item, d: Item, k: Key)
    requires AllBelow([a, b], k) && AllAbove([c, d], k)
    ensures Cut([a, b, c, d], k, [a, b], [], [c, d]) && LowerBound(KeysOf([a, b, c, d]), k) == 2
  {
    hide LowerBound, Find, AllBelow, AllAbove;
    assert [a, b] + [] + [c, d] == [a, b, c, d];
    OnCut([a, b, c, d], k, [a, b], [], [c, d], []);
  }

  lemma NoRowAbove(args: ScanArgs, x: Item, below: seq<Item>, items: seq<Item>)
    requires args.reverse && args.startInclusive && args.offset == 0 && args.startBound.Some?
    requires KeyLess(args.startBound.value, x.key)
    requires GapFits(items, args, true) && From(items, args, true) == [x] + below
    ensures Rows(items, args, true) == []
  {
    hide From;
    assert ([x] + below)[0..] == [x] + below;
  }

  lemma TwoRowsBelow(args: ScanArgs, a: Item, b: Item, c: Item, d: Item)
    requires args == ScanArgs(Some([3]), None, true, true, true, 0, None)
    requires KeyLess(a.key, [3]) && KeyLess(b.key, [3]) && KeyLess([3], c.key) && KeyLess([3], d.key)
    ensures Wanted([a, b, c, d], args) == [b, a]
  {
    hide Reversed, Filter, InBounds;
    FourReversed(a, b, c, d);
    FilterAppend([d, c], [b, a], args);
    OutOfBounds(args, d.key);
    OutOfBounds(args, c.key);
    WithinBounds(args, b.key);
    WithinBounds(args, a.key);
    FilterNone([d, c], args);
    FilterAll([b, a], args);
    assert [] + [b, a] == [b, a] && [b, a][0..] == [b, a];
  }

  lemma FourReversed(a: Item, b: Item, c: Item, d: Item)
    ensures Reversed([a, b, c, d]) == [d, c] + [b, a]
  {
  }

  lemma OutOfBounds(args: ScanArgs, k: Key)
    requires args == ScanArgs(Some([3]), None, true, true, true, 0, None) && KeyLess([3], k)
    ensures !InBounds(args, k)
  {
  }

  lemma WithinBounds(args: ScanArgs, k: Key)
    requires args == ScanArgs(Some([3]), None, true, true, true, 0, None) && KeyLess(k, [3])
    ensures InBounds(args, k)
  {
  }
}
