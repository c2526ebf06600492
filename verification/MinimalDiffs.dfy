/** Exactly when a difference is the difference of the two maps: which keys the
    recursion reports twice. */
module MinimalDiffs {
  import opened Sequences
  import opened Keys
  import opened Items
  import opened Nodes
  import opened Trees
  import opened Insertion
  import opened Diffs
  import opened ExactDiffs

  /** The recursion looks for the key in both trees at once: it passes equal trees,
      compares two leaves, or goes down to two children with one boundary key. */
  ghost predicate Met(t: Tree, u: Tree, k: Key)
    decreases t
  {
    || t == u
    || (t.Leaf? && u.Leaf?)
    || (t.Branch? && u.Branch? && t.level == u.level && t.kids != [] && u.kids != [] && ChildrenMet(t.kids, u.kids, k))
  }

  ghost predicate ChildrenMet(xs: seq<Tree>, ys: seq<Tree>, k: Key)
    requires xs != [] && ys != []
    decreases xs, 0
  {
    var x, y := xs[Route(xs, k)], ys[Route(ys, k)];
    MaxKey(x) == MaxKey(y) && Met(x, y, k)
  }

  // ----- what is reported for one key

  ghost function EntriesFor(d: seq<DiffEntry>, k: Key): seq<DiffEntry> {
    if d == [] then [] else (if d[0].key == k then [d[0]] else []) + EntriesFor(d[1..], k)
  }

  /** The one entry for a key whose values differ; none if they do not. */
  ghost function KeyDiff(k: Key, x: Option<Value>, y: Option<Value>): seq<DiffEntry> {
    if x == y then [] else [DiffEntry(k, x, y)]
  }

  /** What is reported for a key with values `x` and `y`: its change, if the key is
      met or is not in both trees; else both a deletion and an addition, changed or
      not. */
  ghost predicate Told(d: seq<DiffEntry>, k: Key, x: Option<Value>, y: Option<Value>, met: bool) {
    if met || x.None? || y.None? then EntriesFor(d, k) == KeyDiff(k, x, y)
    else var gone, come := DiffEntry(k, x, None), DiffEntry(k, None, y);
      EntriesFor(d, k) == [gone, come] || EntriesFor(d, k) == [come, gone]
  }

  lemma {:induction false} EntriesForTwo(d: seq<DiffEntry>, f: seq<DiffEntry>, k: Key)
    ensures EntriesFor(d + f, k) == EntriesFor(d, k) + EntriesFor(f, k)
    decreases |d|
  {
    if d == [] {
      assert d + f == f;
    } else {
      EntriesForTwo(d[1..], f, k);
      HeadOfAppend(d, f);
      Associative(if d[0].key == k then [d[0]] else [], EntriesFor(d[1..], k), EntriesFor(f, k));
    }
  }

  lemma {:induction false} EntriesForOther(d: seq<DiffEntry>, k: Key)
    requires forall i :: 0 <= i < |d| ==> d[i].key != k
    ensures EntriesFor(d, k) == []
    decreases |d|
  {
    if d != [] { EntriesForOther(d[1..], k); }
  }

  lemma {:induction false} EntriesForHas(d: seq<DiffEntry>, e: DiffEntry)
    ensures e in d <==> e in EntriesFor(d, e.key)
    decreases |d|
  {
    if d != [] {
      EntriesForHas(d[1..], e);
      HeadTail(d);
    }
  }

  /** In key order there is one entry for a key at most. */
  lemma {:induction false} AscendingOnce(d: seq<DiffEntry>, e: DiffEntry)
    requires KeysAscending(d) && e in d
    ensures EntriesFor(d, e.key) == [e]
    decreases |d|
  {
    if d[0] == e {
      EntriesForOther(d[1..], e.key);
    } else {
      HeadTail(d);
      AscendingOnce(d[1..], e);
    }
  }

  lemma MapDiffTold(a: seq<Item>, b: seq<Item>, d: seq<DiffEntry>, k: Key)
    requires IsMapDiff(a, b, d)
    ensures EntriesFor(d, k) == KeyDiff(k, Find(a, k), Find(b, k))
  {
    hide Find;
    var e := DiffEntry(k, Find(a, k), Find(b, k));
    if Find(a, k) != Find(b, k) {
      assert IsChange(a, b, e);
      AscendingOnce(d, e);
    } else {
      forall i | 0 <= i < |d|
        ensures d[i].key != k
      {
        assert IsChange(a, b, d[i]);
      }
      EntriesForOther(d, k);
    }
  }

  /** A subtree reported as a whole. */
  lemma {:induction false} AllTold(s: seq<Item>, isAddition: bool, k: Key)
    requires Sorted(s)
    ensures EntriesFor(AllAs(s, isAddition), k) ==
              if isAddition then KeyDiff(k, None, Find(s, k)) else KeyDiff(k, Find(s, k), None)
    decreases |s|
  {
    hide Find, Sorted;
    if s == [] {
      NotBelow(s, k);
    } else {
      AllTold(s[1..], isAddition, k) by { HeadLeads(s); }
      HeadLeads(s);
      assert AllAs(s, isAddition)[1..] == AllAs(s[1..], isAddition);
    }
  }

  lemma WholeTold(a: seq<Item>, b: seq<Item>, k: Key)
    requires Sorted(a) && Sorted(b)
    ensures Told(AllAs(a, false) + AllAs(b, true), k, Find(a, k), Find(b, k), false)
  {
    hide Find, Sorted, EntriesFor;
    EntriesForTwo(AllAs(a, false), AllAs(b, true), k);
    AllTold(a, false, k);
    AllTold(b, true, k);
  }

  // ----- the first children

  /** A key of a sequence of children is in the first, or is routed to the others. */
  ghost predicate HeadTailFound(kids: seq<Tree>, k: Key)
    requires kids != []
  {
    && Sorted(ItemsOf(kids[0]))
    && (Find(ItemsOf(kids[0]), k).Some? ==>
          && Find(AllItems(kids), k) == Find(ItemsOf(kids[0]), k) && Route(kids, k) == 0
          && Pos(k) <= Pos(MaxKey(kids[0])) && Find(AllItems(kids[1..]), k).None?)
    && (Find(ItemsOf(kids[0]), k).None? ==> Find(AllItems(kids), k) == Find(AllItems(kids[1..]), k))
    && (Find(AllItems(kids[1..]), k).Some? ==>
          Pos(MaxKey(kids[0])) < Pos(k) && kids[1..] != [] && Route(kids, k) == 1 + Route(kids[1..], k))
  }

  lemma HeadOrTail(cfg: TreeConfig, kids: seq<Tree>, level: nat, k: Key)
    requires cfg.Valid() && kids != [] && AllInner(cfg, kids, level) && Sorted(AllItems(kids))
    ensures AllInner(cfg, kids[1..], level) && Sorted(AllItems(kids[1..]))
    ensures Sorted(ItemsOf(kids[0])) && Body(cfg, kids[0]) && HeadTailFound(kids, k)
  {
    hide Find, Sorted, AllInner, Inner, Body, MaxKey, Route, ItemsOf, AllItems;
    FirstChild(cfg, kids, level);
    FindHeadOrTail(ItemsOf(kids[0]), AllItems(kids[1..]), k, MaxKey(kids[0]));
    if Find(ItemsOf(kids[0]), k).Some? { RouteFirst(kids, k); }
    if Find(AllItems(kids[1..]), k).Some? {
      SomeChild(kids[1..], k);
      RouteRest(kids, k);
    }
  }

  lemma SomeChild(kids: seq<Tree>, k: Key)
    requires Find(AllItems(kids), k).Some?
    ensures kids != []
  {
    hide ItemsOf;
  }

  lemma FindHeadOrTail(a: seq<Item>, c: seq<Item>, k: Key, m: Key)
    requires Sorted(a) && Sorted(c) && AtMost(a, m) && AllAbove(c, m)
    ensures Find(a, k).Some? ==> Find(a + c, k) == Find(a, k) && Pos(k) <= Pos(m)
    ensures Find(a, k).None? ==> Find(a + c, k) == Find(c, k)
    ensures Find(c, k).Some? ==> Pos(m) < Pos(k) && Find(a, k).None?
  {
    hide Find, Sorted;
    if Pos(k) <= Pos(m) {
      NotBelow(c, k);
      FindInMiddle([], a, c, k);
      EmptySides(a, a);
    } else {
      AboveAll(a, k);
      FindInMiddle(a, c, [], k);
      EmptySides(a + c, c);
    }
  }

  lemma AboveAll(s: seq<Item>, k: Key)
    requires AllBelow(s, k)
    ensures Find(s, k) == None
  {
    hide Find;
    assert s + [] + [] == s;
    OnCut(s, k, s, [], [], []);
  }

  lemma RouteFirst(kids: seq<Tree>, k: Key)
    requires kids != [] && Pos(k) <= Pos(MaxKey(kids[0]))
    ensures Route(kids, k) == 0
  {
    hide MaxKey;
    LowerBoundIs(MaxKeys(kids), k, 0);
  }

  lemma RouteRest(kids: seq<Tree>, k: Key)
    requires |kids| > 1 && Pos(MaxKey(kids[0])) < Pos(k)
    ensures Route(kids, k) == 1 + Route(kids[1..], k)
  {
    hide MaxKey;
    var p := LowerBound(MaxKeys(kids[1..]), k);
    forall i | 0 <= i <= p
      ensures Pos(MaxKeys(kids)[i]) < Pos(k)
    {
      if i > 0 { assert MaxKeys(kids)[i] == MaxKeys(kids[1..])[i - 1]; }
    }
    if p < |kids| - 1 { assert MaxKeys(kids)[p + 1] == MaxKeys(kids[1..])[p]; }
    LowerBoundIs(MaxKeys(kids), k, p + 1);
  }

  // ----- what the recursion reports for a key

  ghost predicate BothMet(xs: seq<Tree>, ys: seq<Tree>, k: Key) {
    xs != [] && ys != [] && ChildrenMet(xs, ys, k)
  }

  /** Nothing for the key in the first part: the second decides. */
  lemma ToldAfter(d: seq<DiffEntry>, f: seq<DiffEntry>, k: Key, x: Option<Value>, y: Option<Value>, met: bool, met': bool)
    requires EntriesFor(d, k) == [] && Told(f, k, x, y, met') && (x.Some? && y.Some? ==> met == met')
    ensures Told(d + f, k, x, y, met)
  {
    hide EntriesFor;
    EntriesForTwo(d, f, k);
    EmptySides(EntriesFor(f, k), EntriesFor(f, k));
  }

  /** Nothing for the key in the second part: the first decides. */
  lemma ToldBefore(d: seq<DiffEntry>, f: seq<DiffEntry>, k: Key, x: Option<Value>, y: Option<Value>, met: bool, met': bool)
    requires Told(d, k, x, y, met') && EntriesFor(f, k) == [] && (x.Some? && y.Some? ==> met == met')
    ensures Told(d + f, k, x, y, met)
  {
    hide EntriesFor;
    EntriesForTwo(d, f, k);
    EmptySides(EntriesFor(d, k), EntriesFor(d, k));
  }

  /** The key's deletion in the first part, and its addition, if any, in the second. */
  lemma ToldApart(d: seq<DiffEntry>, f: seq<DiffEntry>, k: Key, x: Option<Value>, y: Option<Value>, isAddition: bool)
    requires EntriesFor(d, k) == if isAddition then KeyDiff(k, None, y) else KeyDiff(k, x, None)
    requires EntriesFor(f, k) == if isAddition then KeyDiff(k, x, None) else KeyDiff(k, None, y)
    ensures Told(d + f, k, x, y, false)
  {
    hide EntriesFor;
    EntriesForTwo(d, f, k);
  }

  /** For every key the recursion reports its change if it is met or in one tree at
      most, and else a deletion and an addition. */
  lemma {:induction false} TreesTold(cfg: TreeConfig, t: Tree, u: Tree, k: Key)
    requires cfg.Valid() && Body(cfg, t) && Body(cfg, u) && Sorted(ItemsOf(t)) && Sorted(ItemsOf(u))
    ensures Told(DiffTrees(t, u), k, Find(ItemsOf(t), k), Find(ItemsOf(u), k), Met(t, u, k))
    decreases t, u, 1
  {
    hide Find, Sorted, MergeDiff, AllItems, DiffChildren, AllInner, ChildrenMet, EntriesFor, IsMapDiff, AllAs;
    if t == u {
      EntriesForOther([], k);
    } else if t.Leaf? && u.Leaf? {
      MergeIsMapDiff(t.items, u.items);
      MapDiffTold(t.items, u.items, MergeDiff(t.items, u.items), k);
    } else if t.Branch? && u.Branch? && t.level == u.level {
      KidsInner(cfg, t);
      KidsInner(cfg, u);
      ChildrenTold(cfg, t.kids, u.kids, t.level - 1, k);
    } else {
      WholeTold(ItemsOf(t), ItemsOf(u), k);
    }
  }

  lemma {:induction false} ChildrenTold(cfg: TreeConfig, xs: seq<Tree>, ys: seq<Tree>, level: nat, k: Key)
    requires cfg.Valid() && AllInner(cfg, xs, level) && AllInner(cfg, ys, level)
    requires Sorted(AllItems(xs)) && Sorted(AllItems(ys))
    ensures Told(DiffChildren(xs, ys), k, Find(AllItems(xs), k), Find(AllItems(ys), k), BothMet(xs, ys, k))
    decreases xs, ys, 0
  {
    hide *;
    if xs == [] && ys == [] {
      NothingTold(k);
    } else if ys == [] || (xs != [] && KeyLess(MaxKey(xs[0]), MaxKey(ys[0]))) {
      HeadOrTail(cfg, xs, level, k);
      ChildrenTold(cfg, xs[1..], ys, level, k);
      LeftFirst(xs, ys, k);
    } else if xs == [] || KeyLess(MaxKey(ys[0]), MaxKey(xs[0])) {
      HeadOrTail(cfg, ys, level, k);
      ChildrenTold(cfg, xs, ys[1..], level, k);
      RightFirst(xs, ys, k);
    } else {
      SameKey(MaxKey(xs[0]), MaxKey(ys[0]));
      HeadOrTail(cfg, xs, level, k);
      HeadOrTail(cfg, ys, level, k);
      TreesTold(cfg, xs[0], ys[0], k);
      ChildrenTold(cfg, xs[1..], ys[1..], level, k);
      BothFirst(xs, ys, k);
    }
  }

  lemma NothingTold(k: Key)
    ensures Told(DiffChildren([], []), k, Find(AllItems([]), k), Find(AllItems([]), k), BothMet([], [], k))
  {
    EntriesForOther([], k);
  }

  lemma LeftFirst(xs: seq<Tree>, ys: seq<Tree>, k: Key)
    requires xs != [] && (ys == [] || KeyLess(MaxKey(xs[0]), MaxKey(ys[0]))) && HeadTailFound(xs, k)
    requires Told(DiffChildren(xs[1..], ys), k, Find(AllItems(xs[1..]), k), Find(AllItems(ys), k), BothMet(xs[1..], ys, k))
    ensures Told(DiffChildren(xs, ys), k, Find(AllItems(xs), k), Find(AllItems(ys), k), BothMet(xs, ys, k))
  {
    hide Find, Sorted, MaxKey, Route, ItemsOf, AllItems, Met, EntriesFor, AllAs;
    var s, rest := AllAs(ItemsOf(xs[0]), false), DiffChildren(xs[1..], ys);
    AllTold(ItemsOf(xs[0]), false, k);
    var x, y := Find(AllItems(xs), k), Find(AllItems(ys), k);
    if Find(ItemsOf(xs[0]), k).Some? {
      ToldApart(s, rest, k, x, y, false);
      if y.Some? { SomeChild(ys, k); RouteFirst(ys, k); }
    } else {
      ToldAfter(s, rest, k, x, y, BothMet(xs, ys, k), BothMet(xs[1..], ys, k));
    }
  }

  lemma RightFirst(xs: seq<Tree>, ys: seq<Tree>, k: Key)
    requires ys != [] && (xs == [] || KeyLess(MaxKey(ys[0]), MaxKey(xs[0]))) && HeadTailFound(ys, k)
    requires Told(DiffChildren(xs, ys[1..]), k, Find(AllItems(xs), k), Find(AllItems(ys[1..]), k), BothMet(xs, ys[1..], k))
    ensures Told(DiffChildren(xs, ys), k, Find(AllItems(xs), k), Find(AllItems(ys), k), BothMet(xs, ys, k))
  {
    hide Find, Sorted, MaxKey, Route, ItemsOf, AllItems, Met, EntriesFor, AllAs;
    var s, rest := AllAs(ItemsOf(ys[0]), true), DiffChildren(xs, ys[1..]);
    AllTold(ItemsOf(ys[0]), true, k);
    var x, y := Find(AllItems(xs), k), Find(AllItems(ys), k);
    if Find(ItemsOf(ys[0]), k).Some? {
      ToldApart(s, rest, k, x, y, true);
      if x.Some? { SomeChild(xs, k); RouteFirst(xs, k); }
    } else {
      ToldAfter(s, rest, k, x, y, BothMet(xs, ys, k), BothMet(xs, ys[1..], k));
    }
  }

  lemma BothFirst(xs: seq<Tree>, ys: seq<Tree>, k: Key)
    requires xs != [] && ys != [] && MaxKey(xs[0]) == MaxKey(ys[0]) && HeadTailFound(xs, k) && HeadTailFound(ys, k)
    requires Told(DiffTrees(xs[0], ys[0]), k, Find(ItemsOf(xs[0]), k), Find(ItemsOf(ys[0]), k), Met(xs[0], ys[0], k))
    requires var x, y := Find(AllItems(xs[1..]), k), Find(AllItems(ys[1..]), k);
             Told(DiffChildren(xs[1..], ys[1..]), k, x, y, BothMet(xs[1..], ys[1..], k))
    ensures Told(DiffChildren(xs, ys), k, Find(AllItems(xs), k), Find(AllItems(ys), k), BothMet(xs, ys, k))
  {
    hide Find, Sorted, MaxKey, Route, ItemsOf, AllItems, Met, EntriesFor, DiffTrees, DiffChildren;
    HeadsMatch(xs, ys);
    var d, f := DiffTrees(xs[0], ys[0]), DiffChildren(xs[1..], ys[1..]);
    var x, y := Find(AllItems(xs), k), Find(AllItems(ys), k);
    if Find(ItemsOf(xs[0]), k).Some? || Find(ItemsOf(ys[0]), k).Some? {
      ToldBefore(d, f, k, x, y, BothMet(xs, ys, k), Met(xs[0], ys[0], k));
    } else {
      ToldAfter(d, f, k, x, y, BothMet(xs, ys, k), BothMet(xs[1..], ys[1..], k));
    }
  }

  // ----- exactly when the difference is the difference of the maps

  ghost predicate NoKeyTwice(d: seq<DiffEntry>) {
    forall i, j :: 0 <= i < j < |d| ==> d[i].key != d[j].key
  }

  /** Exactly the changes of the map, each key once. */
  ghost predicate IsExact(a: seq<Item>, b: seq<Item>, d: seq<DiffEntry>) {
    NoKeyTwice(d) && forall e :: e in d <==> IsChange(a, b, e)
  }

  ghost predicate MetIfHeld(t: Tree, u: Tree, k: Key) {
    Find(ItemsOf(t), k).Some? && Find(ItemsOf(u), k).Some? ==> Met(t, u, k)
  }

  lemma {:induction false} OnceEach(d: seq<DiffEntry>, k: Key)
    requires NoKeyTwice(d)
    ensures |EntriesFor(d, k)| <= 1
    decreases |d|
  {
    if d != [] {
      if d[0].key == k { EntriesForOther(d[1..], k); } else { OnceEach(d[1..], k); }
    }
  }

  lemma {:induction false} OnceEachIs(d: seq<DiffEntry>)
    requires forall k :: |EntriesFor(d, k)| <= 1
    ensures NoKeyTwice(d)
    decreases |d|
  {
    if d != [] {
      forall k
        ensures |EntriesFor(d[1..], k)| <= 1
      {
        assert |EntriesFor(d, k)| <= 1;
      }
      OnceEachIs(d[1..]);
      forall j | 0 < j < |d|
        ensures d[j].key != d[0].key
      {
        EntriesForHas(d[1..], d[1..][j - 1]);
        assert |EntriesFor(d, d[0].key)| <= 1;
      }
      TailNoKeyTwice(d);
    }
  }

  lemma TailNoKeyTwice(d: seq<DiffEntry>)
    requires d != [] && NoKeyTwice(d[1..]) && forall j :: 0 < j < |d| ==> d[j].key != d[0].key
    ensures NoKeyTwice(d)
  {
    forall i, j | 0 <= i < j < |d|
      ensures d[i].key != d[j].key
    {
      if i > 0 { assert d[i] == d[1..][i - 1] && d[j] == d[1..][j - 1]; }
    }
  }

  /** The difference of two well-formed trees is exactly the difference of their maps,
      each changed key once, if and only if every key that both trees hold is met.
      A key that is held by both and not met is reported twice, as a deletion and an
      addition, whether its value changed or not. */
  lemma DiffExactIff(cfg: TreeConfig, t: Tree, u: Tree)
    requires cfg.Valid() && WellFormed(cfg, t) && WellFormed(cfg, u)
    ensures IsExact(ItemsOf(t), ItemsOf(u), DiffTrees(t, u)) <==> forall k :: MetIfHeld(t, u, k)
  {
    hide Find, Sorted, Body, ItemsOf, DiffTrees, Met, EntriesFor, NoKeyTwice;
    var a, b, d := ItemsOf(t), ItemsOf(u), DiffTrees(t, u);
    forall k
      ensures Told(d, k, Find(a, k), Find(b, k), Met(t, u, k))
    {
      TreesTold(cfg, t, u, k);
    }
    if forall k :: MetIfHeld(t, u, k) {
      AllMetIsExact(t, u, d);
    }
    if NoKeyTwice(d) {
      forall k
        ensures MetIfHeld(t, u, k)
      {
        OnceEach(d, k);
        assert Told(d, k, Find(a, k), Find(b, k), Met(t, u, k));
      }
    }
  }

  lemma AllMetIsExact(t: Tree, u: Tree, d: seq<DiffEntry>)
    requires forall k :: MetIfHeld(t, u, k)
    requires forall k :: Told(d, k, Find(ItemsOf(t), k), Find(ItemsOf(u), k), Met(t, u, k))
    ensures IsExact(ItemsOf(t), ItemsOf(u), d)
  {
    hide Find, ItemsOf, Met, EntriesFor, IsExact;
    forall k
      ensures EntriesFor(d, k) == KeyDiff(k, Find(ItemsOf(t), k), Find(ItemsOf(u), k))
    {
      assert MetIfHeld(t, u, k) && Told(d, k, Find(ItemsOf(t), k), Find(ItemsOf(u), k), Met(t, u, k));
    }
    KeyByKeyExact(ItemsOf(t), ItemsOf(u), d);
  }

  lemma KeyByKeyExact(a: seq<Item>, b: seq<Item>, d: seq<DiffEntry>)
    requires forall k :: EntriesFor(d, k) == KeyDiff(k, Find(a, k), Find(b, k))
    ensures IsExact(a, b, d)
  {
    hide Find, EntriesFor, NoKeyTwice;
    OnceEachIs(d);
    forall e
      ensures e in d <==> IsChange(a, b, e)
    {
      EntriesForHas(d, e);
    }
  }

  /** The same for roots; beside an absent tree the difference is always exact. */
  lemma RootsExactIff(cfg: TreeConfig, t: Option<Tree>, u: Option<Tree>)
    requires cfg.Valid() && (t.Some? ==> WellFormed(cfg, t.value)) && (u.Some? ==> WellFormed(cfg, u.value))
    ensures IsExact(RootItems(t), RootItems(u), DiffRoots(t, u)) <==>
              (t.Some? && u.Some? ==> forall k :: MetIfHeld(t.value, u.value, k))
  {
    hide Find, Sorted, Body, ItemsOf, DiffTrees, Met, EntriesFor, IsExact, AllAs;
    if t.Some? && u.Some? {
      DiffExactIff(cfg, t.value, u.value);
      if t == u { SameTree(t.value); }
    } else {
      var d := DiffRoots(t, u);
      forall k
        ensures EntriesFor(d, k) == KeyDiff(k, Find(RootItems(t), k), Find(RootItems(u), k))
      {
        EntriesForOther([], k);
        NotBelow([], k);
        if t.Some? { AllTold(ItemsOf(t.value), false, k); }
        if u.Some? { AllTold(ItemsOf(u.value), true, k); }
      }
      KeyByKeyExact(RootItems(t), RootItems(u), d);
    }
  }

  lemma SameTree(t: Tree)
    ensures DiffTrees(t, t) == []
  {
  }

  /** Trees with one skeleton meet at every key. */
  lemma {:induction false} SkeletonMeets(t: Tree, u: Tree, k: Key)
    requires SameSkeleton(t, u)
    ensures Met(t, u, k)
    decreases t
  {
    hide MaxKey, LowerBound;
    if t.Branch? && t.kids == [] {
      assert t == u;
    } else if t.Branch? {
      var i := Route(t.kids, k);
      assert Route(u.kids, k) == i;
      assert MaxKeys(t.kids)[i] == MaxKeys(u.kids)[i];
      SkeletonMeets(t.kids[i], u.kids[i], k);
    }
  }

  /** Two trees that do not have one skeleton, and whose difference is exact all the
      same: a leaf was added at the end. */
  lemma OtherSkeletonExact() returns (cfg: TreeConfig, t: Tree, u: Tree)
    ensures cfg.Valid() && WellFormed(cfg, t) && WellFormed(cfg, u) && !SameSkeleton(t, u)
    ensures IsExact(ItemsOf(t), ItemsOf(u), DiffTrees(t, u)) && DiffTrees(t, u) != []
  {
    cfg := TreeConfig(2, 1, 0, 0, 0, 0);
    var a, b := Item([1], []), Item([2], []);
    t := Branch(1, [Leaf([a])]);
    u := Branch(1, [Leaf([a]), Leaf([b])]);
    OneLeaf(cfg, a);
    assert KeyLess(a.key, b.key);
    TwoLeaves(cfg, [a], [b]);
    forall k
      ensures MetIfHeld(t, u, k)
    {
      MetInFirst(a, b, k);
    }
    DiffExactIff(cfg, t, u);
    FirstMatched(a, b);
  }

  lemma OneLeaf(cfg: TreeConfig, a: Item)
    requires cfg.minFanout <= 1 <= cfg.targetFanout
    ensures var t := Branch(1, [Leaf([a])]); WellFormed(cfg, t) && ItemsOf(t) == [a]
  {
    AllItemsOne(Leaf([a]));
    AllInnerOne(cfg, Leaf([a]), 0);
    BranchBody(cfg, 1, [Leaf([a])]);
  }

  lemma MetInFirst(a: Item, b: Item, k: Key)
    requires KeyLess(a.key, b.key)
    ensures MetIfHeld(Branch(1, [Leaf([a])]), Branch(1, [Leaf([a]), Leaf([b])]), k)
  {
    hide Find;
    var t, u := Branch(1, [Leaf([a])]), Branch(1, [Leaf([a]), Leaf([b])]);
    AllItemsOne(Leaf([a]));
    if Find(ItemsOf(t), k).Some? {
      MapAt([a], k);
      assert KeysOf([a])[0] == a.key;
      assert k == a.key;
      RouteFirst(t.kids, k);
      RouteFirst(u.kids, k);
      assert t.kids[0] == u.kids[0] && Met(t.kids[0], u.kids[0], k);
      assert ChildrenMet(t.kids, u.kids, k);
      assert t.Branch? && u.Branch? && t.level == u.level;
    }
  }

  lemma FirstMatched(a: Item, b: Item)
    requires KeyLess(a.key, b.key)
    ensures var t, u := Branch(1, [Leaf([a])]), Branch(1, [Leaf([a]), Leaf([b])]);
            DiffTrees(t, u) != [] && !SameSkeleton(t, u)
  {
    var xs, ys := [Leaf([a])], [Leaf([a]), Leaf([b])];
    assert Branch(1, xs) != Branch(1, ys) by { assert |xs| != |ys|; }
    HeadsMatch(xs, ys);
    assert DiffChildren(xs[1..], ys[1..]) == AllAs([b], true) + DiffChildren(xs[1..], ys[1..][1..]);
  }
}
