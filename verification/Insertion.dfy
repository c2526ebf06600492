/** Insertion on trees: descent, leaf split, internal split. */
module Insertion {
  import opened Keys
  import opened Items
  import opened Nodes
  import opened Trees

  ghost function MaxKeys(kids: seq<Tree>): (ks: seq<Key>)
    ensures |ks| == |kids|
    ensures forall i :: 0 <= i < |kids| ==> ks[i] == MaxKey(kids[i])
  {
    seq(|kids|, i requires 0 <= i < |kids| => MaxKey(kids[i]))
  }

  /** The child a key is looked for in: the first whose boundary is not below the
      key, or the last child. */
  ghost function Route(kids: seq<Tree>, k: Key): (i: nat)
    requires kids != []
    ensures i < |kids|
  {
    var p := LowerBound(MaxKeys(kids), k);
    if p < |kids| then p else |kids| - 1
  }

  /** One tree, or two when it had to split. */
  datatype Grown = Grown(left: Tree, right: Option<Tree>) {
    function Trees(): seq<Tree> {
      if right.Some? then [left, right.value] else [left]
    }
  }

  ghost function GrowLeaf(cfg: TreeConfig, items: seq<Item>): Grown {
    var mid := |items| / 2;
    if |items| > cfg.targetFanout then Grown(Leaf(items[..mid]), Some(Leaf(items[mid..])))
    else Grown(Leaf(items), None)
  }

  ghost function GrowBranch(cfg: TreeConfig, level: nat, kids: seq<Tree>): Grown {
    var mid := |kids| / 2;
    if |kids| > cfg.targetFanout then Grown(Branch(level, kids[..mid]), Some(Branch(level, kids[mid..])))
    else Grown(Branch(level, kids), None)
  }

  /** A branch whose child `i` grew; only a child's split can make it split. */
  ghost function BranchGrown(cfg: TreeConfig, level: nat, kids: seq<Tree>, i: nat, g: Grown): Grown
    requires i < |kids|
  {
    if g.right.None? then Grown(Branch(level, kids[i := g.left]), None)
    else GrowBranch(cfg, level, kids[..i] + g.Trees() + kids[i + 1..])
  }

  ghost function Insert(cfg: TreeConfig, t: Tree, k: Key, v: Value): Grown
    decreases t
  {
    match t
    case Leaf(items) => GrowLeaf(cfg, Upsert(items, k, v))
    case Branch(level, kids) =>
      if kids == [] then Grown(t, None) else
      var i := Route(kids, k);
      BranchGrown(cfg, level, kids, i, Insert(cfg, kids[i], k, v))
  }

  /** The new root: the grown tree itself, or a branch over its two halves. */
  ghost function InsertRoot(cfg: TreeConfig, t: Option<Tree>, k: Key, v: Value): Tree {
    if t.None? then Leaf([Item(k, v)]) else
    var g := Insert(cfg, t.value, k, v);
    if g.right.None? then g.left else Branch(Level(t.value) + 1, g.Trees())
  }

  /** The root splits, and the level of a new root would not fit a byte. */
  ghost predicate Overflows(cfg: TreeConfig, t: Option<Tree>, k: Key, v: Value) {
    t.Some? && Level(t.value) == MAX_LEVEL && Insert(cfg, t.value, k, v).right.Some?
  }

  /** The tree that is left after an insertion: on an overflow, the left half alone. */
  ghost function NewTop(cfg: TreeConfig, t: Option<Tree>, k: Key, v: Value): Tree {
    if Overflows(cfg, t, k, v) then Insert(cfg, t.value, k, v).left else InsertRoot(cfg, t, k, v)
  }

  // ----- the descent

  /** The items before the chosen child are below the key, those after above. */
  lemma RouteSplits(cfg: TreeConfig, kids: seq<Tree>, level: nat, k: Key)
    requires cfg.Valid() && kids != [] && AllInner(cfg, kids, level) && Sorted(AllItems(kids))
    ensures var i := Route(kids, k);
            && AllItems(kids) == AllItems(kids[..i]) + ItemsOf(kids[i]) + AllItems(kids[i + 1..])
            && Sorted(ItemsOf(kids[i]))
            && AllBelow(AllItems(kids[..i]), k)
            && AllAbove(AllItems(kids[i + 1..]), k)
  {
    hide AllItems, ItemsOf, AllInner, Inner, Sorted, AllBelow, AllAbove, Route;
    var i := Route(kids, k);
    assert kids == kids[..i] + [kids[i]] + kids[i + 1..];
    AllItemsAround(kids[..i], kids[i], kids[i + 1..]);
    SortedParts(AllItems(kids[..i]) + ItemsOf(kids[i]), AllItems(kids[i + 1..]));
    SortedParts(AllItems(kids[..i]), ItemsOf(kids[i]));
    RouteBelow(cfg, kids, level, k);
    RouteAbove(cfg, kids, level, k);
  }

  lemma RouteBelow(cfg: TreeConfig, kids: seq<Tree>, level: nat, k: Key)
    requires cfg.Valid() && kids != [] && AllInner(cfg, kids, level)
    requires Sorted(AllItems(kids[..Route(kids, k)]))
    ensures AllBelow(AllItems(kids[..Route(kids, k)]), k)
  {
    hide AllItems, ItemsOf, AllInner, Inner, Sorted, MaxKey;
    var i := Route(kids, k);
    AllInnerParts(cfg, kids, level, i);
    if i > 0 {
      assert MaxKeys(kids)[i - 1] == MaxKey(kids[..i][i - 1]);
      BelowLast(cfg, kids[..i], level, k);
    } else {
      AllItemsNone();
      assert kids[..i] == [];
    }
  }

  lemma RouteAbove(cfg: TreeConfig, kids: seq<Tree>, level: nat, k: Key)
    requires cfg.Valid() && kids != [] && AllInner(cfg, kids, level)
    requires var i := Route(kids, k); Sorted(AllItems(kids[..i]) + ItemsOf(kids[i]) + AllItems(kids[i + 1..]))
    ensures AllAbove(AllItems(kids[Route(kids, k) + 1..]), k)
  {
    hide AllItems, ItemsOf, AllInner, Inner, Sorted;
    var i := Route(kids, k);
    if i < |kids| - 1 {
      assert Pos(k) <= Pos(MaxKeys(kids)[i]);
      KidInner(cfg, kids, level, i);
      InnerBody(cfg, kids[i]);
      InnerNonEmpty(cfg, kids[i]);
      AboveFirst(AllItems(kids[..i]), ItemsOf(kids[i]), AllItems(kids[i + 1..]), k);
    } else {
      AllItemsNone();
      assert kids[i + 1..] == [];
    }
  }

  lemma BelowLast(cfg: TreeConfig, kids: seq<Tree>, level: nat, k: Key)
    requires cfg.Valid() && kids != [] && AllInner(cfg, kids, level) && Sorted(AllItems(kids))
    requires Pos(MaxKey(kids[|kids| - 1])) < Pos(k)
    ensures AllBelow(AllItems(kids), k)
  {
    MaxKeyOfLast(cfg, kids, level);
  }

  lemma AboveFirst(a: seq<Item>, b: seq<Item>, c: seq<Item>, k: Key)
    requires Sorted(a + b + c) && b != [] && Pos(k) <= Pos(b[|b| - 1].key)
    ensures AllAbove(c, k)
  {
    SortedParts(a + b, c);
    assert (a + b)[|a| + |b| - 1] == b[|b| - 1];
  }

  // ----- correctness

  /** What a grown tree owes: the items, the level, and the occupancy; the halves of a
      split share one entry more than the target, the right one the odd one. */
  ghost predicate GrownOk(cfg: TreeConfig, g: Grown, items: seq<Item>, level: nat, size: nat) {
    && AllItems(g.Trees()) == items
    && Level(g.left) == level && Body(cfg, g.left) && Size(g.left) <= cfg.targetFanout
    && (g.right.None? ==> Size(g.left) >= size)
    && (g.right.Some? ==>
         && Inner(cfg, g.left) && Inner(cfg, g.right.value)
         && Level(g.right.value) == level
         && Size(g.left) == (cfg.targetFanout + 1) / 2 && Size(g.left) + Size(g.right.value) == cfg.targetFanout + 1)
  }

  lemma GrowLeafOk(cfg: TreeConfig, items: seq<Item>, size: nat)
    requires cfg.Valid() && size <= |items| <= cfg.targetFanout + 1
    ensures GrownOk(cfg, GrowLeaf(cfg, items), items, 0, size)
  {
    var g := GrowLeaf(cfg, items);
    if g.right.Some? {
      AllItemsTwo(g.left, g.right.value);
      assert items[..|items| / 2] + items[|items| / 2..] == items;
    } else {
      AllItemsOne(g.left);
    }
  }

  lemma GrowBranchOk(cfg: TreeConfig, level: nat, kids: seq<Tree>, size: nat)
    requires cfg.Valid() && size <= |kids| <= cfg.targetFanout + 1
    requires level > 0 && AllInner(cfg, kids, level - 1)
    ensures GrownOk(cfg, GrowBranch(cfg, level, kids), AllItems(kids), level, size)
  {
    var g := GrowBranch(cfg, level, kids);
    var mid := |kids| / 2;
    if g.right.Some? {
      AllInnerParts(cfg, kids, level - 1, mid);
      AllItemsTwo(g.left, g.right.value);
      AllItemsAppend(kids[..mid], kids[mid..]);
      assert kids[..mid] + kids[mid..] == kids;
    } else {
      AllItemsOne(g.left);
    }
  }

  /** Insertion keeps the shape and updates the items: the halves of a split are
      both in shape, and together hold the old items with `k` set to `v`. */
  lemma {:induction false} InsertCorrect(cfg: TreeConfig, t: Tree, k: Key, v: Value)
    requires cfg.Valid() && Body(cfg, t) && 1 <= Size(t) <= cfg.targetFanout && Sorted(ItemsOf(t))
    ensures GrownOk(cfg, Insert(cfg, t, k, v), Upsert(ItemsOf(t), k, v), Level(t), Size(t))
    decreases t
  {
    if t.Leaf? {
      UpsertSorted(t.items, k, v);
      GrowLeafOk(cfg, Upsert(t.items, k, v), |t.items|);
    } else {
      hide AllItems, Upsert, Inner, AllInner, Route, GrownOk, GrowBranch;
      var kids, i := t.kids, Route(t.kids, k);
      KidsInner(cfg, t);
      RouteSplits(cfg, kids, t.level - 1, k);
      InnerBody(cfg, kids[i]);
      InsertCorrect(cfg, kids[i], k, v);
      InsertInBranch(cfg, t, k, v, Insert(cfg, kids[i], k, v));
    }
  }

  lemma InsertInBranch(cfg: TreeConfig, t: Tree, k: Key, v: Value, g: Grown)
    requires cfg.Valid() && Body(cfg, t) && 1 <= Size(t) <= cfg.targetFanout && Sorted(ItemsOf(t)) && t.Branch?
    requires var kid := t.kids[Route(t.kids, k)];
             g == Insert(cfg, kid, k, v) && GrownOk(cfg, g, Upsert(ItemsOf(kid), k, v), Level(kid), Size(kid))
    ensures GrownOk(cfg, Insert(cfg, t, k, v), Upsert(ItemsOf(t), k, v), Level(t), Size(t))
    ensures var i := Route(t.kids, k);
            var kids' := t.kids[..i] + g.Trees() + t.kids[i + 1..];
            AllInner(cfg, kids', t.level - 1) && AllItems(kids') == Upsert(ItemsOf(t), k, v)
  {
    hide AllItems, Upsert, Inner, AllInner, Route, GrowBranch;
    var kids, i := t.kids, Route(t.kids, k);
    KidsInner(cfg, t);
    RouteSplits(cfg, kids, t.level - 1, k);
    UpdateInMiddle(AllItems(kids[..i]), ItemsOf(kids[i]), AllItems(kids[i + 1..]), k, v);
    AllItemsThree(kids[..i], g.Trees(), kids[i + 1..]);
    ReplaceInner(cfg, kids, t.level - 1, i, g);
    BranchGrows(cfg, t.level, kids, i, g);
  }

  lemma ReplaceInner(cfg: TreeConfig, kids: seq<Tree>, level: nat, i: nat, g: Grown)
    requires i < |kids| && AllInner(cfg, kids, level)
    requires GrownOk(cfg, g, AllItems(g.Trees()), level, Size(kids[i]))
    ensures AllInner(cfg, kids[..i] + g.Trees() + kids[i + 1..], level)
  {
    assert Inner(cfg, kids[i]);
    assert Inner(cfg, g.left);
    AllInnerParts(cfg, kids, level, i);
    AllInnerParts(cfg, kids, level, i + 1);
  }

  /** A branch whose child grew. */
  lemma BranchGrows(cfg: TreeConfig, level: nat, kids: seq<Tree>, i: nat, g: Grown)
    requires cfg.Valid() && level > 0 && i < |kids| <= cfg.targetFanout
    requires AllInner(cfg, kids[..i] + g.Trees() + kids[i + 1..], level - 1)
    ensures var kids' := kids[..i] + g.Trees() + kids[i + 1..];
            GrownOk(cfg, BranchGrown(cfg, level, kids, i, g), AllItems(kids'), level, |kids|)
  {
    var kids' := kids[..i] + g.Trees() + kids[i + 1..];
    if g.right.None? {
      assert kids[i := g.left] == kids';
      AllItemsOne(Branch(level, kids'));
    } else {
      GrowBranchOk(cfg, level, kids', |kids|);
    }
  }

  /** Insertion into a whole tree: the result is well formed and denotes the
      updated map. */
  lemma InsertRootCorrect(cfg: TreeConfig, t: Option<Tree>, k: Key, v: Value)
    requires cfg.Valid() && (t.Some? ==> WellFormed(cfg, t.value))
    ensures WellFormed(cfg, InsertRoot(cfg, t, k, v))
    ensures ItemsOf(InsertRoot(cfg, t, k, v)) == if t.None? then [Item(k, v)] else Upsert(ItemsOf(t.value), k, v)
  {
    if t.Some? {
      InsertCorrect(cfg, t.value, k, v);
      UpsertSorted(ItemsOf(t.value), k, v);
      var g := Insert(cfg, t.value, k, v);
      if g.right.None? { AllItemsOne(g.left); }
    }
  }

  /** What is left after an insertion is well formed, and denotes the updated map; on
      an overflow, only the lower part of it. */
  lemma NewTopCorrect(cfg: TreeConfig, t: Option<Tree>, k: Key, v: Value)
    requires cfg.Valid() && (t.Some? ==> WellFormed(cfg, t.value))
    ensures WellFormed(cfg, NewTop(cfg, t, k, v))
    ensures var items := if t.None? then [Item(k, v)] else Upsert(ItemsOf(t.value), k, v);
            if Overflows(cfg, t, k, v)
            then var lost := ItemsOf(Insert(cfg, t.value, k, v).right.value);
                 lost != [] && ItemsOf(NewTop(cfg, t, k, v)) + lost == items
            else ItemsOf(NewTop(cfg, t, k, v)) == items
  {
    hide AllItems, Insert, Upsert, Sorted, Inner;
    InsertRootCorrect(cfg, t, k, v);
    if Overflows(cfg, t, k, v) {
      InsertCorrect(cfg, t.value, k, v);
      UpsertSorted(ItemsOf(t.value), k, v);
      var g := Insert(cfg, t.value, k, v);
      AllItemsTwo(g.left, g.right.value);
      InnerBody(cfg, g.left);
      InnerBody(cfg, g.right.value);
      InnerNonEmpty(cfg, g.right.value);
      SortedParts(ItemsOf(g.left), ItemsOf(g.right.value));
    }
  }
}
