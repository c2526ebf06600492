/** What one insertion or deletion does to a node, exactly: where it splits, which
    sibling lends or is merged, and what becomes of the root. */
module Steps {
  import opened Keys
  import opened Items
  import opened Nodes
  import opened Trees
  import opened Insertion
  import opened Deletion

  // ----- entries of nodes

  /** The nodes `l'` and `r'` hold, in order, the entries of `l` and `r`. */
  ghost predicate SameEntries(l': Tree, r': Tree, l: Tree, r: Tree) {
    match (l', r', l, r)
    case (Leaf(a'), Leaf(b'), Leaf(a), Leaf(b)) => a' + b' == a + b
    case (Branch(i', a'), Branch(j', b'), Branch(i, a), Branch(j, b)) => i' == i && j' == j && a' + b' == a + b
    case _ => false
  }

  /** The node `u` holds, in order, the entries of `l` and `r`. */
  ghost predicate AllEntries(u: Tree, l: Tree, r: Tree) {
    match (u, l, r)
    case (Leaf(c), Leaf(a), Leaf(b)) => c == a + b
    case (Branch(m, c), Branch(i, a), Branch(j, b)) => m == i == j && c == a + b
    case _ => false
  }

  // ----- insertion

  /** The child that is descended into: the first whose largest key is not below the
      key, or the last one. */
  lemma RouteIsFirst(kids: seq<Tree>, k: Key)
    requires kids != [] && Ascending(MaxKeys(kids))
    ensures var i := Route(kids, k);
            && i < |kids|
            && (forall j :: 0 <= j < i ==> KeyLess(MaxKey(kids[j]), k))
            && (i < |kids| - 1 ==> KeyLeq(k, MaxKey(kids[i])))
  {
    hide MaxKey;
    var ks, i := MaxKeys(kids), Route(kids, k);
    forall j | 0 <= j < i
      ensures KeyLess(MaxKey(kids[j]), k)
    {
      assert ks[j] == MaxKey(kids[j]);
    }
    if i < |kids| - 1 { assert ks[i] == MaxKey(kids[i]); }
  }

  /** A node splits exactly when it is full and gets an entry more: a leaf a new key, a
      branch the other half of a child. The left half gets half of the entries, rounded
      down, the right half the others, in order; a node that does not split has them all. */
  lemma SplitsInHalf(cfg: TreeConfig, t: Tree, k: Key, v: Value)
    requires cfg.Valid() && RootShape(cfg, t) && Sorted(ItemsOf(t))
    ensures var g := Insert(cfg, t, k, v);
            var more := if t.Leaf? then Find(t.items, k).None? else Insert(cfg, t.kids[Route(t.kids, k)], k, v).right.Some?;
            && (g.right.Some? <==> more && Size(t) == cfg.targetFanout)
            && (g.right.Some? ==>
                 Size(g.left) == (Size(t) + 1) / 2 && Size(g.left) + Size(g.right.value) == Size(t) + 1)
            && (g.right.None? ==> Size(g.left) == Size(t) + if more then 1 else 0)
  {
    hide AllItems, Inner, AllInner, Upsert, Find, Sorted, Route;
    if t.Leaf? { UpsertSorted(t.items, k, v); }
  }

  /** The entries that a leaf or branch has after an insertion, whether it splits or not. */
  lemma InsertedEntries(cfg: TreeConfig, t: Tree, k: Key, v: Value)
    requires cfg.Valid() && RootShape(cfg, t)
    ensures var g := Insert(cfg, t, k, v);
            if t.Leaf?
            then
              && g.left.Leaf? && (g.right.Some? ==> g.right.value.Leaf?)
              && Upsert(t.items, k, v) == g.left.items + if g.right.Some? then g.right.value.items else []
            else
              var i := Route(t.kids, k);
              && g.left.Branch? && g.left.level == t.level
              && (g.right.Some? ==> g.right.value.Branch? && g.right.value.level == t.level)
              && t.kids[..i] + Insert(cfg, t.kids[i], k, v).Trees() + t.kids[i + 1..]
                   == g.left.kids + if g.right.Some? then g.right.value.kids else []
  {
    hide AllItems, Inner, AllInner, Upsert, Route;
    if t.Leaf? {
      LeafEntriesAre(cfg, Upsert(t.items, k, v));
    } else {
      var i := Route(t.kids, k);
      BranchEntriesAre(cfg, t.level, t.kids, i, Insert(cfg, t.kids[i], k, v));
    }
  }

  lemma LeafEntriesAre(cfg: TreeConfig, items: seq<Item>)
    ensures var g := GrowLeaf(cfg, items);
            && g.left.Leaf? && (g.right.Some? ==> g.right.value.Leaf?)
            && items == g.left.items + if g.right.Some? then g.right.value.items else []
  {
  }

  lemma BranchEntriesAre(cfg: TreeConfig, level: nat, kids: seq<Tree>, i: nat, g: Grown)
    requires i < |kids|
    ensures var g' := BranchGrown(cfg, level, kids, i, g);
            && g'.left.Branch? && g'.left.level == level
            && (g'.right.Some? ==> g'.right.value.Branch? && g'.right.value.level == level)
            && kids[..i] + g.Trees() + kids[i + 1..] == g'.left.kids + if g'.right.Some? then g'.right.value.kids else []
  {
    var kids' := kids[..i] + g.Trees() + kids[i + 1..];
    if g.right.None? { assert kids[i := g.left] == kids'; }
  }

  /** The root after an insertion: the grown tree, or one new branch over its halves,
      one level up. */
  lemma InsertedRoot(cfg: TreeConfig, t: Tree, k: Key, v: Value)
    requires cfg.Valid() && WellFormed(cfg, t)
    ensures var g, u := Insert(cfg, t, k, v), InsertRoot(cfg, Some(t), k, v);
            && Level(g.left) == Level(t)
            && (if g.right.None? then u == g.left
                else u.Branch? && u.level == Level(t) + 1 && u.kids == [g.left, g.right.value])
    ensures InsertRoot(cfg, None, k, v) == Leaf([Item(k, v)])
  {
    hide AllItems, Insert, Sorted;
    InsertCorrect(cfg, t, k, v);
  }

  // ----- deletion

  /** Child `j` has given one entry to child `i`, which was `w` before, and all other
      children are as they were. */
  ghost predicate Lent(kids: seq<Tree>, w: Tree, i: nat, j: nat, kids': seq<Tree>)
    requires i < |kids| && j < |kids|
  {
    && |kids'| == |kids|
    && Size(kids'[j]) == Size(kids[j]) - 1 && Size(kids'[i]) == Size(w) + 1
    && (if j < i then SameEntries(kids'[j], kids'[i], kids[j], w) else SameEntries(kids'[i], kids'[j], w, kids[j]))
    && forall m :: 0 <= m < |kids| && m != i && m != j ==> kids'[m] == kids[m]
  }

  /** The neighbours at `p` and `p + 1` have become one, and all other children are as
      they were. */
  ghost predicate Joined(kids: seq<Tree>, l: Tree, r: Tree, p: nat, kids': seq<Tree>)
    requires p + 1 < |kids|
  {
    && |kids'| == |kids| - 1 && AllEntries(kids'[p], l, r)
    && (forall m :: 0 <= m < p ==> kids'[m] == kids[m])
    && (forall m :: p < m < |kids'| ==> kids'[m] == kids[m + 1])
  }

  ghost predicate CanLend(cfg: TreeConfig, kids: seq<Tree>, j: int) {
    0 <= j < |kids| && Size(kids[j]) > cfg.minFanout
  }

  /** What a branch makes of an updated child `w`: it takes it as it is when it has
      enough entries; else the left sibling lends one entry if it has more than the
      minimum, else the right one if it has, else the child and the left sibling become
      one, or, for a first child, the child and the right one. */
  lemma DeleteRepairs(cfg: TreeConfig, t: Tree, k: Key)
    requires cfg.Valid() && RootShape(cfg, t) && Sorted(ItemsOf(t)) && t.Branch?
    requires t.kids != [] && Delete(cfg, t.kids[Route(t.kids, k)], k).Updated?
    ensures Delete(cfg, t, k).Updated? && Delete(cfg, t, k).tree.Branch? && Delete(cfg, t, k).tree.level == t.level
    ensures var kids, i := t.kids, Route(t.kids, k);
            var w, kids' := Delete(cfg, kids[i], k).tree, Delete(cfg, t, k).tree.kids;
            if Size(w) >= cfg.minFanout then kids' == kids[i := w]
            else
              && Size(w) == cfg.minFanout - 1 && |kids| > 1
              && (|kids'| == |kids| - 1 <==> !CanLend(cfg, kids, i - 1) && !CanLend(cfg, kids, i + 1))
              && (if CanLend(cfg, kids, i - 1) then Lent(kids, w, i, i - 1, kids')
                  else if CanLend(cfg, kids, i + 1) then Lent(kids, w, i, i + 1, kids')
                  else if i > 0 then Joined(kids, kids[i - 1], w, i - 1, kids')
                  else Joined(kids, w, kids[1], 0, kids'))
  {
    hide AllItems, Find, Without, Inner, AllInner, Route, Sorted, Rebalance, ItemsOf, Lent, Joined;
    var kids, i := t.kids, Route(t.kids, k);
    BranchAround(cfg, t, k);
    SortedRoute(cfg, t, k);
    KidRootShape(cfg, kids[i]);
    DeleteCorrect(cfg, kids[i], k);
    DeleteCorrect(cfg, t, k);
    InnerBody(cfg, kids[i]);
    var w := Delete(cfg, kids[i], k).tree;
    if Size(w) < cfg.minFanout {
      KidsInner(cfg, t);
      RepairIs(cfg, t, i, w);
    }
  }

  lemma SortedRoute(cfg: TreeConfig, t: Tree, k: Key)
    requires cfg.Valid() && RootShape(cfg, t) && Sorted(ItemsOf(t)) && t.Branch? && t.kids != []
    ensures Sorted(ItemsOf(t.kids[Route(t.kids, k)]))
  {
    hide AllItems, Inner, AllInner, Route, Sorted, AllBelow, AllAbove;
    KidsInner(cfg, t);
    RouteSplits(cfg, t.kids, t.level - 1, k);
  }

  lemma RepairIs(cfg: TreeConfig, t: Tree, i: nat, w: Tree)
    requires cfg.Valid() && RootShape(cfg, t) && t.Branch? && i < |t.kids|
    requires Loose(cfg, w, t.level - 1) && Size(w) == cfg.minFanout - 1 && Size(w) > 0
    ensures |t.kids| > 1
    ensures var r := Rebalance(cfg, t.kids[i := w], i);
            var kids := t.kids;
            r.Some? ==>
              var kids' := r.value;
              && (|kids'| == |kids| - 1 <==> !CanLend(cfg, kids, i - 1) && !CanLend(cfg, kids, i + 1))
              && (if CanLend(cfg, kids, i - 1) then Lent(kids, w, i, i - 1, kids')
                  else if CanLend(cfg, kids, i + 1) then Lent(kids, w, i, i + 1, kids')
                  else if i > 0 then Joined(kids, kids[i - 1], w, i - 1, kids')
                  else Joined(kids, w, kids[1], 0, kids'))
  {
    hide AllItems, Inner, AllInner, Lent, Joined, ShiftRight, ShiftLeft, Join, Borrowed, MergedAt;
    KidsInner(cfg, t);
    var kids := t.kids[i := w];
    if i > 0 {
      LeftLends(cfg, t, i, w);
      BecomeOne(cfg, t, i - 1, kids[i - 1], w, i, w);
    }
    if i + 1 < |kids| {
      RightLends(cfg, t, i, w);
      BecomeOne(cfg, t, i, w, kids[i + 1], i, w);
    }
  }

  lemma LeftLends(cfg: TreeConfig, t: Tree, i: nat, w: Tree)
    requires Body(cfg, t) && t.Branch? && 0 < i < |t.kids| && Loose(cfg, w, t.level - 1)
    ensures var kids := t.kids[i := w];
            var r := Borrowed(kids, i - 1, ShiftRight(kids[i - 1], kids[i]));
            r.Some? ==> Lent(t.kids, w, i, i - 1, r.value) && |r.value| == |kids|
  {
    hide AllItems, Inner, AllInner;
    KidsInner(cfg, t);
  }

  lemma RightLends(cfg: TreeConfig, t: Tree, i: nat, w: Tree)
    requires Body(cfg, t) && t.Branch? && i + 1 < |t.kids| && Loose(cfg, w, t.level - 1)
    ensures var kids := t.kids[i := w];
            var r := Borrowed(kids, i, ShiftLeft(kids[i], kids[i + 1]));
            r.Some? ==> Lent(t.kids, w, i, i + 1, r.value) && |r.value| == |kids|
  {
    hide AllItems, Inner, AllInner;
    KidsInner(cfg, t);
  }

  lemma BecomeOne(cfg: TreeConfig, t: Tree, p: nat, l: Tree, r: Tree, i: nat, w: Tree)
    requires Body(cfg, t) && t.Branch? && p + 1 < |t.kids| && (i == p || i == p + 1) && Loose(cfg, w, t.level - 1)
    requires var kids := t.kids[i := w]; l == kids[p] && r == kids[p + 1]
    ensures var m := MergedAt(t.kids[i := w], p);
            m.Some? ==> Joined(t.kids, l, r, p, m.value) && |m.value| == |t.kids| - 1
  {
    hide AllItems, Inner, AllInner;
    KidsInner(cfg, t);
  }

  /** A child that is gone is dropped, and with the last child the branch is gone too. */
  lemma DeleteDrops(cfg: TreeConfig, t: Tree, k: Key)
    requires cfg.Valid() && RootShape(cfg, t) && t.Branch? && t.kids != []
    requires Delete(cfg, t.kids[Route(t.kids, k)], k).Merged?
    ensures var i, s := Route(t.kids, k), Delete(cfg, t, k);
            if |t.kids| == 1 then s.Merged?
            else
              && s.Updated? && s.tree.Branch? && s.tree.level == t.level && |s.tree.kids| == |t.kids| - 1
              && (forall m :: 0 <= m < i ==> s.tree.kids[m] == t.kids[m])
              && (forall m :: i <= m < |s.tree.kids| ==> s.tree.kids[m] == t.kids[m + 1])
  {
    hide AllItems, Inner, AllInner, Route;
  }

  /** The root after a deletion: a branch left with a single child gives way to it, and
      so the tree is one level lower exactly then. */
  lemma DeletedRoot(cfg: TreeConfig, t: Tree, k: Key)
    requires cfg.Valid() && WellFormed(cfg, t) && Delete(cfg, t, k).Updated?
    ensures var u, t' := Delete(cfg, t, k).tree, DeleteRoot(cfg, Some(t), k);
            && t'.Some? && Level(u) == Level(t)
            && (if u.Branch? && |u.kids| == 1 then u.kids == [t'.value] && Level(t'.value) == Level(t) - 1
                else t' == Some(u))
  {
    hide AllItems, Delete, Sorted, Find, Without;
    DeleteCorrect(cfg, t, k);
    var u := Delete(cfg, t, k).tree;
    if u.Branch? { KidsInner(cfg, u); }
  }
}
