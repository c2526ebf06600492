/** Deletion on trees: descent, borrowing from a sibling, merging, collapse. */
module Deletion {
  import opened Keys
  import opened Items
  import opened Nodes
  import opened Trees
  import opened Insertion

  // ----- moving entries between two siblings

  /** Moves the last entry of `l` to the front of `u`; None is an internal error. */
  ghost function ShiftRight(l: Tree, u: Tree): Option<(Tree, Tree)> {
    match (l, u)
    case (Leaf(ls), Leaf(us)) =>
      if ls == [] then None else Some((Leaf(ls[..|ls| - 1]), Leaf([ls[|ls| - 1]] + us)))
    case (Branch(ll, ls), Branch(ul, us)) =>
      if ls == [] then None else Some((Branch(ll, ls[..|ls| - 1]), Branch(ul, [ls[|ls| - 1]] + us)))
    case _ => None
  }

  /** Moves the first entry of `r` to the end of `u`. */
  ghost function ShiftLeft(u: Tree, r: Tree): Option<(Tree, Tree)> {
    match (u, r)
    case (Leaf(us), Leaf(rs)) =>
      if rs == [] then None else Some((Leaf(us + [rs[0]]), Leaf(rs[1..])))
    case (Branch(ul, us), Branch(rl, rs)) =>
      if rs == [] then None else Some((Branch(ul, us + [rs[0]]), Branch(rl, rs[1..])))
    case _ => None
  }

  /** One node with the entries of both. */
  ghost function Join(l: Tree, r: Tree): Option<Tree> {
    match (l, r)
    case (Leaf(ls), Leaf(rs)) => Some(Leaf(ls + rs))
    case (Branch(ll, ls), Branch(rl, rs)) => Some(Branch(ll, ls + rs))
    case _ => None
  }

  /** Replaces the two neighbours at `i` and `i + 1`. */
  ghost function Splice(kids: seq<Tree>, i: nat, mid: seq<Tree>): seq<Tree>
    requires i + 1 < |kids|
  {
    kids[..i] + mid + kids[i + 2..]
  }

  ghost function Borrowed(kids: seq<Tree>, i: nat, pair: Option<(Tree, Tree)>): Option<seq<Tree>>
    requires i + 1 < |kids|
  {
    if pair.None? then None else Some(Splice(kids, i, [pair.value.0, pair.value.1]))
  }

  ghost function MergedAt(kids: seq<Tree>, i: nat): Option<seq<Tree>>
    requires i + 1 < |kids|
  {
    var j := Join(kids[i], kids[i + 1]);
    if j.None? then None else Some(Splice(kids, i, [j.value]))
  }

  /** What a parent does about an underfull child; None is an internal error. */
  ghost function Rebalance(cfg: TreeConfig, kids: seq<Tree>, i: nat): Option<seq<Tree>>
    requires i < |kids|
  {
    if i > 0 && Size(kids[i - 1]) > cfg.minFanout then Borrowed(kids, i - 1, ShiftRight(kids[i - 1], kids[i]))
    else if i + 1 < |kids| && Size(kids[i + 1]) > cfg.minFanout then Borrowed(kids, i, ShiftLeft(kids[i], kids[i + 1]))
    else if i > 0 then MergedAt(kids, i - 1)
    else if |kids| <= 1 then None
    else MergedAt(kids, 0)
  }

  // ----- deletion

  /** `Failed` stands for the internal errors of the source. */
  datatype Shrunk = NotFound | Updated(tree: Tree) | Merged | Failed

  ghost function Delete(cfg: TreeConfig, t: Tree, k: Key): Shrunk
    decreases t
  {
    match t
    case Leaf(items) =>
      if Find(items, k).None? then (if items == [] then Failed else NotFound)
      else if Without(items, k) == [] then Merged
      else Updated(Leaf(Without(items, k)))
    case Branch(level, kids) =>
      if kids == [] || level == 0 then Failed else
      var i := Route(kids, k);
      match Delete(cfg, kids[i], k)
      case NotFound => NotFound
      case Failed => Failed
      case Merged =>
        var kids' := kids[..i] + kids[i + 1..];
        if kids' == [] then Merged else Updated(Branch(level, kids'))
      case Updated(u) => AfterUpdate(cfg, level, kids[i := u], i)
  }

  ghost function AfterUpdate(cfg: TreeConfig, level: nat, kids: seq<Tree>, i: nat): Shrunk
    requires i < |kids|
  {
    if Size(kids[i]) >= cfg.minFanout then Updated(Branch(level, kids))
    else match Rebalance(cfg, kids, i)
      case None => Failed
      case Some(kids') => if kids' == [] then Merged else Updated(Branch(level, kids'))
  }

  /** The new root: an internal root left with one child gives way to it. */
  ghost function Collapse(t: Tree): Tree {
    if t.Branch? && |t.kids| == 1 then t.kids[0] else t
  }

  ghost function DeleteRoot(cfg: TreeConfig, t: Option<Tree>, k: Key): Option<Tree> {
    if t.None? then None else
    match Delete(cfg, t.value, k)
    case NotFound => t
    case Failed => t
    case Merged => None
    case Updated(u) => Some(Collapse(u))
  }

  // ----- correctness of the sibling operations

  ghost predicate Loose(cfg: TreeConfig, t: Tree, level: nat) {
    Body(cfg, t) && Level(t) == level
  }

  lemma ShiftRightOk(cfg: TreeConfig, l: Tree, u: Tree, level: nat)
    requires Loose(cfg, l, level) && Loose(cfg, u, level) && Size(l) > 0
    ensures var p := ShiftRight(l, u);
            && p.Some? && Loose(cfg, p.value.0, level) && Loose(cfg, p.value.1, level)
            && Size(p.value.0) == Size(l) - 1 && Size(p.value.1) == Size(u) + 1
            && ItemsOf(p.value.0) + ItemsOf(p.value.1) == ItemsOf(l) + ItemsOf(u)
  {
    KindOfLevel(cfg, l);
    KindOfLevel(cfg, u);
    var n := Size(l) - 1;
    if l.Branch? {
      KidsInner(cfg, l);
      KidsInner(cfg, u);
      BranchPair(cfg, level, l.kids[..n], [l.kids[n]], u.kids);
      assert l.kids[..n] + [l.kids[n]] == l.kids;
    } else {
      assert l.items[..n] + [l.items[n]] == l.items;
    }
  }

  lemma ShiftLeftOk(cfg: TreeConfig, u: Tree, r: Tree, level: nat)
    requires Loose(cfg, u, level) && Loose(cfg, r, level) && Size(r) > 0
    ensures var p := ShiftLeft(u, r);
            && p.Some? && Loose(cfg, p.value.0, level) && Loose(cfg, p.value.1, level)
            && Size(p.value.0) == Size(u) + 1 && Size(p.value.1) == Size(r) - 1
            && ItemsOf(p.value.0) + ItemsOf(p.value.1) == ItemsOf(u) + ItemsOf(r)
  {
    KindOfLevel(cfg, r);
    KindOfLevel(cfg, u);
    if r.Branch? {
      KidsInner(cfg, r);
      KidsInner(cfg, u);
      BranchPair(cfg, level, u.kids, [r.kids[0]], r.kids[1..]);
      assert [r.kids[0]] + r.kids[1..] == r.kids;
    } else {
      assert [r.items[0]] + r.items[1..] == r.items;
    }
  }

  /** Three runs of children, put into branches in two ways. */
  lemma BranchPair(cfg: TreeConfig, level: nat, a: seq<Tree>, x: seq<Tree>, c: seq<Tree>)
    requires level > 0 && AllInner(cfg, a, level - 1) && AllInner(cfg, x, level - 1) && AllInner(cfg, c, level - 1)
    ensures Loose(cfg, Branch(level, a), level) && Loose(cfg, Branch(level, x + c), level)
    ensures Loose(cfg, Branch(level, a + x), level) && Loose(cfg, Branch(level, c), level)
    ensures AllItems(a) + AllItems(x + c) == AllItems(a + x) + AllItems(c)
  {
    AllItemsRegroup(a, x, c);
    LooseBranch(cfg, level, a, []);
    LooseBranch(cfg, level, x, c);
    LooseBranch(cfg, level, a, x);
    LooseBranch(cfg, level, c, []);
  }

  lemma LooseBranch(cfg: TreeConfig, level: nat, a: seq<Tree>, b: seq<Tree>)
    requires level > 0 && AllInner(cfg, a, level - 1) && AllInner(cfg, b, level - 1)
    ensures Loose(cfg, Branch(level, a + b), level)
    ensures b == [] ==> Loose(cfg, Branch(level, a), level)
  {
    AllInnerJoin(cfg, a, b, level - 1);
    BranchBody(cfg, level, a + b);
    if b == [] { assert a + b == a; }
  }

  lemma JoinOk(cfg: TreeConfig, l: Tree, r: Tree, level: nat)
    requires Loose(cfg, l, level) && Loose(cfg, r, level)
    ensures var j := Join(l, r);
            && j.Some? && Loose(cfg, j.value, level)
            && Size(j.value) == Size(l) + Size(r)
            && ItemsOf(j.value) == ItemsOf(l) + ItemsOf(r)
  {
    KindOfLevel(cfg, l);
    KindOfLevel(cfg, r);
    if l.Branch? {
      KidsInner(cfg, l);
      KidsInner(cfg, r);
      AllItemsAppend(l.kids, r.kids);
    }
  }

  /** Replacing two neighbours by trees in shape with the same items. */
  lemma SpliceOk(cfg: TreeConfig, kids: seq<Tree>, i: nat, mid: seq<Tree>, level: nat)
    requires i + 1 < |kids|
    requires AllInner(cfg, kids[..i], level) && AllInner(cfg, kids[i + 2..], level) && AllInner(cfg, mid, level)
    requires AllItems(mid) == ItemsOf(kids[i]) + ItemsOf(kids[i + 1])
    ensures AllInner(cfg, Splice(kids, i, mid), level)
    ensures AllItems(Splice(kids, i, mid)) == AllItems(kids)
  {
    assert kids == kids[..i] + [kids[i], kids[i + 1]] + kids[i + 2..];
    AllItemsThree(kids[..i], [kids[i], kids[i + 1]], kids[i + 2..]);
    AllItemsTwo(kids[i], kids[i + 1]);
    AllItemsThree(kids[..i], mid, kids[i + 2..]);
  }

  /** All children in shape, except that child `i` may lack one entry. */
  ghost predicate AlmostInner(cfg: TreeConfig, kids: seq<Tree>, level: nat, i: nat) {
    && i < |kids|
    && AllInner(cfg, kids[..i], level) && AllInner(cfg, kids[i + 1..], level)
    && Loose(cfg, kids[i], level) && Size(kids[i]) + 1 == cfg.minFanout
  }

  lemma Neighbours(cfg: TreeConfig, kids: seq<Tree>, level: nat, i: nat)
    requires AlmostInner(cfg, kids, level, i)
    ensures i > 0 ==>
              && AllInner(cfg, kids[..i - 1], level) && AllInner(cfg, kids[i - 1 + 2..], level)
              && Inner(cfg, kids[i - 1]) && Level(kids[i - 1]) == level
    ensures i + 1 < |kids| ==>
              && AllInner(cfg, kids[..i], level) && AllInner(cfg, kids[i + 2..], level)
              && Inner(cfg, kids[i + 1]) && Level(kids[i + 1]) == level
  {
    if i > 0 {
      assert kids[..i][i - 1] == kids[i - 1];
      assert kids[..i][..i - 1] == kids[..i - 1];
      AllInnerParts(cfg, kids[..i], level, i - 1);
    }
    if i + 1 < |kids| {
      assert kids[i + 1..][0] == kids[i + 1];
      assert kids[i + 1..][1..] == kids[i + 2..];
      AllInnerParts(cfg, kids[i + 1..], level, 1);
    }
  }

  /** Rebalancing restores the occupancy of every child, loses no item, and drops one
      child exactly when no sibling beside it can lend. It cannot get stuck, given a
      sibling. */
  lemma RebalanceOk(cfg: TreeConfig, kids: seq<Tree>, level: nat, i: nat)
    requires cfg.Valid() && AlmostInner(cfg, kids, level, i) && |kids| > 1
    ensures var r := Rebalance(cfg, kids, i);
            && r.Some? && AllInner(cfg, r.value, level)
            && AllItems(r.value) == AllItems(kids)
            && |r.value| == (if (i > 0 && Size(kids[i - 1]) > cfg.minFanout)
                                || (i + 1 < |kids| && Size(kids[i + 1]) > cfg.minFanout) then |kids| else |kids| - 1)
  {
    Neighbours(cfg, kids, level, i);
    if i > 0 && Size(kids[i - 1]) > cfg.minFanout {
      ShiftRightOk(cfg, kids[i - 1], kids[i], level);
      var p := ShiftRight(kids[i - 1], kids[i]).value;
      AllItemsTwo(p.0, p.1);
      SpliceOk(cfg, kids, i - 1, [p.0, p.1], level);
    } else if i + 1 < |kids| && Size(kids[i + 1]) > cfg.minFanout {
      ShiftLeftOk(cfg, kids[i], kids[i + 1], level);
      var p := ShiftLeft(kids[i], kids[i + 1]).value;
      AllItemsTwo(p.0, p.1);
      SpliceOk(cfg, kids, i, [p.0, p.1], level);
    } else {
      var l := if i > 0 then i - 1 else 0;
      JoinOk(cfg, kids[l], kids[l + 1], level);
      AllItemsOne(Join(kids[l], kids[l + 1]).value);
      SpliceOk(cfg, kids, l, [Join(kids[l], kids[l + 1]).value], level);
    }
  }

  // ----- correctness of deletion

  /** What a shrunk tree owes. */
  ghost predicate ShrunkOk(cfg: TreeConfig, s: Shrunk, t: Tree, k: Key) {
    match s
    case Failed => false
    case NotFound => Find(ItemsOf(t), k).None?
    case Merged => Find(ItemsOf(t), k).Some? && Without(ItemsOf(t), k) == [] && Size(t) == 1
    case Updated(u) =>
      && Find(ItemsOf(t), k).Some? && ItemsOf(u) == Without(ItemsOf(t), k)
      && Loose(cfg, u, Level(t))
      && Size(u) > 0 && Size(t) - 1 <= Size(u) <= Size(t)
  }

  /** Deletion keeps the shape and removes the key; it never hits an internal
      error, and a whole node disappears only when it had a single entry. */
  lemma {:induction false} DeleteCorrect(cfg: TreeConfig, t: Tree, k: Key)
    requires cfg.Valid() && RootShape(cfg, t) && Sorted(ItemsOf(t))
    ensures ShrunkOk(cfg, Delete(cfg, t, k), t, k)
    decreases t
  {
    if t.Leaf? {
      WithoutSorted(t.items, k);
    } else {
      hide AllItems, Find, Without, Inner, AllInner, Route, AfterUpdate, ShrunkOk;
      var kids, i := t.kids, Route(t.kids, k);
      KidsInner(cfg, t);
      KidRootShape(cfg, kids[i]);
      RouteSplits(cfg, kids, t.level - 1, k);
      DeleteCorrect(cfg, kids[i], k);
      DeleteInBranch(cfg, t, k, Delete(cfg, kids[i], k));
    }
  }

  lemma KidRootShape(cfg: TreeConfig, t: Tree)
    requires cfg.Valid() && Inner(cfg, t)
    ensures RootShape(cfg, t)
  {
  }

  /** A branch around the child that the key belongs to. */
  lemma BranchAround(cfg: TreeConfig, t: Tree, k: Key)
    requires cfg.Valid() && RootShape(cfg, t) && Sorted(ItemsOf(t)) && t.Branch?
    ensures t.level > 0 && t.kids != []
    ensures var i := Route(t.kids, k);
            && Inner(cfg, t.kids[i]) && Level(t.kids[i]) == t.level - 1
            && AllInner(cfg, t.kids[..i], t.level - 1) && AllInner(cfg, t.kids[i + 1..], t.level - 1)
            && Find(ItemsOf(t), k) == Find(ItemsOf(t.kids[i]), k)
            && Without(ItemsOf(t), k) == AllItems(t.kids[..i]) + Without(ItemsOf(t.kids[i]), k) + AllItems(t.kids[i + 1..])
  {
    hide AllItems, Find, Without, Inner, AllInner, Route, Sorted, AllBelow, AllAbove;
    KidsInner(cfg, t);
    var kids, i := t.kids, Route(t.kids, k);
    RouteSplits(cfg, kids, t.level - 1, k);
    UpdateInMiddle(AllItems(kids[..i]), ItemsOf(kids[i]), AllItems(kids[i + 1..]), k, []);
    AllInnerParts(cfg, kids, t.level - 1, i);
    AllInnerParts(cfg, kids, t.level - 1, i + 1);
  }

  /** What a branch makes of its child's result. */
  lemma DeleteInBranch(cfg: TreeConfig, t: Tree, k: Key, s: Shrunk)
    requires cfg.Valid() && RootShape(cfg, t) && Sorted(ItemsOf(t)) && t.Branch?
    requires s == Delete(cfg, t.kids[Route(t.kids, k)], k) && ShrunkOk(cfg, s, t.kids[Route(t.kids, k)], k)
    ensures ShrunkOk(cfg, Delete(cfg, t, k), t, k)
  {
    hide AllItems, ItemsOf, Find, Without, Inner, AllInner, Route, AfterUpdate, Sorted, Body;
    BranchAround(cfg, t, k);
    var kids, i := t.kids, Route(t.kids, k);
    match s
    case NotFound =>
    case Merged => RemovedOk(cfg, t, k, i);
    case Updated(u) => InnerBody(cfg, kids[i]); AfterUpdateOk(cfg, t, k, i, u);
  }

  lemma RemovedOk(cfg: TreeConfig, t: Tree, k: Key, i: nat)
    requires t.Branch? && i < |t.kids| && t.level > 0
    requires AllInner(cfg, t.kids[..i], t.level - 1) && AllInner(cfg, t.kids[i + 1..], t.level - 1)
    requires Find(ItemsOf(t), k).Some?
    requires Without(ItemsOf(t), k) == AllItems(t.kids[..i]) + [] + AllItems(t.kids[i + 1..])
    ensures var kids' := t.kids[..i] + t.kids[i + 1..];
            ShrunkOk(cfg, if kids' == [] then Merged else Updated(Branch(t.level, kids')), t, k)
  {
    hide AllItems, Find, Without, Inner, AllInner;
    AllItemsAppend(t.kids[..i], t.kids[i + 1..]);
    AllInnerJoin(cfg, t.kids[..i], t.kids[i + 1..], t.level - 1);
    BranchBody(cfg, t.level, t.kids[..i] + t.kids[i + 1..]);
  }

  lemma AfterUpdateOk(cfg: TreeConfig, t: Tree, k: Key, i: nat, u: Tree)
    requires cfg.Valid() && t.Branch? && i < |t.kids| && t.level > 0
    requires Inner(cfg, t.kids[i]) && (cfg.minFanout > 1 ==> |t.kids| > 1)
    requires AllInner(cfg, t.kids[..i], t.level - 1) && AllInner(cfg, t.kids[i + 1..], t.level - 1)
    requires Loose(cfg, u, t.level - 1)
    requires Size(u) > 0 && Size(t.kids[i]) - 1 <= Size(u) <= Size(t.kids[i])
    requires Find(ItemsOf(t), k).Some?
    requires Without(ItemsOf(t), k) == AllItems(t.kids[..i]) + ItemsOf(u) + AllItems(t.kids[i + 1..])
    ensures ShrunkOk(cfg, AfterUpdate(cfg, t.level, t.kids[i := u], i), t, k)
  {
    hide AllItems, Find, Without, AllInner, Rebalance;
    var kids := t.kids[i := u];
    assert kids == t.kids[..i] + [u] + t.kids[i + 1..];
    AllItemsAround(t.kids[..i], u, t.kids[i + 1..]);
    if Size(u) < cfg.minFanout {
      assert kids[..i] == t.kids[..i] && kids[i + 1..] == t.kids[i + 1..];
      RebalanceOk(cfg, kids, t.level - 1, i);
      BranchBody(cfg, t.level, Rebalance(cfg, kids, i).value);
    } else {
      AllInnerOne(cfg, u, t.level - 1);
      AllInnerJoin(cfg, t.kids[..i], [u], t.level - 1);
      AllInnerJoin(cfg, t.kids[..i] + [u], t.kids[i + 1..], t.level - 1);
      BranchBody(cfg, t.level, kids);
    }
  }

  /** Deletion from a whole tree: the result is well formed and denotes the map
      without the key; nothing changes exactly when the key was absent. */
  lemma DeleteRootCorrect(cfg: TreeConfig, t: Option<Tree>, k: Key)
    requires cfg.Valid() && (t.Some? ==> WellFormed(cfg, t.value))
    ensures var t' := DeleteRoot(cfg, t, k);
            && (t'.Some? ==> WellFormed(cfg, t'.value))
            && (t.Some? ==> (if t'.Some? then ItemsOf(t'.value) else []) == Without(ItemsOf(t.value), k))
            && (t.None? ==> t'.None?)
            && (t' == t <==> t.None? || Find(ItemsOf(t.value), k).None?)
  {
    if t.Some? {
      DeleteCorrect(cfg, t.value, k);
      WithoutSorted(ItemsOf(t.value), k);
      match Delete(cfg, t.value, k)
      case NotFound => OnAbsent(ItemsOf(t.value), k);
      case Merged =>
      case Updated(u) =>
        if u.Branch? && |u.kids| == 1 {
          KidsInner(cfg, u);
          AllItemsOne(u.kids[0]);
          assert u.kids == [u.kids[0]];
        }
    }
  }

  lemma OnAbsent(s: seq<Item>, k: Key)
    requires Find(s, k).None?
    ensures Without(s, k) == s
  {
  }
}
