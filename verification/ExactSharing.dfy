/** A change shares exactly what is off its path: every other subtree of the old tree
    is gone from the new one. An insertion of a new key does so when nodes hold more
    than two entries. */
module ExactSharing {
  import opened Keys
  import opened Items
  import opened Nodes
  import opened Trees
  import opened Insertion
  import opened Deletion
  import opened Sharing

  /** The two trees have an item in common. */
  ghost predicate Meet(u: Tree, w: Tree) {
    exists x :: x in ItemsOf(u) && x in ItemsOf(w)
  }

  lemma KidHas(kids: seq<Tree>, i: nat, x: Item)
    requires i < |kids| && x in ItemsOf(kids[i])
    ensures x in AllItems(kids)
  {
    hide AllItems, ItemsOf;
    AllItemsAround(kids[..i], kids[i], kids[i + 1..]);
    assert kids == kids[..i] + [kids[i]] + kids[i + 1..];
  }

  /** An item of sorted children is in one of them only. */
  lemma OneKidHas(kids: seq<Tree>, i: nat, j: nat, x: Item)
    requires i < |kids| && j < |kids| && Sorted(AllItems(kids))
    requires x in ItemsOf(kids[i]) && x in ItemsOf(kids[j])
    ensures i == j
  {
    hide AllItems, ItemsOf, Sorted;
    if i != j {
      var p, q := if i < j then i else j, if i < j then j else i;
      assert kids == kids[..q] + kids[q..];
      AllItemsAppend(kids[..q], kids[q..]);
      KidHas(kids[..q], p, x);
      KidHas(kids[q..], 0, x);
      SortedParts(AllItems(kids[..q]), AllItems(kids[q..]));
      assert false;
    }
  }

  lemma SortedKid(kids: seq<Tree>, i: nat)
    requires i < |kids| && Sorted(AllItems(kids))
    ensures Sorted(ItemsOf(kids[i]))
  {
    hide AllItems, ItemsOf, Sorted;
    AllItemsAround(kids[..i], kids[i], kids[i + 1..]);
    assert kids == kids[..i] + [kids[i]] + kids[i + 1..];
    SortedParts(AllItems(kids[..i]) + ItemsOf(kids[i]), AllItems(kids[i + 1..]));
    SortedParts(AllItems(kids[..i]), ItemsOf(kids[i]));
  }

  /** Where a proper subtree is. */
  lemma KidWithin(u: Tree, t: Tree) returns (i: nat)
    requires Within(u, t) && u != t
    ensures t.Branch? && i < |t.kids| && Within(u, t.kids[i])
  {
    var j :| 0 <= j < |t.kids| && Within(u, t.kids[j]);
    i := j;
  }

  lemma {:induction false} WithinItems(u: Tree, t: Tree, x: Item)
    requires Within(u, t) && x in ItemsOf(u)
    ensures x in ItemsOf(t)
    decreases t
  {
    hide AllItems, Within;
    if u != t {
      var i := KidWithin(u, t);
      WithinItems(u, t.kids[i], x);
      KidHas(t.kids, i, x);
    }
  }

  lemma {:induction false} WithinLevel(cfg: TreeConfig, u: Tree, t: Tree)
    requires Body(cfg, t) && Within(u, t)
    ensures u == t || (Inner(cfg, u) && Level(u) < Level(t))
    decreases t
  {
    hide Within, AllInner;
    if u != t {
      var i := KidWithin(u, t);
      KidsInner(cfg, t);
      InnerBody(cfg, t.kids[i]);
      WithinLevel(cfg, u, t.kids[i]);
    }
  }

  /** Subtrees of one level that have an item in common are one. */
  lemma {:induction false} OneOfLevel(cfg: TreeConfig, t: Tree, u: Tree, w: Tree)
    requires Body(cfg, t) && Sorted(ItemsOf(t)) && Within(u, t) && Within(w, t)
    requires Level(u) == Level(w) && Meet(u, w)
    ensures u == w
    decreases t
  {
    hide Within, AllInner, AllItems, Inner, Sorted;
    WithinLevel(cfg, u, t);
    WithinLevel(cfg, w, t);
    if u != t && w != t {
      var i := KidWithin(u, t);
      var j := KidWithin(w, t);
      var x :| x in ItemsOf(u) && x in ItemsOf(w);
      WithinItems(u, t.kids[i], x);
      WithinItems(w, t.kids[j], x);
      OneKidHas(t.kids, i, j, x);
      SortedKid(t.kids, i);
      KidsInner(cfg, t);
      InnerBody(cfg, t.kids[i]);
      OneOfLevel(cfg, t.kids[i], u, w);
    }
  }

  // ----- what takes the place of a sibling that is drawn on

  /** `w` stands where `u` was: on its level, with an item of it, but another tree. */
  ghost predicate Instead(w: Tree, u: Tree) {
    w != u && Level(w) == Level(u) && Meet(u, w)
  }

  lemma FirstPart(cfg: TreeConfig, l: Tree, u: Tree)
    requires cfg.Valid() && Inner(cfg, l) && Loose(cfg, u, Level(l)) && Size(l) > 1
    ensures var p := ShiftRight(l, u); p.Some? && Instead(p.value.0, l)
  {
    hide Meet;
    KindOfLevel(cfg, l);
    KindOfLevel(cfg, u);
    var p := ShiftRight(l, u).value;
    if l.Leaf? {
      CommonItem(l, p.0, 0, 0);
    } else {
      assert p.0.kids[0] == l.kids[0];
      CommonKid(cfg, l, p.0, 0, 0);
    }
  }

  lemma LastPart(cfg: TreeConfig, u: Tree, r: Tree)
    requires cfg.Valid() && Inner(cfg, r) && Loose(cfg, u, Level(r)) && Size(r) > 1
    ensures var p := ShiftLeft(u, r); p.Some? && Instead(p.value.1, r)
  {
    hide Meet;
    KindOfLevel(cfg, r);
    KindOfLevel(cfg, u);
    var p := ShiftLeft(u, r).value;
    if r.Leaf? {
      CommonItem(r, p.1, 1, 0);
    } else {
      assert p.1.kids[0] == r.kids[1];
      CommonKid(cfg, r, p.1, 1, 0);
    }
  }

  lemma CommonItem(u: Tree, w: Tree, i: nat, j: nat)
    requires u.Leaf? && w.Leaf? && i < |u.items| && j < |w.items| && u.items[i] == w.items[j]
    ensures Meet(u, w)
  {
    assert u.items[i] in ItemsOf(u) && u.items[i] in ItemsOf(w);
  }

  lemma CommonKid(cfg: TreeConfig, u: Tree, w: Tree, i: nat, j: nat)
    requires cfg.Valid() && Body(cfg, u) && u.Branch? && w.Branch? && i < |u.kids| && j < |w.kids| && u.kids[i] == w.kids[j]
    ensures Meet(u, w)
  {
    hide AllItems;
    KidsInner(cfg, u);
    InnerBody(cfg, u.kids[i]);
    InnerNonEmpty(cfg, u.kids[i]);
    var x := ItemsOf(u.kids[i])[0];
    KidHas(u.kids, i, x);
    KidHas(w.kids, j, x);
    assert x in ItemsOf(u) && x in ItemsOf(w);
  }

  lemma WholePart(cfg: TreeConfig, l: Tree, r: Tree, level: nat)
    requires cfg.Valid() && Loose(cfg, l, level) && Loose(cfg, r, level) && Size(l) > 0 && Size(r) > 0
    ensures var j := Join(l, r); j.Some? && Instead(j.value, l) && Instead(j.value, r)
  {
    hide Meet;
    KindOfLevel(cfg, l);
    KindOfLevel(cfg, r);
    var j := Join(l, r).value;
    if l.Leaf? {
      CommonItem(l, j, 0, 0);
      CommonItem(r, j, 0, |l.items|);
    } else {
      assert j.kids[0] == l.kids[0] && j.kids[|l.kids|] == r.kids[0];
      CommonKid(cfg, l, j, 0, 0);
      CommonKid(cfg, r, j, 0, |l.kids|);
    }
  }

  lemma Spliced(kids: seq<Tree>, p: nat, mid: seq<Tree>, m: nat)
    requires p + 1 < |kids| && m < |mid|
    ensures Among(mid[m], Splice(kids, p, mid))
  {
    hide Among;
    AmongOne(mid[m], mid[m]);
    AmongHas(mid[m], Splice(kids, p, mid), p + m);
  }

  /** Rebalancing puts another tree in the place of the sibling it draws on. */
  lemma PartnerReplaced(cfg: TreeConfig, kids: seq<Tree>, level: nat, i: nat, j: nat) returns (w: Tree)
    requires cfg.Valid() && AlmostInner(cfg, kids, level, i) && Size(kids[i]) > 0
    requires Partner(cfg, kids, i, Size(kids[i])) == Some(j)
    ensures j < |kids| && Rebalance(cfg, kids, i).Some? && Among(w, Rebalance(cfg, kids, i).value) && Instead(w, kids[j])
  {
    hide Among, ShiftRight, ShiftLeft, Join, Instead, AllInner, Splice;
    Neighbours(cfg, kids, level, i);
    if i > 0 && Size(kids[i - 1]) > cfg.minFanout {
      FirstPart(cfg, kids[i - 1], kids[i]);
      var p := ShiftRight(kids[i - 1], kids[i]).value;
      w := p.0;
      Spliced(kids, i - 1, [p.0, p.1], 0);
    } else if i + 1 < |kids| && Size(kids[i + 1]) > cfg.minFanout {
      LastPart(cfg, kids[i], kids[i + 1]);
      var p := ShiftLeft(kids[i], kids[i + 1]).value;
      w := p.1;
      Spliced(kids, i, [p.0, p.1], 1);
    } else {
      var l := if i > 0 then i - 1 else 0;
      WholePart(cfg, kids[l], kids[l + 1], level);
      w := Join(kids[l], kids[l + 1]).value;
      Spliced(kids, l, [w], 0);
    }
  }

  /** What is in a child, but not off the path, is in the child on the path, or it is
      the sibling that is drawn on. */
  lemma OnPath(cfg: TreeConfig, t: Tree, k: Key, u: Tree, j: nat)
    requires t.Branch? && j < |t.kids| && Within(u, t.kids[j]) && !OffPath(u, t, k, Some(cfg))
    ensures var i := Route(t.kids, k);
            if j == i then !OffPath(u, t.kids[i], k, Some(cfg))
            else u == t.kids[j] && Drawn(Some(cfg), t.kids, k) == Some(j)
  {
    hide Among, Route, Drawn;
    assert !BesidePath(u, t.kids, Route(t.kids, k), Drawn(Some(cfg), t.kids, k));
    assert j != Route(t.kids, k) ==> !SparedIn(u, t.kids[j], Drawn(Some(cfg), t.kids, k) == Some(j));
  }

  /** A subtree that is not off the path, and does not have the key, has another tree
      in its place. */
  lemma {:induction false} Replaced(cfg: TreeConfig, t: Tree, k: Key, u: Tree) returns (w: Tree)
    requires cfg.Valid() && RootShape(cfg, t) && Sorted(ItemsOf(t)) && Find(ItemsOf(t), k).Some?
    requires Within(u, t) && !OffPath(u, t, k, Some(cfg)) && k !in KeysOf(ItemsOf(u))
    ensures Delete(cfg, t, k).Updated? && Below(w, Delete(cfg, t, k).tree) && Instead(w, u)
    decreases t
  {
    hide AllItems, Find, Without, Inner, AllInner, Route, AfterUpdate, Sorted, Within, Among, Below, OffPath, Drawn, Instead, KeysOf;
    MapAt(ItemsOf(t), k);
    var j := KidWithin(u, t);
    var kids, i := t.kids, Route(t.kids, k);
    OnPath(cfg, t, k, u, j);
    BranchAround(cfg, t, k);
    SortedKid(kids, i);
    KidRootShape(cfg, kids[i]);
    DeleteCorrect(cfg, kids[i], k);
    DeleteCorrect(cfg, t, k);
    if j == i {
      w := Replaced(cfg, kids[i], k, u);
      var s := Delete(cfg, kids[i], k).tree;
      AfterUpdateKeeps(cfg, t.level, kids[i := s], i, w);
    } else {
      w := SiblingReplaced(cfg, t, k, j);
    }
  }

  lemma SiblingReplaced(cfg: TreeConfig, t: Tree, k: Key, j: nat) returns (w: Tree)
    requires cfg.Valid() && RootShape(cfg, t) && Sorted(ItemsOf(t)) && Find(ItemsOf(t), k).Some? && t.Branch?
    requires t.kids != [] && j < |t.kids| && j != Route(t.kids, k) && Drawn(Some(cfg), t.kids, k) == Some(j)
    ensures Delete(cfg, t, k).Updated? && Below(w, Delete(cfg, t, k).tree) && Instead(w, t.kids[j])
  {
    hide AllItems, Find, Without, AllInner, Route, Sorted, Within, Among, Partner, Instead, Rebalance, KeysOf;
    var kids, i := t.kids, Route(t.kids, k);
    BranchAround(cfg, t, k);
    SortedKid(kids, i);
    KidRootShape(cfg, kids[i]);
    DeleteCorrect(cfg, kids[i], k);
    var s := Delete(cfg, kids[i], k).tree;
    PartnerSame(cfg, kids, i, s);
    PartnerOf(cfg, kids, i, Size(s));
    assert kids[i := s][..i] == kids[..i] && kids[i := s][i + 1..] == kids[i + 1..];
    w := PartnerReplaced(cfg, kids[i := s], t.level - 1, i, j);
    assert kids[i := s][j] == kids[j];
    NoneAmong(w);
  }

  lemma PartnerOf(cfg: TreeConfig, kids: seq<Tree>, i: nat, size: nat)
    requires i < |kids|
    ensures Partner(cfg, kids, i, size).Some? ==> size < cfg.minFanout
  {
  }

  // ----- the exact set of shared subtrees

  /** Deleting a key that is there keeps of the old subtrees exactly those off its
      path. */
  lemma DeleteSharesIff(cfg: TreeConfig, t: Tree, k: Key, u: Tree)
    requires cfg.Valid() && WellFormed(cfg, t) && Find(ItemsOf(t), k).Some? && Within(u, t)
    ensures (DeleteRoot(cfg, Some(t), k).Some? && Within(u, DeleteRoot(cfg, Some(t), k).value)) <==> OffPath(u, t, k, Some(cfg))
  {
    hide Within, OffPath, Delete, Find, Without, Instead, Body, Sorted, KeysOf, Collapse, Below;
    var t' := DeleteRoot(cfg, Some(t), k);
    if OffPath(u, t, k, Some(cfg)) {
      DeleteShares(cfg, t, k, u);
    } else if t'.Some? && Within(u, t'.value) {
      DeleteRootCorrect(cfg, Some(t), k);
      KeyIsGone(t, t'.value, k, u);
      var w := Replaced(cfg, t, k, u);
      CollapseKeeps(Delete(cfg, t, k).tree, w);
      NotBoth(cfg, t'.value, u, w);
    }
  }

  lemma KeyIsGone(t: Tree, t': Tree, k: Key, u: Tree)
    requires Sorted(ItemsOf(t)) && ItemsOf(t') == Without(ItemsOf(t), k) && Within(u, t')
    ensures k !in KeysOf(ItemsOf(u))
  {
    hide Within, Find, Without, Sorted;
    if k in KeysOf(ItemsOf(u)) {
      var p :| 0 <= p < |ItemsOf(u)| && ItemsOf(u)[p].key == k;
      WithinItems(u, t', ItemsOf(u)[p]);
      WithoutSorted(ItemsOf(t), k);
      FindWithout(ItemsOf(t), k, k);
      MapAt(ItemsOf(t'), k);
      assert false;
    }
  }

  lemma NotBoth(cfg: TreeConfig, t: Tree, u: Tree, w: Tree)
    requires WellFormed(cfg, t) && Within(u, t) && Within(w, t)
    ensures !Instead(w, u)
  {
    hide Within, Body, Sorted, Meet;
    if Instead(w, u) { OneOfLevel(cfg, t, u, w); }
  }

  /** Without a sibling that is drawn on, what is not off the path is on it. */
  lemma {:induction false} OnPathHasKey(cfg: TreeConfig, t: Tree, k: Key, u: Tree) returns (x: Item)
    requires cfg.Valid() && RootShape(cfg, t) && Sorted(ItemsOf(t)) && Find(ItemsOf(t), k).Some?
    requires Within(u, t) && !OffPath(u, t, k, None)
    ensures x in ItemsOf(u) && x.key == k
    decreases t
  {
    hide AllItems, Find, Without, Inner, AllInner, Route, Sorted, Within, Among, OffPath;
    if u == t {
      MapAt(ItemsOf(t), k);
      var p :| 0 <= p < |ItemsOf(t)| && KeysOf(ItemsOf(t))[p] == k;
      x := ItemsOf(t)[p];
    } else {
      var j := KidWithin(u, t);
      OnInsertPath(t, k, u, j);
      BranchAround(cfg, t, k);
      SortedKid(t.kids, j);
      KidRootShape(cfg, t.kids[j]);
      x := OnPathHasKey(cfg, t.kids[j], k, u);
    }
  }

  lemma OnInsertPath(t: Tree, k: Key, u: Tree, j: nat)
    requires t.Branch? && j < |t.kids| && Within(u, t.kids[j]) && !OffPath(u, t, k, None)
    ensures j == Route(t.kids, k) && !OffPath(u, t.kids[j], k, None)
  {
    hide Among, Route;
    assert !BesidePath(u, t.kids, Route(t.kids, k), None);
    assert SparedIn(u, t.kids[j], false);
  }

  lemma SplitSizes(cfg: TreeConfig, t: Tree, k: Key, v: Value)
    requires cfg.targetFanout > 2 && Insert(cfg, t, k, v).right.Some?
    ensures Size(Insert(cfg, t, k, v).left) > 1 && Size(Insert(cfg, t, k, v).right.value) > 1
  {
    hide Upsert, Route;
  }

  lemma TwoItems(cfg: TreeConfig, t: Tree)
    requires cfg.Valid() && Body(cfg, t) && Size(t) > 1
    ensures Count(t) > 1
  {
    hide AllItems, AllInner, Inner;
    if t.Branch? {
      KidsInner(cfg, t);
      InnerBody(cfg, t.kids[0]);
      InnerNonEmpty(cfg, t.kids[0]);
      InnerBody(cfg, t.kids[1]);
      InnerNonEmpty(cfg, t.kids[1]);
      AllItemsHead(t.kids);
      AllItemsHead(t.kids[1..]);
    }
  }

  /** An updated item sequence has, but for the key, old items only. */
  lemma OtherItemsOld(s: seq<Item>, k: Key, v: Value, x: Item)
    requires Sorted(s) && x in Upsert(s, k, v) && x.key != k
    ensures x in s
  {
    hide Upsert, Sorted, LowerBound;
    UpsertSorted(s, k, v);
    ItemFound(Upsert(s, k, v), x);
    FindUpsert(s, k, v, x.key);
    var p := FoundItem(s, x.key, x.value);
    assert s[p] == x;
  }

  /** The tree that a new key comes to be in, when it has another item too. */
  lemma NewHome(cfg: TreeConfig, t: Tree, k: Key, v: Value) returns (w: Tree)
    requires cfg.Valid() && cfg.targetFanout > 2 && RootShape(cfg, t) && Sorted(ItemsOf(t)) && Find(ItemsOf(t), k).None?
    ensures Among(w, Insert(cfg, t, k, v).Trees()) && Instead(w, t)
  {
    hide AllItems, ItemsOf, Upsert, Find, Sorted, Insert, Inner, AllInner, Among, Meet;
    var g, s := Insert(cfg, t, k, v), Upsert(ItemsOf(t), k, v);
    InsertCorrect(cfg, t, k, v);
    UpsertSorted(ItemsOf(t), k, v);
    FindUpsert(ItemsOf(t), k, v, k);
    var p := FoundItem(s, k, v);
    assert s[p] == Item(k, v);
    var m := HalfWith(g, Item(k, v));
    w := g.Trees()[m];
    AmongOne(w, w);
    AmongHas(w, g.Trees(), m);
    if g.right.Some? {
      SplitSizes(cfg, t, k, v);
      if m == 0 { InnerBody(cfg, g.left); } else { InnerBody(cfg, g.right.value); }
      TwoItems(cfg, w);
    } else {
      AllItemsOne(w);
      InnerNonEmpty(cfg, t);
    }
    HomeMeets(g.Trees(), m, t, k, v);
  }

  lemma HalfWith(g: Grown, x: Item) returns (m: nat)
    requires x in AllItems(g.Trees())
    ensures m < |g.Trees()| && x in ItemsOf(g.Trees()[m])
  {
    hide AllItems, ItemsOf;
    if g.right.Some? { AllItemsTwo(g.left, g.right.value); } else { AllItemsOne(g.left); }
    m := if x in ItemsOf(g.left) then 0 else 1;
  }

  lemma HomeMeets(ts: seq<Tree>, m: nat, t: Tree, k: Key, v: Value)
    requires Sorted(ItemsOf(t)) && Find(ItemsOf(t), k).None? && AllItems(ts) == Upsert(ItemsOf(t), k, v)
    requires m < |ts| && Item(k, v) in ItemsOf(ts[m]) && Count(ts[m]) > 1
    ensures ts[m] != t && Meet(t, ts[m])
  {
    hide AllItems, ItemsOf, Upsert, Find, KeysOf;
    var w := ts[m];
    UpsertSorted(ItemsOf(t), k, v);
    SortedKid(ts, m);
    var x := if ItemsOf(w)[0].key == k then ItemsOf(w)[1] else ItemsOf(w)[0];
    KidHas(ts, m, x);
    OtherItemsOld(ItemsOf(t), k, v, x);
    if Item(k, v) in ItemsOf(t) { ItemFound(ItemsOf(t), Item(k, v)); }
  }

  /** An insertion of a new key, with more than two entries a node, puts another tree
      in the place of every node of its path. */
  lemma {:induction false} PathReplaced(cfg: TreeConfig, t: Tree, k: Key, v: Value, u: Tree) returns (w: Tree)
    requires cfg.Valid() && cfg.targetFanout > 2 && RootShape(cfg, t) && Sorted(ItemsOf(t)) && Find(ItemsOf(t), k).None?
    requires Within(u, t) && !OffPath(u, t, k, None)
    ensures Among(w, Insert(cfg, t, k, v).Trees()) && Instead(w, u)
    decreases t
  {
    hide AllItems, Find, Without, Inner, AllInner, Route, Sorted, Within, Among, OffPath, Instead, BranchGrown;
    if u == t {
      w := NewHome(cfg, t, k, v);
    } else {
      var j := KidWithin(u, t);
      OnInsertPath(t, k, u, j);
      BranchAround(cfg, t, k);
      SortedKid(t.kids, j);
      KidRootShape(cfg, t.kids[j]);
      w := PathReplaced(cfg, t.kids[j], k, v, u);
      var g := Insert(cfg, t.kids[j], k, v);
      AmongThree(w, t.kids[..j], g.Trees(), t.kids[j + 1..]);
      BranchKeeps(cfg, t.level, t.kids, j, g, w);
      TreesHave(w, BranchGrown(cfg, t.level, t.kids, j, g));
    }
  }

  lemma TreesInRoot(cfg: TreeConfig, t: Tree, k: Key, v: Value, w: Tree)
    requires Among(w, Insert(cfg, t, k, v).Trees())
    ensures Within(w, InsertRoot(cfg, Some(t), k, v))
  {
    hide Among, Insert;
    AmongOne(w, Insert(cfg, t, k, v).left);
  }

  /** An insertion that changes the map keeps of the old subtrees exactly those off its
      path: always when it overwrites, and with more than two entries a node when the
      key is new. */
  lemma InsertSharesIff(cfg: TreeConfig, t: Tree, k: Key, v: Value, u: Tree)
    requires cfg.Valid() && WellFormed(cfg, t) && Within(u, t)
    requires Find(ItemsOf(t), k) != Some(v) && (Find(ItemsOf(t), k).Some? || cfg.targetFanout > 2)
    ensures Within(u, InsertRoot(cfg, Some(t), k, v)) <==> OffPath(u, t, k, None)
  {
    hide Within, OffPath, Insert, Find, Upsert, Body, Sorted, KeysOf, InsertRoot, Among, Instead;
    var t' := InsertRoot(cfg, Some(t), k, v);
    if OffPath(u, t, k, None) {
      InsertShares(cfg, t, k, v, u);
    } else if Within(u, t') {
      InsertRootCorrect(cfg, Some(t), k, v);
      if Find(ItemsOf(t), k).Some? {
        OldValueGone(cfg, t, t', k, v, u);
      } else {
        var w := PathReplaced(cfg, t, k, v, u);
        TreesInRoot(cfg, t, k, v, w);
        NotBoth(cfg, t', u, w);
      }
    }
  }

  lemma OldValueGone(cfg: TreeConfig, t: Tree, t': Tree, k: Key, v: Value, u: Tree)
    requires cfg.Valid() && WellFormed(cfg, t) && Within(u, t) && !OffPath(u, t, k, None)
    requires Find(ItemsOf(t), k).Some? && Find(ItemsOf(t), k) != Some(v)
    requires Sorted(ItemsOf(t')) && ItemsOf(t') == Upsert(ItemsOf(t), k, v)
    ensures !Within(u, t')
  {
    hide Within, OffPath, Find, Upsert, Body, Sorted, KeysOf;
    if Within(u, t') {
      var x := OnPathHasKey(cfg, t, k, u);
      FindUpsert(ItemsOf(t), k, v, k);
      WithinItems(u, t, x);
      WithinItems(u, t', x);
      ItemFound(ItemsOf(t), x);
      ItemFound(ItemsOf(t'), x);
      assert false;
    }
  }

  ghost predicate SharesExactly(cfg: TreeConfig, t: Tree, k: Key, v: Value) {
    forall u :: Within(u, t) ==> (Within(u, InsertRoot(cfg, Some(t), k, v)) <==> OffPath(u, t, k, None))
  }

  /** The configurations with which every changing insertion shares exactly what is
      off its path are those with more than two entries a node. */
  lemma SharingExactIff(cfg: TreeConfig)
    requires cfg.Valid()
    ensures (forall t, k, v :: WellFormed(cfg, t) && Find(ItemsOf(t), k) != Some(v) ==> SharesExactly(cfg, t, k, v))
              <==> cfg.targetFanout > 2
  {
    hide Within, OffPath, Find, Body, Sorted, InsertRoot;
    if cfg.targetFanout > 2 {
      forall t, k, v, u | WellFormed(cfg, t) && Find(ItemsOf(t), k) != Some(v) && Within(u, t)
        ensures Within(u, InsertRoot(cfg, Some(t), k, v)) <==> OffPath(u, t, k, None)
      {
        InsertSharesIff(cfg, t, k, v, u);
      }
    } else {
      var t, k, v := SplitRestores(cfg);
      AmongOne(t, t);
      WithinRight(t, Leaf([Item(k, v)]));
      assert !SharesExactly(cfg, t, k, v);
    }
  }

  lemma WithinRight(t: Tree, l: Tree)
    ensures Within(t, t) && Within(t, Branch(1, [l, t]))
  {
    assert [l, t][1] == t;
  }

  /** With two entries a node a split can restore a node of the path: the full root
      leaf is the right half of the new tree. */
  lemma SplitRestores(cfg: TreeConfig) returns (t: Tree, k: Key, v: Value)
    requires cfg.Valid() && cfg.targetFanout == 2
    ensures WellFormed(cfg, t) && Find(ItemsOf(t), k).None? && !OffPath(t, t, k, None)
    ensures InsertRoot(cfg, Some(t), k, v) == Branch(1, [Leaf([Item(k, v)]), t])
  {
    hide LowerBound, Upsert, Sorted, Find;
    k, v := [1], [];
    var a, b := Item([2], []), Item([3], []);
    t := Leaf([a, b]);
    assert KeyLess(k, a.key) && KeyLess(a.key, b.key);
    InFront(a, b, k, v);
    var s := [Item(k, v), a, b];
    assert s[..1] == [Item(k, v)] && s[1..] == [a, b];
  }

  lemma InFront(a: Item, b: Item, k: Key, v: Value)
    requires KeyLess(k, a.key) && KeyLess(a.key, b.key)
    ensures Sorted([a, b]) && Upsert([a, b], k, v) == [Item(k, v), a, b] && Find([a, b], k).None?
  {
    hide LowerBound, Upsert, Find, KeysOf;
    var s := [a, b];
    assert [] + [] + s == s;
    assert AllAbove(s, k) && Sorted(s);
    OnCut(s, k, [], [], s, v);
    assert [] + [Item(k, v)] + s == [Item(k, v), a, b];
  }
}
