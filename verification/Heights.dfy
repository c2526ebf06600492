/** How high trees grow. The level of a node is a byte; an insertion fails when a new
    root would need a higher one. */
module Heights {
  import opened Keys
  import opened Items
  import opened Nodes
  import opened Trees
  import opened Insertion
  import opened Deletion
  import opened Bounds

  datatype Change = Setting(key: Key, value: Value) | Removal(key: Key)

  ghost function Changed(cfg: TreeConfig, t: Option<Tree>, c: Change): Option<Tree> {
    match c
    case Setting(k, v) => Some(NewTop(cfg, t, k, v))
    case Removal(k) => DeleteRoot(cfg, t, k)
  }

  /** The tree that changes make of the empty one. */
  ghost function Reached(cfg: TreeConfig, cs: seq<Change>): Option<Tree> {
    if cs == [] then None else Changed(cfg, Reached(cfg, cs[..|cs| - 1]), cs[|cs| - 1])
  }

  ghost predicate Fails(cfg: TreeConfig, t: Option<Tree>, c: Change) {
    c.Setting? && Overflows(cfg, t, c.key, c.value)
  }

  ghost predicate AllFit(cfg: TreeConfig, cs: seq<Change>) {
    forall i :: 0 <= i < |cs| ==> !Fails(cfg, Reached(cfg, cs[..i]), cs[i])
  }

  ghost function Settings(cs: seq<Change>): nat {
    if cs == [] then 0 else Settings(cs[..|cs| - 1]) + if cs[|cs| - 1].Setting? then 1 else 0
  }

  // ----- what a height costs, with a minimum fanout of one

  ghost function Over(n: nat): nat {
    if n > 2 then n - 2 else 0
  }

  /** Entries beyond two, worth twice as much a level up. */
  ghost function Worth(level: nat, n: nat): nat {
    Power(2, level) * Over(n)
  }

  ghost function Excess(t: Tree): nat
    decreases t, 1
  {
    Worth(Level(t), Size(t)) + if t.Leaf? then 0 else AllExcess(t.kids)
  }

  ghost function AllExcess(ts: seq<Tree>): nat
    decreases ts, 0
  {
    if ts == [] then 0 else Excess(ts[0]) + AllExcess(ts[1..])
  }

  lemma {:induction false} AllExcessAppend(a: seq<Tree>, b: seq<Tree>)
    ensures AllExcess(a + b) == AllExcess(a) + AllExcess(b)
    decreases |a|
  {
    hide Excess;
    if a == [] {
      assert a + b == b;
    } else {
      AllExcessAppend(a[1..], b);
      assert (a + b)[1..] == a[1..] + b;
    }
  }

  lemma AllExcessOne(t: Tree)
    ensures AllExcess([t]) == Excess(t)
  {
    hide Excess;
    assert [t][1..] == [];
  }

  lemma AllExcessTwo(t: Tree, u: Tree)
    ensures AllExcess([t, u]) == Excess(t) + Excess(u)
  {
    hide Excess, AllExcess;
    AllExcessAppend([t], [u]);
    AllExcessOne(t);
    AllExcessOne(u);
    assert [t] + [u] == [t, u];
  }

  lemma AllExcessAround(kids: seq<Tree>, i: nat, mid: seq<Tree>)
    requires i < |kids|
    ensures AllExcess(kids[..i] + mid + kids[i + 1..]) + Excess(kids[i]) == AllExcess(kids) + AllExcess(mid)
  {
    hide Excess, AllExcess;
    var a, c := kids[..i], kids[i + 1..];
    AllExcessAppend(a + mid, c);
    AllExcessAppend(a, mid);
    assert kids == a + [kids[i]] + c;
    AllExcessAppend(a + [kids[i]], c);
    AllExcessAppend(a, [kids[i]]);
    AllExcessOne(kids[i]);
  }

  /** What a split releases: enough for one more entry a level up. */
  ghost function Released(g: Grown, level: nat): nat {
    if g.right.Some? then 2 * Power(2, level) else 0
  }

  /** An insertion adds no more to the excess than to the items, and a split pays for
      itself. */
  lemma {:induction false} InsertExcess(cfg: TreeConfig, t: Tree, k: Key, v: Value)
    requires cfg.targetFanout > 2 && Body(cfg, t) && Size(t) <= cfg.targetFanout
    ensures var g := Insert(cfg, t, k, v);
            AllExcess(g.Trees()) + Released(g, Level(t)) + Count(t) <= Excess(t) + |AllItems(g.Trees())|
    decreases t
  {
    hide AllExcess, Excess, Route, Power, Upsert, AllItems, BranchGrown;
    if t.Leaf? {
      LeafExcess(cfg, t.items, k, v);
    } else if t.kids == [] {
      AllExcessOne(t);
      AllItemsOne(t);
    } else {
      var kids, i := t.kids, Route(t.kids, k);
      KidsInner(cfg, t);
      InnerBody(cfg, kids[i]);
      InsertExcess(cfg, kids[i], k, v);
      var g := Insert(cfg, kids[i], k, v);
      AllExcessAround(kids, i, g.Trees());
      GrownItems(cfg, t.level, kids, i, g);
      var added := |AllItems(g.Trees())| - Count(kids[i]);
      OneMore(cfg, kids[i], k, v);
      BranchExcess(cfg, t.level, kids, i, g, added);
    }
  }

  lemma LeafExcess(cfg: TreeConfig, items: seq<Item>, k: Key, v: Value)
    requires cfg.targetFanout > 2 && |items| <= cfg.targetFanout
    ensures var g := GrowLeaf(cfg, Upsert(items, k, v));
            AllExcess(g.Trees()) + Released(g, 0) + |items| <= Excess(Leaf(items)) + |AllItems(g.Trees())|
  {
    hide AllExcess, LowerBound, AllItems;
    var g := GrowLeaf(cfg, Upsert(items, k, v));
    if g.right.Some? {
      AllExcessTwo(g.left, g.right.value);
      AllItemsTwo(g.left, g.right.value);
    } else {
      AllExcessOne(g.left);
      AllItemsOne(g.left);
    }
  }

  lemma WholeExcess(level: nat, kids: seq<Tree>)
    ensures Excess(Branch(level, kids)) == AllExcess([Branch(level, kids)]) == Worth(level, |kids|) + AllExcess(kids)
  {
    hide AllExcess, Worth;
    AllExcessOne(Branch(level, kids));
  }

  lemma HalvesExcess(level: nat, kids: seq<Tree>, mid: nat)
    requires mid <= |kids|
    ensures AllExcess([Branch(level, kids[..mid]), Branch(level, kids[mid..])]) ==
              Worth(level, mid) + Worth(level, |kids| - mid) + AllExcess(kids)
  {
    hide AllExcess, Excess, Worth;
    WholeExcess(level, kids[..mid]);
    WholeExcess(level, kids[mid..]);
    AllExcessTwo(Branch(level, kids[..mid]), Branch(level, kids[mid..]));
    AllExcessAppend(kids[..mid], kids[mid..]);
    assert kids == kids[..mid] + kids[mid..];
  }

  /** A split of more than three entries takes three off the excess of a node: two for
      the release, one for the entry that is put in. */
  lemma SplitPays(level: nat, mid: nat, n: nat)
    requires n > 3 && mid == n / 2
    ensures Worth(level, mid) + Worth(level, n - mid) + 2 * Power(2, level) == Worth(level, n - 1) + Power(2, level)
  {
    var p := Power(2, level);
    assert p * Over(mid) + p * Over(n - mid) == p * (n - 4);
    assert p * Over(n - 1) == p * (n - 3);
  }

  lemma OneEntryMore(level: nat, n: nat)
    ensures Worth(level, n + 1) <= Worth(level, n) + Power(2, level)
  {
    hide Power;
    var p := Power(2, level);
    Multiply(p, Over(n + 1), p, Over(n) + 1);
  }

  lemma GrowBranchExcess(cfg: TreeConfig, level: nat, kids: seq<Tree>, total: nat)
    requires cfg.targetFanout > 2 && 0 < |kids| <= cfg.targetFanout + 1 && AllExcess(kids) + Power(2, level) <= total
    ensures var g := GrowBranch(cfg, level, kids);
            AllExcess(g.Trees()) + Released(g, level) <= Worth(level, |kids| - 1) + total
  {
    hide AllExcess, Worth, Power;
    OneEntryMore(level, |kids| - 1);
    WholeExcess(level, kids);
    if |kids| > cfg.targetFanout {
      HalvesExcess(level, kids, |kids| / 2);
      SplitPays(level, |kids| / 2, |kids|);
    }
  }

  lemma SameSizeExcess(level: nat, kids: seq<Tree>, i: nat, x: Tree, added: nat)
    requires i < |kids| && AllExcess(kids[..i] + [x] + kids[i + 1..]) <= AllExcess(kids) + added
    ensures AllExcess([Branch(level, kids[i := x])]) <= Excess(Branch(level, kids)) + added
  {
    hide AllExcess, Excess, Worth;
    assert kids[i := x] == kids[..i] + [x] + kids[i + 1..];
    WholeExcess(level, kids);
    WholeExcess(level, kids[i := x]);
  }

  lemma SplitKidExcess(cfg: TreeConfig, level: nat, kids: seq<Tree>, i: nat, l: Tree, r: Tree, added: nat)
    requires cfg.targetFanout > 2 && i < |kids| <= cfg.targetFanout
    requires AllExcess(kids[..i] + [l, r] + kids[i + 1..]) + Power(2, level) <= AllExcess(kids) + added
    ensures var g := GrowBranch(cfg, level, kids[..i] + [l, r] + kids[i + 1..]);
            AllExcess(g.Trees()) + Released(g, level) <= Excess(Branch(level, kids)) + added
  {
    hide AllExcess, Excess, Worth, Power, GrowBranch, Released;
    WholeExcess(level, kids);
    assert |kids[..i] + [l, r] + kids[i + 1..]| == |kids| + 1;
    GrowBranchExcess(cfg, level, kids[..i] + [l, r] + kids[i + 1..], AllExcess(kids) + added);
  }

  lemma BranchExcess(cfg: TreeConfig, level: nat, kids: seq<Tree>, i: nat, g: Grown, added: nat)
    requires cfg.targetFanout > 2 && level > 0 && i < |kids| <= cfg.targetFanout
    requires AllExcess(kids[..i] + g.Trees() + kids[i + 1..]) + Released(g, level - 1) <= AllExcess(kids) + added
    ensures var g' := BranchGrown(cfg, level, kids, i, g);
            AllExcess(g'.Trees()) + Released(g', level) <= Excess(Branch(level, kids)) + added
  {
    hide AllExcess, Excess, Worth, Power, GrowBranch;
    if g.right.None? {
      SameSizeExcess(level, kids, i, g.left, added);
    } else {
      PowerStep(2, level - 1);
      SplitKidExcess(cfg, level, kids, i, g.left, g.right.value, added);
    }
  }

  lemma GrownItems(cfg: TreeConfig, level: nat, kids: seq<Tree>, i: nat, g: Grown)
    requires i < |kids|
    ensures |AllItems(BranchGrown(cfg, level, kids, i, g).Trees())| + Count(kids[i]) == |AllItems(kids)| + |AllItems(g.Trees())|
  {
    hide AllItems;
    var g', kids' := BranchGrown(cfg, level, kids, i, g), kids[..i] + g.Trees() + kids[i + 1..];
    AllItemsThree(kids[..i], g.Trees(), kids[i + 1..]);
    AllItemsAround(kids[..i], kids[i], kids[i + 1..]);
    assert kids == kids[..i] + [kids[i]] + kids[i + 1..];
    if g.right.None? { assert kids[i := g.left] == kids'; }
    if g'.right.Some? {
      var mid := |kids'| / 2;
      assert kids' == kids'[..mid] + kids'[mid..];
      AllItemsAppend(kids'[..mid], kids'[mid..]);
      AllItemsTwo(g'.left, g'.right.value);
    } else {
      AllItemsOne(g'.left);
    }
  }

  /** An insertion loses no items. */
  lemma {:induction false} OneMore(cfg: TreeConfig, t: Tree, k: Key, v: Value)
    ensures |AllItems(Insert(cfg, t, k, v).Trees())| >= Count(t)
    decreases t
  {
    hide Route, LowerBound, AllItems, BranchGrown;
    if t.Leaf? {
      var g := Insert(cfg, t, k, v);
      if g.right.Some? { AllItemsTwo(g.left, g.right.value); } else { AllItemsOne(g.left); }
    } else if t.kids == [] {
      AllItemsOne(t);
    } else {
      var i := Route(t.kids, k);
      OneMore(cfg, t.kids[i], k, v);
      GrownItems(cfg, t.level, t.kids, i, Insert(cfg, t.kids[i], k, v));
    }
  }

  /** A deletion adds nothing to the excess when no node can be underfull. */
  lemma {:induction false} DeleteExcess(cfg: TreeConfig, t: Tree, k: Key)
    requires cfg.minFanout == 1
    ensures var s := Delete(cfg, t, k);
            s.Updated? ==> Size(s.tree) > 0 && Level(s.tree) == Level(t) && Excess(s.tree) <= Excess(t)
    decreases t
  {
    hide AllExcess, Route, Worth, LowerBound, Rebalance;
    if t.Leaf? {
      FewerExcess(0, |Without(t.items, k)|, |t.items|);
    } else if t.kids != [] {
      var kids, i := t.kids, Route(t.kids, k);
      DeleteExcess(cfg, kids[i], k);
      match Delete(cfg, kids[i], k) {
        case NotFound =>
        case Failed =>
        case Merged =>
          AllExcessAround(kids, i, []);
          assert kids[..i] + [] + kids[i + 1..] == kids[..i] + kids[i + 1..];
          AllExcessNone();
          FewerExcess(t.level, |kids| - 1, |kids|);
        case Updated(u) =>
          AllExcessAround(kids, i, [u]);
          AllExcessOne(u);
          assert kids[..i] + [u] + kids[i + 1..] == kids[i := u];
      }
    }
  }

  lemma AllExcessNone()
    ensures AllExcess([]) == 0
  {
  }

  lemma FewerExcess(level: nat, m: nat, n: nat)
    requires m <= n
    ensures Worth(level, m) <= Worth(level, n)
  {
    Multiply(Power(2, level), Over(m), Power(2, level), Over(n));
  }

  /** What a tree has cost: its excess, and the splits of its earlier roots. */
  ghost function Cost(t: Tree): nat {
    Excess(t) + (2 * Power(2, Level(t)) - 2)
  }

  lemma CostOfNewTop(cfg: TreeConfig, t: Tree, k: Key, v: Value)
    requires cfg.Valid() && cfg.targetFanout > 2 && WellFormed(cfg, t)
    ensures Cost(NewTop(cfg, Some(t), k, v)) <= Cost(t) + 1
    ensures !Overflows(cfg, Some(t), k, v) ==>
              Cost(NewTop(cfg, Some(t), k, v)) + Count(t) <= Cost(t) + Count(NewTop(cfg, Some(t), k, v))
  {
    hide AllExcess, Sorted, Insert, Upsert, AllItems;
    InsertCorrect(cfg, t, k, v);
    NewTopCorrect(cfg, Some(t), k, v);
    UpsertSorted(ItemsOf(t), k, v);
    InsertExcess(cfg, t, k, v);
    var g := Insert(cfg, t, k, v);
    if g.right.Some? { AllExcessTwo(g.left, g.right.value); } else { AllExcessOne(g.left); }
  }

  lemma CostOfDelete(cfg: TreeConfig, t: Tree, k: Key)
    requires cfg.Valid() && cfg.minFanout == 1 && WellFormed(cfg, t)
    ensures var t' := DeleteRoot(cfg, Some(t), k); t'.Some? ==> Cost(t'.value) <= Cost(t)
  {
    hide AllExcess, Sorted, Delete, AllItems, Find, Without;
    DeleteCorrect(cfg, t, k);
    DeleteExcess(cfg, t, k);
    var s := Delete(cfg, t, k);
    if s.Updated? && s.tree.Branch? && |s.tree.kids| == 1 {
      KidsInner(cfg, s.tree);
      assert s.tree.kids == [s.tree.kids[0]];
      AllExcessOne(s.tree.kids[0]);
    }
  }

  // ----- height and the number of insertions

  /** Enough insertions for the tree: as many as it has items or, with a minimum fanout
      of one, as it has cost. */
  ghost predicate Afforded(cfg: TreeConfig, t: Option<Tree>, n: nat) {
    t.Some? ==> if cfg.minFanout == 1 then Cost(t.value) <= n else Count(t.value) <= n
  }

  lemma InsertAfforded(cfg: TreeConfig, t: Option<Tree>, k: Key, v: Value, n: nat)
    requires cfg.Valid() && cfg.targetFanout > 2 && (t.Some? ==> WellFormed(cfg, t.value)) && Afforded(cfg, t, n)
    ensures Afforded(cfg, Some(NewTop(cfg, t, k, v)), n + 1)
  {
    hide WellFormed, NewTop, Cost, Upsert;
    if t.None? {
      FirstTop(cfg, k, v);
    } else if cfg.minFanout == 1 {
      CostOfNewTop(cfg, t.value, k, v);
    } else {
      NewTopCorrect(cfg, t, k, v);
      WellFormedSorted(cfg, t.value);
      UpsertSorted(ItemsOf(t.value), k, v);
    }
  }

  lemma FirstTop(cfg: TreeConfig, k: Key, v: Value)
    ensures var t := NewTop(cfg, None, k, v); t == Leaf([Item(k, v)]) && Cost(t) == 0 && Count(t) == 1 && !Overflows(cfg, None, k, v)
  {
  }

  lemma DeleteAfforded(cfg: TreeConfig, t: Option<Tree>, k: Key, n: nat)
    requires cfg.Valid() && (t.Some? ==> WellFormed(cfg, t.value)) && Afforded(cfg, t, n)
    ensures Afforded(cfg, DeleteRoot(cfg, t, k), n)
  {
    hide WellFormed, DeleteRoot, Cost, Without;
    DeleteRootCorrect(cfg, t, k);
    if t.Some? {
      if cfg.minFanout == 1 {
        CostOfDelete(cfg, t.value, k);
      } else {
        WellFormedSorted(cfg, t.value);
        WithoutSorted(ItemsOf(t.value), k);
      }
    }
  }

  /** The height is at most logarithmic in the number of insertions. */
  lemma AffordedLevel(cfg: TreeConfig, t: Tree, n: nat)
    requires cfg.Valid() && WellFormed(cfg, t) && Afforded(cfg, Some(t), n)
    ensures 2 * Power(2, Level(t)) <= n + 2
  {
    hide Power, Excess;
    if cfg.minFanout > 1 {
      if Level(t) > 0 {
        HeightBound(cfg, t);
        PowerMonotone(2, cfg.minFanout, Level(t));
      } else {
        PowerZero();
      }
    }
  }

  lemma PowerZero()
    ensures Power(2, 0) == 1
  {
  }

  lemma OverflowCost(cfg: TreeConfig, t: Option<Tree>, k: Key, v: Value, n: nat)
    requires cfg.Valid() && (t.Some? ==> WellFormed(cfg, t.value)) && Afforded(cfg, t, n)
    requires Overflows(cfg, t, k, v)
    ensures 2 * Power(2, 255) <= n + 2 && n >= 0x1_0000_0000_0000_0000
  {
    hide WellFormed, Power, Afforded;
    AffordedLevel(cfg, t.value, n);
    PowerGrows(64, MAX_LEVEL);
    PowerOf2At64();
  }

  lemma {:induction false} ReachedAfforded(cfg: TreeConfig, cs: seq<Change>)
    requires cfg.Valid() && cfg.targetFanout > 2
    ensures var t := Reached(cfg, cs); (t.Some? ==> WellFormed(cfg, t.value)) && Afforded(cfg, t, Settings(cs))
    decreases |cs|
  {
    hide WellFormed, Afforded, NewTop, DeleteRoot;
    if cs == [] {
      NothingAfforded(cfg);
    } else {
      var before, c := cs[..|cs| - 1], cs[|cs| - 1];
      ReachedAfforded(cfg, before);
      match c {
        case Setting(k, v) =>
          NewTopCorrect(cfg, Reached(cfg, before), k, v);
          InsertAfforded(cfg, Reached(cfg, before), k, v, Settings(before));
        case Removal(k) =>
          DeleteRootCorrect(cfg, Reached(cfg, before), k);
          DeleteAfforded(cfg, Reached(cfg, before), k, Settings(before));
      }
    }
  }

  lemma NothingAfforded(cfg: TreeConfig)
    ensures Afforded(cfg, None, 0)
  {
  }

  // ----- the climb

  /** A tree that splits in all its levels when a key is put after all others: two
      entries in its root, and in each last child. */
  ghost predicate Steep(t: Tree)
    decreases t
  {
    if t.Leaf? then |t.items| == 2 else |t.kids| == 2 && Steep(t.kids[1])
  }

  /** The items before the last entry of the root. */
  ghost function FrontItems(t: Tree): seq<Item> {
    if t.Leaf? then (if t.items == [] then [] else [t.items[0]])
    else if t.kids == [] then [] else ItemsOf(t.kids[0])
  }

  /** With two entries a node, a split leaves the last one alone in front. */
  lemma {:induction false} SteepSplits(cfg: TreeConfig, t: Tree, k: Key, v: Value)
    requires cfg.Valid() && cfg.targetFanout == 2 && Steep(t) && Body(cfg, t)
    requires Sorted(ItemsOf(t)) && AllBelow(ItemsOf(t), k)
    ensures var g := Insert(cfg, t, k, v); g.right.Some? && Steep(g.right.value) && ItemsOf(g.left) == FrontItems(t)
    decreases t
  {
    hide AllItems, Sorted, AllBelow, Inner, AllInner, Upsert, Route;
    if t.Leaf? {
      UpsertLast(t.items, k, v);
      var s := t.items + [Item(k, v)];
      assert s[..1] == [t.items[0]] && |s[1..]| == 2;
    } else {
      var kids := t.kids;
      KidsInner(cfg, t);
      LastRoute(cfg, t, k);
      InnerBody(cfg, kids[1]);
      SteepSplits(cfg, kids[1], k, v);
      var g := Insert(cfg, kids[1], k, v);
      var kids' := [kids[0], g.left, g.right.value];
      assert kids[..1] + g.Trees() + kids[2..] == kids';
      assert kids'[..1] == [kids[0]] && kids'[1..] == [g.left, g.right.value];
      AllItemsOne(kids[0]);
    }
  }

  lemma UpsertLast(s: seq<Item>, k: Key, v: Value)
    requires AllBelow(s, k)
    ensures Upsert(s, k, v) == s + [Item(k, v)]
  {
    hide Upsert, LowerBound, Find;
    assert s + [] + [] == s;
    OnCut(s, k, s, [], [], v);
    assert s + [Item(k, v)] + [] == s + [Item(k, v)];
  }

  /** A key above all others is routed to the last of two children. */
  lemma LastRoute(cfg: TreeConfig, t: Tree, k: Key)
    requires cfg.Valid() && Body(cfg, t) && t.Branch? && |t.kids| == 2
    requires Sorted(ItemsOf(t)) && AllBelow(ItemsOf(t), k)
    ensures Route(t.kids, k) == 1 && Sorted(ItemsOf(t.kids[1])) && AllBelow(ItemsOf(t.kids[1]), k)
  {
    hide Sorted, AllItems, Inner, Route, AllBelow, AllAbove;
    var kids := t.kids;
    KidsInner(cfg, t);
    RouteSplits(cfg, kids, t.level - 1, k);
    assert kids == [kids[0], kids[1]];
    AllItemsTwo(kids[0], kids[1]);
    BelowLater(ItemsOf(kids[0]), ItemsOf(kids[1]), k);
    if Route(kids, k) == 0 {
      assert kids[1..] == [kids[1]];
      AllItemsOne(kids[1]);
      InnerBody(cfg, kids[1]);
      InnerNonEmpty(cfg, kids[1]);
      NotBoth(ItemsOf(kids[1]), k);
    }
  }

  lemma NotBoth(s: seq<Item>, k: Key)
    requires AllBelow(s, k) && AllAbove(s, k)
    ensures s == []
  {
    hide AllBelow, AllAbove;
    HeadBelow(s, k);
    HeadAbove(s, k);
  }

  lemma HeadBelow(s: seq<Item>, k: Key)
    requires AllBelow(s, k)
    ensures s != [] ==> Pos(s[0].key) < Pos(k)
  {
  }

  lemma HeadAbove(s: seq<Item>, k: Key)
    requires AllAbove(s, k)
    ensures s != [] ==> Pos(k) < Pos(s[0].key)
  {
  }

  lemma BelowLater(a: seq<Item>, b: seq<Item>, k: Key)
    requires AllBelow(a + b, k)
    ensures AllBelow(b, k)
  {
    forall i | 0 <= i < |b|
      ensures Pos(b[i].key) < Pos(k)
    {
      assert (a + b)[|a| + i] == b[i];
    }
  }

  ghost function SettingsOf(items: seq<Item>): (cs: seq<Change>)
    ensures |cs| == |items|
    ensures forall i :: 0 <= i < |items| ==> cs[i] == Setting(items[i].key, items[i].value)
  {
    seq(|items|, i requires 0 <= i < |items| => Setting(items[i].key, items[i].value))
  }

  /** With a target fanout of two, ascending insertions add a level each. */
  lemma {:induction false} Climbs(cfg: TreeConfig, items: seq<Item>)
    requires cfg.Valid() && cfg.targetFanout == 2 && Sorted(items) && 2 <= |items| <= 257
    ensures var t := Reached(cfg, SettingsOf(items));
            && t.Some? && WellFormed(cfg, t.value) && ItemsOf(t.value) == items
            && Level(t.value) == |items| - 2 && Steep(t.value) && FrontItems(t.value) == [items[0]]
    decreases |items|
  {
    hide WellFormed, Steep, FrontItems, Insert, Upsert, Sorted, AllItems, AllBelow;
    var n := |items| - 1;
    var before, x := items[..n], items[n];
    assert items == before + [x];
    assert SettingsOf(items)[..n] == SettingsOf(before);
    SortedParts(before, [x]);
    LastIsAbove(items);
    if n == 1 {
      assert items == [items[0], items[1]];
      ClimbBegins(cfg, items[0], items[1]);
    } else {
      Climbs(cfg, before);
      var t := Reached(cfg, SettingsOf(before)).value;
      OneUp(cfg, t, x);
      UpsertLast(before, x.key, x.value);
    }
  }

  lemma LastIsAbove(items: seq<Item>)
    requires Sorted(items) && items != []
    ensures AllBelow(items[..|items| - 1], items[|items| - 1].key)
  {
  }

  lemma OneUp(cfg: TreeConfig, t: Tree, x: Item)
    requires cfg.Valid() && cfg.targetFanout == 2 && WellFormed(cfg, t) && Steep(t) && AllBelow(ItemsOf(t), x.key)
    ensures if Level(t) == MAX_LEVEL
            then Overflows(cfg, Some(t), x.key, x.value) && ItemsOf(NewTop(cfg, Some(t), x.key, x.value)) == FrontItems(t)
            else
              var u := NewTop(cfg, Some(t), x.key, x.value);
              && !Overflows(cfg, Some(t), x.key, x.value) && Level(u) == Level(t) + 1 && Steep(u)
              && FrontItems(u) == FrontItems(t)
    ensures !Overflows(cfg, Some(t), x.key, x.value) ==>
              var u := NewTop(cfg, Some(t), x.key, x.value);
              WellFormed(cfg, u) && ItemsOf(u) == Upsert(ItemsOf(t), x.key, x.value)
  {
    hide AllItems, Insert, Upsert, Sorted, AllBelow;
    SteepSplits(cfg, t, x.key, x.value);
    NewTopCorrect(cfg, Some(t), x.key, x.value);
  }

  lemma ClimbBegins(cfg: TreeConfig, a: Item, b: Item)
    requires cfg.Valid() && cfg.targetFanout == 2 && Sorted([a, b])
    ensures var t := Reached(cfg, SettingsOf([a, b]));
            && t == Some(Leaf([a, b])) && WellFormed(cfg, t.value) && Level(t.value) == 0 && Steep(t.value)
            && FrontItems(t.value) == [a] && ItemsOf(t.value) == [a, b]
  {
    hide Upsert, Sorted, LowerBound;
    assert SettingsOf([a, b])[..1] == SettingsOf([a]);
    assert SettingsOf([a])[..0] == [];
    FirstTop(cfg, a.key, a.value);
    assert Reached(cfg, SettingsOf([a])) == Some(Leaf([a]));
    LastIsAbove([a, b]);
    assert [a, b][..1] == [a] && [a] + [b] == [a, b];
    UpsertLast([a], b.key, b.value);
    assert Changed(cfg, Some(Leaf([a])), Setting(b.key, b.value)) == Some(Leaf([a, b]));
  }

  // ----- when every level fits

  /** Ascending keys of two bytes. */
  ghost function Ascending(n: nat): (items: seq<Item>)
    requires n < 0x1_0000
    ensures |items| == n
    ensures forall i :: 0 <= i < n ==> items[i] == Item([i / 256, i % 256], [])
  {
    seq(n, i requires 0 <= i < n => Item([i / 256, i % 256], []))
  }

  lemma AscendingSorted(n: nat)
    requires n < 0x1_0000
    ensures Sorted(Ascending(n))
  {
    var s := Ascending(n);
    forall i, j | 0 <= i < j < n
      ensures Pos(s[i].key) < Pos(s[j].key)
    {
      TwoBytes(i, j);
      assert KeyLess(s[i].key, s[j].key);
    }
  }

  lemma TwoBytes(i: nat, j: nat)
    requires i < j < 0x1_0000
    ensures LexLess([i / 256, i % 256], [j / 256, j % 256])
  {
    var a, b: Key := [i / 256, i % 256], [j / 256, j % 256];
    assert a[1..] == [i % 256] && b[1..] == [j % 256];
    assert i / 256 <= j / 256;
  }

  /** With a target fanout of two, the 258th ascending insertion fails, and of all the
      items only the first is left. */
  lemma ClimbFails(cfg: TreeConfig, items: seq<Item>)
    requires cfg.Valid() && cfg.targetFanout == 2 && Sorted(items) && |items| == 258
    ensures var cs := SettingsOf(items);
            && AllFit(cfg, cs[..|cs| - 1]) && Fails(cfg, Reached(cfg, cs[..|cs| - 1]), cs[|cs| - 1])
            && Reached(cfg, cs).Some? && ItemsOf(Reached(cfg, cs).value) == [items[0]]
  {
    hide WellFormed, Steep, FrontItems, Sorted, AllBelow, NewTop, Overflows;
    var n, cs := |items| - 1, SettingsOf(items);
    Prefix(items, n);
    Climbs(cfg, items[..n]);
    LastIsAbove(items);
    OneUp(cfg, Reached(cfg, cs[..n]).value, items[n]);
    forall i | 0 <= i < n
      ensures !Fails(cfg, Reached(cfg, cs[..n][..i]), cs[..n][i])
    {
      assert cs[..n][..i] == cs[..i];
      FitsBelow(cfg, items, i);
    }
  }

  lemma Prefix(items: seq<Item>, i: nat)
    requires i <= |items| && Sorted(items)
    ensures Sorted(items[..i]) && SettingsOf(items)[..i] == SettingsOf(items[..i])
  {
    hide Sorted;
    assert items == items[..i] + items[i..];
    SortedParts(items[..i], items[i..]);
  }

  lemma FitsBelow(cfg: TreeConfig, items: seq<Item>, i: nat)
    requires cfg.Valid() && cfg.targetFanout == 2 && Sorted(items) && i < |items| && i < 257
    ensures !Fails(cfg, Reached(cfg, SettingsOf(items)[..i]), SettingsOf(items)[i])
  {
    hide WellFormed, Steep, FrontItems, Sorted, AllBelow, NewTop;
    Prefix(items, i);
    if i >= 2 {
      Climbs(cfg, items[..i]);
    } else if i == 1 {
      assert SettingsOf(items[..1])[..0] == [];
      FirstTop(cfg, items[0].key, items[0].value);
    }
  }

  lemma {:induction false} SettingsCount(items: seq<Item>)
    ensures Settings(SettingsOf(items)) == |items|
    decreases |items|
  {
    if items != [] {
      var n := |items| - 1;
      assert SettingsOf(items)[..n] == SettingsOf(items[..n]);
      SettingsCount(items[..n]);
    }
  }

  /** No insertion fails, whatever changes are made with less than `2^64` insertions
      among them, exactly when the target fanout is above two. */
  lemma LevelsFitIff(cfg: TreeConfig)
    requires cfg.Valid()
    ensures (forall cs :: Settings(cs) < 0x1_0000_0000_0000_0000 ==> AllFit(cfg, cs)) <==> cfg.targetFanout > 2
  {
    hide Sorted, Reached, Overflows, WellFormed;
    if cfg.targetFanout > 2 {
      forall cs: seq<Change>, i: nat | Settings(cs) < 0x1_0000_0000_0000_0000 && i < |cs|
        ensures !Fails(cfg, Reached(cfg, cs[..i]), cs[i])
      {
        ReachedAfforded(cfg, cs[..i]);
        SettingsGrow(cs, i);
        if Fails(cfg, Reached(cfg, cs[..i]), cs[i]) {
          OverflowCost(cfg, Reached(cfg, cs[..i]), cs[i].key, cs[i].value, Settings(cs[..i]));
        }
      }
    } else {
      var items := Ascending(258);
      AscendingSorted(258);
      ClimbFails(cfg, items);
      SettingsCount(items);
      var cs := SettingsOf(items);
      assert Fails(cfg, Reached(cfg, cs[..|cs| - 1]), cs[|cs| - 1]);
    }
  }

  // ----- the same by the number of items

  /** Every tree on the way has less than `2^64` items. */
  ghost predicate Small(cfg: TreeConfig, cs: seq<Change>) {
    forall i :: 0 <= i <= |cs| ==>
      (Reached(cfg, cs[..i]).Some? ==> Count(Reached(cfg, cs[..i]).value) < 0x1_0000_0000_0000_0000)
  }

  /** Without deletions a tree costs no more than it has items. */
  lemma {:induction false} CostIsCount(cfg: TreeConfig, items: seq<Item>)
    requires cfg.Valid() && cfg.targetFanout > 2 && AllFit(cfg, SettingsOf(items))
    ensures var t := Reached(cfg, SettingsOf(items)); t.Some? ==> WellFormed(cfg, t.value) && Cost(t.value) <= Count(t.value)
    decreases |items|
  {
    hide WellFormed, NewTop, Overflows, Cost, Count;
    if items != [] {
      var n, cs := |items| - 1, SettingsOf(items);
      assert cs[..n] == SettingsOf(items[..n]);
      FitsPrefix(cfg, cs, n);
      CostIsCount(cfg, items[..n]);
      var t := Reached(cfg, cs[..n]);
      NewTopCorrect(cfg, t, items[n].key, items[n].value);
      assert !Fails(cfg, t, cs[n]);
      if t.Some? {
        CostOfNewTop(cfg, t.value, items[n].key, items[n].value);
      } else {
        FirstTop(cfg, items[n].key, items[n].value);
      }
    }
  }

  lemma FitsPrefix(cfg: TreeConfig, cs: seq<Change>, i: nat)
    requires i <= |cs| && AllFit(cfg, cs)
    ensures AllFit(cfg, cs[..i])
  {
    hide Fails, Reached;
    forall j | 0 <= j < i
      ensures !Fails(cfg, Reached(cfg, cs[..i][..j]), cs[..i][j])
    {
      assert cs[..i][..j] == cs[..j];
    }
  }

  /** A tree of the highest level that costs no more than its items has many of them. */
  lemma CostlyIsLarge(cfg: TreeConfig, t: Tree)
    requires cfg.Valid() && WellFormed(cfg, t) && Level(t) == MAX_LEVEL
    requires Cost(t) <= Count(t) || cfg.minFanout > 1
    ensures Count(t) >= 0x1_0000_0000_0000_0000
  {
    hide Power, Excess, WellFormed, Count;
    if cfg.minFanout > 1 {
      if Count(t) < 0x1_0000_0000_0000_0000 { LevelFitsU8(cfg, t); }
    } else {
      PowerGrows(64, MAX_LEVEL);
      PowerOf2At64();
    }
  }

  lemma {:induction false} SmallFits(cfg: TreeConfig, items: seq<Item>, n: nat)
    requires cfg.Valid() && cfg.targetFanout > 2 && Small(cfg, SettingsOf(items)) && n <= |items|
    ensures AllFit(cfg, SettingsOf(items)[..n])
    decreases n
  {
    hide WellFormed, NewTop, Insert, Cost, Reached, Count;
    if n > 0 {
      var cs, m := SettingsOf(items), n - 1;
      SmallFits(cfg, items, m);
      assert cs[..m] == SettingsOf(items[..m]);
      CostIsCount(cfg, items[..m]);
      var t := Reached(cfg, cs[..m]);
      if Fails(cfg, t, cs[m]) { CostlyIsLarge(cfg, t.value); }
      forall j | 0 <= j < n
        ensures !Fails(cfg, Reached(cfg, cs[..n][..j]), cs[..n][j])
      {
        assert cs[..n][..j] == cs[..j];
        if j < m { assert cs[..m][..j] == cs[..j] && !Fails(cfg, Reached(cfg, cs[..m][..j]), cs[..m][j]); }
      }
    }
  }

  /** However often the same keys are set: as long as the items are less than `2^64`, no
      sequence of insertions fails exactly when the target fanout is above two. */
  lemma InsertionsFitIff(cfg: TreeConfig)
    requires cfg.Valid()
    ensures (forall items :: Small(cfg, SettingsOf(items)) ==> AllFit(cfg, SettingsOf(items))) <==> cfg.targetFanout > 2
  {
    hide Sorted, Reached, Overflows, WellFormed, Small;
    if cfg.targetFanout > 2 {
      forall items | Small(cfg, SettingsOf(items))
        ensures AllFit(cfg, SettingsOf(items))
      {
        SmallFits(cfg, items, |items|);
        assert SettingsOf(items)[..|items|] == SettingsOf(items);
      }
    } else {
      var items := Ascending(258);
      AscendingSorted(258);
      ClimbFails(cfg, items);
      ClimbIsSmall(cfg, items);
      var cs := SettingsOf(items);
      assert Fails(cfg, Reached(cfg, cs[..|cs| - 1]), cs[|cs| - 1]);
    }
  }

  /** A tree has at most as many items as were set. */
  lemma {:induction false} ReachedCount(cfg: TreeConfig, cs: seq<Change>)
    requires cfg.Valid()
    ensures var t := Reached(cfg, cs); t.Some? ==> WellFormed(cfg, t.value) && Count(t.value) <= |cs|
    decreases |cs|
  {
    hide WellFormed, NewTop, DeleteRoot, Upsert, Without, Overflows;
    if cs != [] {
      var before, c := cs[..|cs| - 1], cs[|cs| - 1];
      ReachedCount(cfg, before);
      var t := Reached(cfg, before);
      if t.Some? { WellFormedSorted(cfg, t.value); }
      match c {
        case Setting(k, v) =>
          NewTopCorrect(cfg, t, k, v);
          if t.Some? { UpsertSorted(ItemsOf(t.value), k, v); }
        case Removal(k) =>
          DeleteRootCorrect(cfg, t, k);
          if t.Some? { WithoutSorted(ItemsOf(t.value), k); }
      }
    }
  }

  lemma ClimbIsSmall(cfg: TreeConfig, items: seq<Item>)
    requires cfg.Valid() && |items| == 258
    ensures Small(cfg, SettingsOf(items))
  {
    hide WellFormed, Reached;
    forall i | 0 <= i <= |items|
      ensures var t := Reached(cfg, SettingsOf(items)[..i]); t.Some? ==> Count(t.value) < 0x1_0000_0000_0000_0000
    {
      ReachedCount(cfg, SettingsOf(items)[..i]);
    }
  }

  /** With a minimum fanout above one, deletions do no harm to that. */
  lemma ChangesFit(cfg: TreeConfig, cs: seq<Change>)
    requires cfg.Valid() && cfg.minFanout > 1 && Small(cfg, cs)
    ensures AllFit(cfg, cs)
  {
    hide WellFormed, Reached, Insert, Count;
    forall i | 0 <= i < |cs|
      ensures !Fails(cfg, Reached(cfg, cs[..i]), cs[i])
    {
      ReachedCount(cfg, cs[..i]);
      var t := Reached(cfg, cs[..i]);
      if Fails(cfg, t, cs[i]) { CostlyIsLarge(cfg, t.value); }
    }
  }

  lemma {:induction false} SettingsGrow(cs: seq<Change>, i: nat)
    requires i <= |cs|
    ensures Settings(cs[..i]) <= Settings(cs)
    decreases |cs|
  {
    if i < |cs| {
      var before := cs[..|cs| - 1];
      assert before[..i] == cs[..i];
      SettingsGrow(before, i);
    } else {
      assert cs[..i] == cs;
    }
  }
}
