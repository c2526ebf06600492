/** Structural sharing: the subtrees off the path of a change survive it, and so
    keep their hashes. */
module Sharing {
  import opened Keys
  import opened Items
  import opened Nodes
  import opened Trees
  import opened Insertion
  import opened Deletion

  function Kids(t: Tree): seq<Tree> {
    if t.Branch? then t.kids else []
  }

  /** `u` is `t` or a subtree of it. */
  ghost predicate Within(u: Tree, t: Tree)
    decreases t, 1
  {
    u == t || (t.Branch? && Among(u, t.kids))
  }

  ghost predicate Among(u: Tree, ts: seq<Tree>)
    decreases ts, 0
  {
    exists i :: 0 <= i < |ts| && Within(u, ts[i])
  }

  ghost predicate Below(u: Tree, t: Tree) {
    Among(u, Kids(t))
  }

  /** The sibling that a parent draws on for child `i` when that child is left with
      `size` entries: none if it is not underfull, the left one if it can lend, else
      the right one if it can lend, else the one it is merged with. */
  ghost function Partner(cfg: TreeConfig, kids: seq<Tree>, i: nat, size: nat): Option<nat>
    requires i < |kids|
  {
    if size >= cfg.minFanout then None
    else if i > 0 && Size(kids[i - 1]) > cfg.minFanout then Some(i - 1)
    else if i + 1 < |kids| && Size(kids[i + 1]) > cfg.minFanout then Some(i + 1)
    else if i > 0 then Some(i - 1)
    else if |kids| > 1 then Some(1)
    else None
  }

  /** The child that a change of key `k` draws on beside the path: none for an
      insertion (no configuration given), and for a deletion only the partner of a
      child that it leaves underfull. */
  ghost function Drawn(deleting: Option<TreeConfig>, kids: seq<Tree>, k: Key): Option<nat>
    requires kids != []
  {
    if deleting.None? then None else
    match Delete(deleting.value, kids[Route(kids, k)], k)
    case Updated(w) => Partner(deleting.value, kids, Route(kids, k), Size(w))
    case _ => None
  }

  /** `u` is off the path of the change: in a child beside the path, or, if that
      child is drawn on, below it; at any level. */
  ghost predicate OffPath(u: Tree, t: Tree, k: Key, deleting: Option<TreeConfig>)
    decreases t
  {
    && t.Branch? && t.kids != []
    && (BesidePath(u, t.kids, Route(t.kids, k), Drawn(deleting, t.kids, k))
        || OffPath(u, t.kids[Route(t.kids, k)], k, deleting))
  }

  ghost predicate BesidePath(u: Tree, kids: seq<Tree>, i: nat, drawn: Option<nat>) {
    exists j: nat :: j < |kids| && j != i && SparedIn(u, kids[j], drawn == Some(j))
  }

  ghost predicate SparedIn(u: Tree, t: Tree, drawnOn: bool) {
    if drawnOn then Below(u, t) else Within(u, t)
  }

  lemma AmongHas(u: Tree, ts: seq<Tree>, i: nat)
    requires i < |ts| && Within(u, ts[i])
    ensures Among(u, ts)
  {
  }

  lemma AmongTwo(u: Tree, a: seq<Tree>, b: seq<Tree>)
    ensures Among(u, a + b) <==> Among(u, a) || Among(u, b)
  {
    hide Within;
    if Among(u, a) {
      var i :| 0 <= i < |a| && Within(u, a[i]);
      assert Within(u, (a + b)[i]);
    }
    if Among(u, b) {
      var i :| 0 <= i < |b| && Within(u, b[i]);
      assert Within(u, (a + b)[|a| + i]);
    }
    if Among(u, a + b) {
      var i :| 0 <= i < |a + b| && Within(u, (a + b)[i]);
      if i < |a| { assert Within(u, a[i]); } else { assert Within(u, b[i - |a|]); }
    }
  }

  lemma AmongThree(u: Tree, a: seq<Tree>, b: seq<Tree>, c: seq<Tree>)
    ensures Among(u, a + b + c) <==> Among(u, a) || Among(u, b) || Among(u, c)
  {
    hide Among;
    AmongTwo(u, a + b, c);
    AmongTwo(u, a, b);
  }

  lemma AmongOne(u: Tree, t: Tree)
    ensures Among(u, [t]) <==> Within(u, t)
    ensures Below(u, t) ==> Within(u, t)
  {
    if Within(u, t) { assert Within(u, [t][0]); }
  }

  /** What is beside the path is among the other children. */
  lemma BesideIsAmong(u: Tree, kids: seq<Tree>, i: nat, drawn: Option<nat>)
    requires i < |kids| && BesidePath(u, kids, i, drawn)
    ensures Among(u, kids[..i]) || Among(u, kids[i + 1..])
  {
    hide Within, Among, Below;
    var j: nat :| j < |kids| && j != i && SparedIn(u, kids[j], drawn == Some(j));
    AmongOne(u, kids[j]);
    if j < i { AmongHas(u, kids[..i], j); } else { AmongHas(u, kids[i + 1..], j - i - 1); }
  }

  // ----- sharing in the store

  /** The nodes of trees are those of the subtrees among them. */
  lemma {:induction false} AmongIsStored(e: Env, ts: seq<Tree>, u: Tree)
    requires Trusted(e) && Among(u, ts)
    ensures HashOf(e, u) in AllNodeHashes(e, ts)
    decreases ts
  {
    hide Trusted, HashOf, NodeHashes;
    if Within(u, ts[0]) {
      WithinIsStored(e, ts[0], u);
    } else {
      var i :| 0 <= i < |ts| && Within(u, ts[i]);
      assert ts[1..][i - 1] == ts[i];
      AmongIsStored(e, ts[1..], u);
    }
  }

  lemma {:induction false} WithinIsStored(e: Env, t: Tree, u: Tree)
    requires Trusted(e) && Within(u, t)
    ensures HashOf(e, u) in NodeHashes(e, t)
    decreases t, 0
  {
    hide Trusted, HashOf, Among, AllNodeHashes;
    if u != t { AmongIsStored(e, t.kids, u); }
  }

  lemma {:induction false} StoredIsAmong(e: Env, ts: seq<Tree>, h: Hash) returns (u: Tree)
    requires Trusted(e) && h in AllNodeHashes(e, ts)
    ensures Among(u, ts) && HashOf(e, u) == h
    decreases ts
  {
    hide Trusted, HashOf, Within, Among;
    if h in NodeHashes(e, ts[0]) {
      if h == HashOf(e, ts[0]) {
        u := ts[0];
      } else {
        u := StoredIsAmong(e, ts[0].kids, h);
      }
      WithinHead(ts, u);
    } else {
      u := StoredIsAmong(e, ts[1..], h);
      AmongTail(ts, u);
    }
  }

  lemma WithinHead(ts: seq<Tree>, u: Tree)
    requires ts != [] && (u == ts[0] || (ts[0].Branch? && Among(u, ts[0].kids)))
    ensures Among(u, ts)
  {
    assert Within(u, ts[0]);
  }

  lemma AmongTail(ts: seq<Tree>, u: Tree)
    requires ts != [] && Among(u, ts[1..])
    ensures Among(u, ts)
  {
    var i :| 0 <= i < |ts[1..]| && Within(u, ts[1..][i]);
    assert ts[i + 1] == ts[1..][i];
  }

  // ----- insertion

  /** `u` is below one of the trees. */
  ghost predicate BelowOne(u: Tree, g: Grown) {
    Below(u, g.left) || (g.right.Some? && Below(u, g.right.value))
  }

  lemma GrowKeeps(cfg: TreeConfig, level: nat, kids: seq<Tree>, u: Tree)
    requires Among(u, kids)
    ensures BelowOne(u, GrowBranch(cfg, level, kids))
  {
    hide Among;
    var mid := |kids| / 2;
    assert kids == kids[..mid] + kids[mid..];
    AmongTwo(u, kids[..mid], kids[mid..]);
  }

  lemma TreesHave(u: Tree, g: Grown)
    requires BelowOne(u, g)
    ensures Among(u, g.Trees())
  {
    hide Among, Within, Below;
    AmongOne(u, g.left);
    if g.right.None? {
    } else {
      AmongOne(u, g.right.value);
      AmongTwo(u, [g.left], [g.right.value]);
      assert [g.left] + [g.right.value] == g.Trees();
    }
  }

  lemma {:induction false} InsertKeeps(cfg: TreeConfig, t: Tree, k: Key, v: Value, u: Tree)
    requires OffPath(u, t, k, None)
    ensures BelowOne(u, Insert(cfg, t, k, v))
    decreases t
  {
    hide Among, Within, Route, GrowBranch, BesidePath;
    var kids, i := t.kids, Route(t.kids, k);
    var g := Insert(cfg, kids[i], k, v);
    if BesidePath(u, kids, i, None) {
      BesideIsAmong(u, kids, i, None);
    } else {
      InsertKeeps(cfg, kids[i], k, v, u);
      TreesHave(u, g);
    }
    AmongThree(u, kids[..i], g.Trees(), kids[i + 1..]);
    BranchKeeps(cfg, t.level, kids, i, g, u);
  }

  lemma BranchKeeps(cfg: TreeConfig, level: nat, kids: seq<Tree>, i: nat, g: Grown, u: Tree)
    requires i < |kids| && Among(u, kids[..i] + g.Trees() + kids[i + 1..])
    ensures BelowOne(u, BranchGrown(cfg, level, kids, i, g))
  {
    hide Among, GrowBranch;
    if g.right.None? {
      assert kids[i := g.left] == kids[..i] + g.Trees() + kids[i + 1..];
    } else {
      GrowKeeps(cfg, level, kids[..i] + g.Trees() + kids[i + 1..], u);
    }
  }

  /** Every subtree off the path of an insertion is a subtree of the new tree. */
  lemma InsertShares(cfg: TreeConfig, t: Tree, k: Key, v: Value, u: Tree)
    requires OffPath(u, t, k, None)
    ensures Within(u, InsertRoot(cfg, Some(t), k, v))
  {
    hide Among, OffPath, Insert;
    InsertKeeps(cfg, t, k, v, u);
    TreesHave(u, Insert(cfg, t, k, v));
    AmongOne(u, Insert(cfg, t, k, v).left);
  }

  // ----- deletion

  /** Moving entries between two siblings keeps what is below them. */
  lemma PairKeeps(l: Tree, r: Tree, u: Tree)
    requires Below(u, l) || Below(u, r)
    ensures ShiftRight(l, r).Some? ==> Below(u, ShiftRight(l, r).value.0) || Below(u, ShiftRight(l, r).value.1)
    ensures ShiftLeft(l, r).Some? ==> Below(u, ShiftLeft(l, r).value.0) || Below(u, ShiftLeft(l, r).value.1)
    ensures Join(l, r).Some? ==> Below(u, Join(l, r).value)
  {
    hide Among;
    if l.Branch? && r.Branch? {
      AmongTwo(u, l.kids, r.kids);
      if l.kids != [] {
        var n := |l.kids| - 1;
        assert l.kids + r.kids == l.kids[..n] + ([l.kids[n]] + r.kids);
        AmongTwo(u, l.kids[..n], [l.kids[n]] + r.kids);
      }
      if r.kids != [] {
        assert l.kids + r.kids == (l.kids + [r.kids[0]]) + r.kids[1..];
        AmongTwo(u, l.kids + [r.kids[0]], r.kids[1..]);
      }
    } else {
      NoneAmong(u);
    }
  }

  lemma NoneAmong(u: Tree)
    ensures !Among(u, [])
  {
  }

  /** Where `u` is when the neighbours at `p` and `p + 1` are rewritten. */
  ghost predicate Survives(u: Tree, kids: seq<Tree>, p: nat)
    requires p + 1 < |kids|
  {
    Among(u, kids[..p]) || Among(u, kids[p + 2..]) || Below(u, kids[p]) || Below(u, kids[p + 1])
  }

  lemma BorrowKeeps(kids: seq<Tree>, p: nat, pair: Option<(Tree, Tree)>, u: Tree)
    requires p + 1 < |kids| && Survives(u, kids, p)
    requires pair == ShiftRight(kids[p], kids[p + 1]) || pair == ShiftLeft(kids[p], kids[p + 1])
    ensures Borrowed(kids, p, pair).Some? ==> Borrowed(kids, p, pair).value != [] && Among(u, Borrowed(kids, p, pair).value)
  {
    hide Among, ShiftRight, ShiftLeft;
    if pair.Some? {
      var mid := [pair.value.0, pair.value.1];
      if Below(u, kids[p]) || Below(u, kids[p + 1]) {
        PairKeeps(kids[p], kids[p + 1], u);
        TreesHave(u, Grown(pair.value.0, Some(pair.value.1)));
      }
      AmongThree(u, kids[..p], mid, kids[p + 2..]);
    }
  }

  lemma MergeKeeps(kids: seq<Tree>, p: nat, u: Tree)
    requires p + 1 < |kids| && Survives(u, kids, p)
    ensures MergedAt(kids, p).Some? ==> MergedAt(kids, p).value != [] && Among(u, MergedAt(kids, p).value)
  {
    hide Among, Join;
    var j := Join(kids[p], kids[p + 1]);
    if j.Some? {
      if Below(u, kids[p]) || Below(u, kids[p + 1]) {
        PairKeeps(kids[p], kids[p + 1], u);
        AmongOne(u, j.value);
      }
      AmongThree(u, kids[..p], [j.value], kids[p + 2..]);
    }
  }

  /** `u` beside child `i` or below it survives when that child and its partner are
      rewritten. */
  lemma SurvivesBeside(u: Tree, kids: seq<Tree>, i: nat, partner: nat)
    requires i < |kids| && partner < |kids| && (partner == i + 1 || partner + 1 == i)
    requires BesidePath(u, kids, i, Some(partner)) || Below(u, kids[i])
    ensures Survives(u, kids, if partner < i then partner else i)
  {
    hide Among, Within, Below;
    var p := if partner < i then partner else i;
    if !Below(u, kids[i]) {
      var j: nat :| j < |kids| && j != i && SparedIn(u, kids[j], Some(partner) == Some(j));
      if j < p { AmongHas(u, kids[..p], j); }
      if j > p + 1 { AmongHas(u, kids[p + 2..], j - p - 2); }
    }
  }

  lemma RebalanceKeeps(cfg: TreeConfig, kids: seq<Tree>, i: nat, u: Tree)
    requires i < |kids| && Size(kids[i]) < cfg.minFanout
    requires BesidePath(u, kids, i, Partner(cfg, kids, i, Size(kids[i]))) || Below(u, kids[i])
    ensures var r := Rebalance(cfg, kids, i); r.Some? ==> r.value != [] && Among(u, r.value)
  {
    hide Among, Within, Below, BesidePath, Survives, ShiftRight, ShiftLeft, Borrowed, MergedAt;
    var partner := Partner(cfg, kids, i, Size(kids[i]));
    if partner.Some? {
      SurvivesBeside(u, kids, i, partner.value);
      if partner.value < i {
        BorrowKeeps(kids, i - 1, ShiftRight(kids[i - 1], kids[i]), u);
        MergeKeeps(kids, i - 1, u);
      } else {
        BorrowKeeps(kids, i, ShiftLeft(kids[i], kids[i + 1]), u);
        MergeKeeps(kids, i, u);
      }
    }
  }

  lemma AfterUpdateKeeps(cfg: TreeConfig, level: nat, kids: seq<Tree>, i: nat, u: Tree)
    requires i < |kids|
    requires BesidePath(u, kids, i, Partner(cfg, kids, i, Size(kids[i]))) || Below(u, kids[i])
    ensures var s := AfterUpdate(cfg, level, kids, i); !s.Merged? && (s.Updated? ==> Below(u, s.tree))
  {
    hide Among, Within, Rebalance, BesidePath, Partner;
    var partner := Partner(cfg, kids, i, Size(kids[i]));
    if Size(kids[i]) < cfg.minFanout {
      RebalanceKeeps(cfg, kids, i, u);
    } else {
      if BesidePath(u, kids, i, partner) { BesideIsAmong(u, kids, i, partner); }
      AmongOne(u, kids[i]);
      assert kids == kids[..i] + [kids[i]] + kids[i + 1..];
      AmongThree(u, kids[..i], [kids[i]], kids[i + 1..]);
    }
  }

  lemma BesideSame(u: Tree, kids: seq<Tree>, i: nat, w: Tree, drawn: Option<nat>)
    requires i < |kids| && BesidePath(u, kids, i, drawn)
    ensures BesidePath(u, kids[i := w], i, drawn)
  {
    hide SparedIn;
    var j: nat :| j < |kids| && j != i && SparedIn(u, kids[j], drawn == Some(j));
    assert kids[i := w][j] == kids[j];
  }

  lemma PartnerSame(cfg: TreeConfig, kids: seq<Tree>, i: nat, w: Tree)
    requires i < |kids|
    ensures Partner(cfg, kids[i := w], i, Size(w)) == Partner(cfg, kids, i, Size(w))
  {
  }

  lemma {:induction false} DeleteKeeps(cfg: TreeConfig, t: Tree, k: Key, u: Tree)
    requires OffPath(u, t, k, Some(cfg))
    ensures var s := Delete(cfg, t, k); !s.Merged? && (s.Updated? ==> Below(u, s.tree))
    decreases t
  {
    hide Among, Within, Route, BesidePath, AfterUpdate, Below, Partner;
    var kids, i := t.kids, Route(t.kids, k);
    var drawn := Drawn(Some(cfg), kids, k);
    if !BesidePath(u, kids, i, drawn) { DeleteKeeps(cfg, kids[i], k, u); }
    match Delete(cfg, kids[i], k) {
      case NotFound =>
      case Failed =>
      case Merged => WithoutChildKeeps(t.level, kids, i, u, drawn);
      case Updated(w) =>
        PartnerSame(cfg, kids, i, w);
        if BesidePath(u, kids, i, drawn) { BesideSame(u, kids, i, w, drawn); }
        AfterUpdateKeeps(cfg, t.level, kids[i := w], i, u);
    }
  }

  lemma WithoutChildKeeps(level: nat, kids: seq<Tree>, i: nat, u: Tree, drawn: Option<nat>)
    requires i < |kids| && BesidePath(u, kids, i, drawn)
    ensures kids[..i] + kids[i + 1..] != [] && Below(u, Branch(level, kids[..i] + kids[i + 1..]))
  {
    hide Among, Within, BesidePath;
    BesideIsAmong(u, kids, i, drawn);
    AmongTwo(u, kids[..i], kids[i + 1..]);
    NoneAmong(u);
  }

  /** Every subtree off the path of a deletion is a subtree of the new tree: all that
      is in a sibling of the path, and of the one sibling that an underfull child
      draws on, all that is below it. */
  lemma DeleteShares(cfg: TreeConfig, t: Tree, k: Key, u: Tree)
    requires OffPath(u, t, k, Some(cfg))
    ensures DeleteRoot(cfg, Some(t), k).Some? && Within(u, DeleteRoot(cfg, Some(t), k).value)
  {
    hide Among, Delete, Within, Below, BesidePath, OffPath;
    DeleteKeeps(cfg, t, k, u);
    OffPathIsWithin(u, t, k, Some(cfg));
    var s := Delete(cfg, t, k);
    if s.Updated? { CollapseKeeps(s.tree, u); }
  }

  /** In particular, a deletion that leaves its child full enough keeps every other
      child as it is. */
  lemma SiblingsStay(cfg: TreeConfig, t: Tree, k: Key, j: nat)
    requires t.Branch? && j < |t.kids| && j != Route(t.kids, k)
    requires var s := Delete(cfg, t.kids[Route(t.kids, k)], k); s.Updated? ==> Size(s.tree) >= cfg.minFanout
    ensures DeleteRoot(cfg, Some(t), k).Some? && Within(t.kids[j], DeleteRoot(cfg, Some(t), k).value)
  {
    hide Among, Delete, DeleteRoot, Route;
    assert SparedIn(t.kids[j], t.kids[j], false);
    assert Drawn(Some(cfg), t.kids, k) == None;
    DeleteShares(cfg, t, k, t.kids[j]);
  }

  lemma CollapseKeeps(w: Tree, u: Tree)
    requires Below(u, w)
    ensures Within(u, Collapse(w))
  {
    hide Among, Within;
    AmongOne(u, w);
    if w.Branch? && |w.kids| == 1 {
      assert w.kids == [w.kids[0]];
      AmongOne(u, w.kids[0]);
    }
  }

  lemma {:induction false} OffPathIsWithin(u: Tree, t: Tree, k: Key, deleting: Option<TreeConfig>)
    requires OffPath(u, t, k, deleting)
    ensures Within(u, t)
    decreases t
  {
    hide Among, Route, BesidePath, Drawn;
    var kids, i := t.kids, Route(t.kids, k);
    var drawn := Drawn(deleting, kids, k);
    if BesidePath(u, kids, i, drawn) {
      BesideIsAmong(u, kids, i, drawn);
    } else {
      OffPathIsWithin(u, kids[i], k, deleting);
    }
    AmongOne(u, kids[i]);
    assert kids == kids[..i] + [kids[i]] + kids[i + 1..];
    AmongThree(u, kids[..i], [kids[i]], kids[i + 1..]);
  }
}
