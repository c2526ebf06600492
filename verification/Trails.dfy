/** Paths from a root to a node, as the cursor's stack keeps them. */
module Trails {
  import opened Sequences
  import opened Items
  import opened Nodes
  import opened Trees
  import opened Store

  /** An index into a leaf or a parent; `Max` is the sentinel `usize::MAX`. */
  datatype Index = At(i: nat) | Max

  datatype PathEntry = PathEntry(hash: Hash, node: Node, indexInParent: Index)

  /** One step of a trail: a subtree and its index in its parent. */
  datatype Frame = Frame(tree: Tree, index: nat)

  /** A trail: each subtree is the child of the one before, all of them in shape
      and in the store. The empty trail is a cursor that ran off the tree. */
  ghost predicate OnTrail(e: Env, keys: set<Hash>, fs: seq<Frame>)
    requires Trusted(e)
  {
    && (forall j :: 0 <= j < |fs| ==> FrameOk(e, keys, fs[j].tree))
    && (forall j :: 0 < j < |fs| ==> Linked(fs[j - 1].tree, fs[j]))
  }

  /** A path stays a path as the store grows. */
  lemma OnTrailGrows(e: Env, keys: set<Hash>, keys': set<Hash>, fs: seq<Frame>)
    requires Trusted(e) && OnTrail(e, keys, fs) && keys <= keys'
    ensures OnTrail(e, keys', fs)
  {
    hide Trusted, Held, Body, Linked;
    forall j | 0 <= j < |fs|
      ensures FrameOk(e, keys', fs[j].tree)
    {
      HeldGrows(e, keys, keys', fs[j].tree);
    }
  }

  ghost predicate FrameOk(e: Env, keys: set<Hash>, t: Tree)
    requires Trusted(e)
  {
    Body(e.config, t) && Size(t) > 0 && Held(e, keys, t)
  }

  ghost predicate Linked(parent: Tree, f: Frame) {
    parent.Branch? && f.index < |parent.kids| && f.tree == parent.kids[f.index]
  }

  ghost function EntryFor(e: Env, fs: seq<Frame>, j: nat): PathEntry
    requires Trusted(e) && j < |fs|
  {
    PathEntry(HashOf(e, fs[j].tree), NodeOf(e, fs[j].tree), if j == 0 then Max else At(fs[j].index))
  }

  /** The stack that represents a trail. */
  ghost function PathFor(e: Env, fs: seq<Frame>): (path: seq<PathEntry>)
    requires Trusted(e)
    ensures |path| == |fs|
    ensures forall j :: 0 <= j < |fs| ==> path[j] == EntryFor(e, fs, j)
  {
    seq(|fs|, j requires 0 <= j < |fs| => EntryFor(e, fs, j))
  }

  ghost function Last(fs: seq<Frame>): Tree
    requires fs != []
  {
    fs[|fs| - 1].tree
  }

  /** The items of the root after the subtree a trail ends in. */
  ghost function After(fs: seq<Frame>): seq<Item> {
    if |fs| <= 1 || !fs[|fs| - 2].tree.Branch? || fs[|fs| - 1].index >= |fs[|fs| - 2].tree.kids| then []
    else AllItems(fs[|fs| - 2].tree.kids[fs[|fs| - 1].index + 1..]) + After(fs[..|fs| - 1])
  }

  /** The items of the root before that subtree. */
  ghost function Before(fs: seq<Frame>): seq<Item> {
    if |fs| <= 1 || !fs[|fs| - 2].tree.Branch? || fs[|fs| - 1].index >= |fs[|fs| - 2].tree.kids| then []
    else Before(fs[..|fs| - 1]) + AllItems(fs[|fs| - 2].tree.kids[..fs[|fs| - 1].index])
  }

  /** One step down. */
  ghost function Down(fs: seq<Frame>, i: nat): seq<Frame>
    requires fs != [] && Last(fs).Branch? && i < |Last(fs).kids|
  {
    fs + [Frame(Last(fs).kids[i], i)]
  }

  lemma DownItems(fs: seq<Frame>, i: nat)
    requires fs != [] && Last(fs).Branch? && i < |Last(fs).kids|
    ensures After(Down(fs, i)) == AllItems(Last(fs).kids[i + 1..]) + After(fs)
    ensures Before(Down(fs, i)) == Before(fs) + AllItems(Last(fs).kids[..i])
    ensures ItemsOf(Last(fs)) == AllItems(Last(fs).kids[..i]) + ItemsOf(Last(fs).kids[i]) + AllItems(Last(fs).kids[i + 1..])
  {
    hide AllItems;
    var kids, gs := Last(fs).kids, Down(fs, i);
    assert gs[..|gs| - 1] == fs;
    assert kids == kids[..i] + [kids[i]] + kids[i + 1..];
    AllItemsAround(kids[..i], kids[i], kids[i + 1..]);
  }

  lemma DownOnTrail(e: Env, keys: set<Hash>, fs: seq<Frame>, i: nat)
    requires Trusted(e) && OnTrail(e, keys, fs) && fs != [] && Last(fs).Branch? && i < |Last(fs).kids|
    ensures OnTrail(e, keys, Down(fs, i))
    ensures var kid := Last(fs).kids[i];
            PathFor(e, Down(fs, i)) == PathFor(e, fs) + [PathEntry(HashOf(e, kid), NodeOf(e, kid), At(i))]
  {
    hide HashOf, NodeOf, AllItems, Body, Inner;
    KidFrame(e, keys, Last(fs), i);
    var gs := Down(fs, i);
    forall j | 0 < j < |gs|
      ensures Linked(gs[j - 1].tree, gs[j])
    {
      if j < |fs| { assert gs[j - 1] == fs[j - 1] && gs[j] == fs[j]; }
    }
  }

  lemma KidFrame(e: Env, keys: set<Hash>, t: Tree, i: nat)
    requires Trusted(e) && FrameOk(e, keys, t) && t.Branch? && i < |t.kids|
    ensures FrameOk(e, keys, t.kids[i])
  {
    hide HashOf, AllItems;
    ConfigIsValid(e);
    HeldBelow(e, keys, t);
    KidsHeld(e, keys, t);
    KidsInner(e.config, t);
    InnerBody(e.config, t.kids[i]);
  }

  /** The parent's trail. */
  lemma UpOnTrail(e: Env, keys: set<Hash>, fs: seq<Frame>)
    requires Trusted(e) && OnTrail(e, keys, fs) && |fs| > 1
    ensures var up := fs[..|fs| - 1];
            && OnTrail(e, keys, up) && Last(up).Branch?
            && fs[|fs| - 1].index < |Last(up).kids| && fs == Down(up, fs[|fs| - 1].index)
            && PathFor(e, up) == PathFor(e, fs)[..|fs| - 1]
  {
    hide HashOf, NodeOf, AllItems, FrameOk;
    var up, n := fs[..|fs| - 1], |fs| - 1;
    assert Linked(fs[n - 1].tree, fs[n]);
    assert fs == up + [fs[n]];
    forall j | 0 < j < |up|
      ensures Linked(up[j - 1].tree, up[j])
    {
      assert Linked(fs[j - 1].tree, fs[j]);
    }
  }

  /** A trail cuts the root's items in three. */
  lemma {:induction false} TrailTotal(e: Env, keys: set<Hash>, fs: seq<Frame>)
    requires Trusted(e) && OnTrail(e, keys, fs) && fs != []
    ensures ItemsOf(fs[0].tree) == Before(fs) + ItemsOf(Last(fs)) + After(fs)
    decreases |fs|
  {
    hide HashOf, NodeOf, AllItems, OnTrail, ItemsOf, Before, After;
    if |fs| == 1 {
      TrailOfOne(fs);
    } else {
      var up := fs[..|fs| - 1];
      UpOnTrail(e, keys, fs);
      TrailTotal(e, keys, up);
      DownItems(up, fs[|fs| - 1].index);
      FiveParts(Before(up), AllItems(Last(up).kids[..fs[|fs| - 1].index]), ItemsOf(Last(fs)),
        AllItems(Last(up).kids[fs[|fs| - 1].index + 1..]), After(up));
    }
  }

  lemma TrailOfOne(fs: seq<Frame>)
    requires |fs| == 1
    ensures Before(fs) == [] && After(fs) == []
    ensures ItemsOf(fs[0].tree) == Before(fs) + ItemsOf(Last(fs)) + After(fs)
  {
  }

  lemma FiveParts<T>(a: seq<T>, b: seq<T>, c: seq<T>, d: seq<T>, f: seq<T>)
    ensures a + (b + c + d) + f == (a + b) + c + (d + f)
  {
  }

  // ----- moving to a neighbouring leaf

  /** A loaded trail entry: its node, and a leaf or a branch with children. */
  lemma FrameLoads(e: Env, data: Chunks, t: Tree)
    requires Trusted(e) && Consistent(e, data) && FrameOk(e, data.Keys, t)
    ensures HashOf(e, t) in data && e.decode(data[HashOf(e, t)]) == Some(NodeOf(e, t))
    ensures t.Branch? ==> t.kids != [] && |Entries(e, t.kids)| == |t.kids|
    ensures t.Branch? ==> forall i :: 0 <= i < |t.kids| ==> Entries(e, t.kids)[i].childHash == HashOf(e, t.kids[i])
  {
    hide AllItems, Body, Trusted, Consistent, HashOf, NodeOf, MaxKey, Count;
    HeldBelow(e, data.Keys, t);
    LoadsNode(e, data, t);
  }

  /** Extends a path along first (or last) children down to a leaf. The items not
      yet passed stay the same. */
  method DescendEdge(store: InMemoryStore, path: seq<PathEntry>, toLast: bool, ghost fs: seq<Frame>)
    returns (r: Result<seq<PathEntry>>, ghost gs: seq<Frame>)
    requires Trusted(store.e) && Consistent(store.e, store.data)
    requires fs != [] && OnTrail(store.e, store.data.Keys, fs) && path == PathFor(store.e, fs)
    ensures r == Ok(PathFor(store.e, gs)) && path <= r.value && r.value[|r.value| - 1].node.LeafNode?
    ensures gs != [] && OnTrail(store.e, store.data.Keys, gs) && Last(gs).Leaf? && gs[0] == fs[0]
    ensures !toLast ==> Before(gs) == Before(fs) && ItemsOf(Last(gs)) + After(gs) == ItemsOf(Last(fs)) + After(fs)
    ensures toLast ==> After(gs) == After(fs) && Before(gs) + ItemsOf(Last(gs)) == Before(fs) + ItemsOf(Last(fs))
  {
    hide Trusted, HashOf, AllItems, OnTrail, ItemsOf, Before, After, Consistent, PathFor, Down, Held, Body;
    var p := path;
    gs := fs;
    ghost var e := store.e;
    TopOfPath(e, store.data.Keys, gs);
    var node := p[|p| - 1].node;
    while node.InternalNode?
      invariant gs != [] && OnTrail(e, store.data.Keys, gs) && p == PathFor(e, gs) && gs[0] == fs[0]
      invariant node == NodeOf(e, Last(gs)) && path <= p && node == p[|p| - 1].node
      invariant !toLast ==> Before(gs) == Before(fs) && ItemsOf(Last(gs)) + After(gs) == ItemsOf(Last(fs)) + After(fs)
      invariant toLast ==> After(gs) == After(fs) && Before(gs) + ItemsOf(Last(gs)) == Before(fs) + ItemsOf(Last(fs))
      decreases Last(gs)
    {
      TopOfPath(e, store.data.Keys, gs);
      FrameLoads(e, store.data, Last(gs));
      if |node.children| == 0 { r := Err(InternalError); return; }
      var i := if toLast then |node.children| - 1 else 0;
      ghost var kid := Last(gs).kids[i];
      DownItems(gs, i);
      DownOnTrail(e, store.data.Keys, gs, i);
      KidFrame(e, store.data.Keys, Last(gs), i);
      FrameLoads(e, store.data, kid);
      DownEdge(gs, i, toLast);
      DownLast(gs, i);
      var loaded := LoadNode(store, node.children[i].childHash);
      match loaded { case Err(error) => r := Err(error); return; case Ok(_) => }
      p := p + [PathEntry(node.children[i].childHash, loaded.value, At(i))];
      node := loaded.value;
      gs := Down(gs, i);
    }
    r := Ok(p);
  }

  lemma TopOfPath(e: Env, keys: set<Hash>, fs: seq<Frame>)
    requires Trusted(e) && fs != [] && OnTrail(e, keys, fs)
    ensures |PathFor(e, fs)| == |fs| && PathFor(e, fs)[|fs| - 1].node == NodeOf(e, Last(fs))
    ensures FrameOk(e, keys, Last(fs))
  {
    hide HashOf, NodeOf, FrameOk, Trusted;
  }

  lemma DownLast(fs: seq<Frame>, i: nat)
    requires fs != [] && Last(fs).Branch? && i < |Last(fs).kids|
    ensures Down(fs, i) != [] && Last(Down(fs, i)) == Last(fs).kids[i] && Down(fs, i)[0] == fs[0]
    ensures Last(fs) decreases to Last(Down(fs, i))
  {
    assert Last(fs).kids[i] in Last(fs).kids;
  }

  lemma DownEdge(fs: seq<Frame>, i: nat, toLast: bool)
    requires fs != [] && Last(fs).Branch? && i < |Last(fs).kids|
    requires i == if toLast then |Last(fs).kids| - 1 else 0
    ensures !toLast ==> Before(Down(fs, i)) == Before(fs)
                        && ItemsOf(Last(fs).kids[i]) + After(Down(fs, i)) == ItemsOf(Last(fs)) + After(fs)
    ensures toLast ==> After(Down(fs, i)) == After(fs)
                       && Before(Down(fs, i)) + ItemsOf(Last(fs).kids[i]) == Before(fs) + ItemsOf(Last(fs))
  {
    hide AllItems, ItemsOf, Before, After, Down;
    DownItems(fs, i);
    AllItemsNone();
    if toLast {
      assert Last(fs).kids[i + 1..] == [];
      Associative(Before(fs), AllItems(Last(fs).kids[..i]), ItemsOf(Last(fs).kids[i]));
    } else {
      assert Last(fs).kids[..i] == [];
      Associative(ItemsOf(Last(fs).kids[i]), AllItems(Last(fs).kids[i + 1..]), After(fs));
    }
  }

  /** Stepping to the right sibling passes exactly the subtree left behind. */
  lemma SideRight(up: seq<Frame>, i: nat)
    requires up != [] && Last(up).Branch? && i + 1 < |Last(up).kids|
    ensures After(Down(up, i)) == ItemsOf(Last(up).kids[i + 1]) + After(Down(up, i + 1))
    ensures Before(Down(up, i + 1)) == Before(Down(up, i)) + ItemsOf(Last(up).kids[i])
  {
    hide AllItems, ItemsOf, Before, After, Down;
    var kids := Last(up).kids;
    DownItems(up, i);
    DownItems(up, i + 1);
    assert kids[i + 1..] == [kids[i + 1]] + kids[i + 2..];
    AllItemsAround([], kids[i + 1], kids[i + 2..]);
    assert [] + [kids[i + 1]] + kids[i + 2..] == kids[i + 1..];
    assert kids[..i + 1] == kids[..i] + [kids[i]] + [];
    AllItemsAround(kids[..i], kids[i], []);
    AllItemsNone();
    Associative(ItemsOf(kids[i + 1]), AllItems(kids[i + 2..]), After(up));
    Associative(Before(up), AllItems(kids[..i]), ItemsOf(kids[i]));
  }

  /** Leaving the last (or first) child leaves nothing on that side unpassed. */
  lemma UpFromEdge(up: seq<Frame>, i: nat)
    requires up != [] && Last(up).Branch? && i < |Last(up).kids|
    ensures i + 1 == |Last(up).kids| ==>
              && After(Down(up, i)) == After(up)
              && Before(Down(up, i)) + ItemsOf(Last(up).kids[i]) == Before(up) + ItemsOf(Last(up))
    ensures i == 0 ==>
              && Before(Down(up, i)) == Before(up)
              && ItemsOf(Last(up).kids[i]) + After(Down(up, i)) == ItemsOf(Last(up)) + After(up)
  {
    hide AllItems, ItemsOf, Before, After, Down;
    if i + 1 == |Last(up).kids| { DownEdge(up, i, true); }
    if i == 0 { DownEdge(up, i, false); }
  }

  /** Moves a path to the next leaf; an exhausted path becomes empty. */
  method NextLeaf(store: InMemoryStore, path: seq<PathEntry>, ghost fs: seq<Frame>)
    returns (r: Result<(bool, seq<PathEntry>)>, ghost gs: seq<Frame>)
    requires Trusted(store.e) && Consistent(store.e, store.data)
    requires fs != [] && OnTrail(store.e, store.data.Keys, fs) && path == PathFor(store.e, fs)
    ensures r == Ok((gs != [], PathFor(store.e, gs))) && OnTrail(store.e, store.data.Keys, gs)
    ensures r.value.0 <==> After(fs) != []
    ensures gs != [] ==> Last(gs).Leaf? && gs[0] == fs[0]
                         && After(fs) == ItemsOf(Last(gs)) + After(gs)
                         && Before(gs) == Before(fs) + ItemsOf(Last(fs))
    ensures gs == [] ==> After(fs) == []
  {
    hide Trusted, HashOf, AllItems, OnTrail, ItemsOf, Before, After, Consistent, PathFor, Down, Held, Body, FrameOk;
    ghost var e := store.e;
    var p := path;
    gs := fs;
    while true
      invariant gs != [] && OnTrail(e, store.data.Keys, gs) && p == PathFor(e, gs) && gs[0] == fs[0]
      invariant After(gs) == After(fs)
      invariant Before(gs) + ItemsOf(Last(gs)) == Before(fs) + ItemsOf(Last(fs))
      decreases |gs|
    {
      PathShape(e, gs);
      var popped := p[|p| - 1].indexInParent;
      p := p[..|p| - 1];
      if |p| == 0 {
        TrailOfOne(gs);
        gs := [];
        EmptyTrail(e, store.data.Keys);
        r := Ok((false, p));
        return;
      }
      ghost var up, i := gs[..|gs| - 1], popped.i;
      UpOnTrail(e, store.data.Keys, gs);
      DownLast(up, i);
      TopOfPath(e, store.data.Keys, up);
      FrameLoads(e, store.data, Last(up));
      match p[|p| - 1].node {
        case LeafNode(_, _) => r := Err(InternalError); return;
        case InternalNode(_, children) =>
          var next := popped.i + 1;
          if next < |children| {
            SideRight(up, i);
            DownOnTrail(e, store.data.Keys, up, next);
            KidFrame(e, store.data.Keys, Last(up), next);
            FrameLoads(e, store.data, Last(up).kids[next]);
            DownLast(up, next);
            var loaded := LoadNode(store, children[next].childHash);
            match loaded { case Err(error) => r := Err(error); return; case Ok(_) => }
            var below;
            p := p + [PathEntry(children[next].childHash, loaded.value, At(next))];
            below, gs := DescendEdge(store, p, false, Down(up, next));
            match below { case Err(error) => r := Err(error); return; case Ok(_) => }
            LeafHasItems(e, store.data.Keys, gs);
            r := Ok((true, below.value));
            return;
          }
          UpFromEdge(up, i);
          gs := up;
      }
    }
  }

  /** Moves a path to the previous leaf; an exhausted path becomes empty. */
  method PreviousLeaf(store: InMemoryStore, path: seq<PathEntry>, ghost fs: seq<Frame>)
    returns (r: Result<(bool, seq<PathEntry>)>, ghost gs: seq<Frame>)
    requires Trusted(store.e) && Consistent(store.e, store.data)
    requires fs != [] && OnTrail(store.e, store.data.Keys, fs) && path == PathFor(store.e, fs)
    ensures r == Ok((gs != [], PathFor(store.e, gs))) && OnTrail(store.e, store.data.Keys, gs)
    ensures r.value.0 <==> Before(fs) != []
    ensures gs != [] ==> Last(gs).Leaf? && gs[0] == fs[0]
                         && Before(fs) == Before(gs) + ItemsOf(Last(gs))
                         && After(gs) == ItemsOf(Last(fs)) + After(fs)
    ensures gs == [] ==> Before(fs) == []
  {
    hide Trusted, HashOf, AllItems, OnTrail, ItemsOf, Before, After, Consistent, PathFor, Down, Held, Body, FrameOk;
    ghost var e := store.e;
    var p := path;
    gs := fs;
    while true
      invariant gs != [] && OnTrail(e, store.data.Keys, gs) && p == PathFor(e, gs) && gs[0] == fs[0]
      invariant Before(gs) == Before(fs)
      invariant ItemsOf(Last(gs)) + After(gs) == ItemsOf(Last(fs)) + After(fs)
      decreases |gs|
    {
      PathShape(e, gs);
      var popped := p[|p| - 1].indexInParent;
      p := p[..|p| - 1];
      if |p| == 0 {
        TrailOfOne(gs);
        gs := [];
        EmptyTrail(e, store.data.Keys);
        r := Ok((false, p));
        return;
      }
      ghost var up, i := gs[..|gs| - 1], popped.i;
      UpOnTrail(e, store.data.Keys, gs);
      DownLast(up, i);
      TopOfPath(e, store.data.Keys, up);
      FrameLoads(e, store.data, Last(up));
      match p[|p| - 1].node {
        case LeafNode(_, _) => r := Err(InternalError); return;
        case InternalNode(_, children) =>
          if popped.i > 0 {
            var prev := popped.i - 1;
            SideRight(up, prev);
            DownOnTrail(e, store.data.Keys, up, prev);
            KidFrame(e, store.data.Keys, Last(up), prev);
            FrameLoads(e, store.data, Last(up).kids[prev]);
            DownLast(up, prev);
            var loaded := LoadNode(store, children[prev].childHash);
            match loaded { case Err(error) => r := Err(error); return; case Ok(_) => }
            var below;
            p := p + [PathEntry(children[prev].childHash, loaded.value, At(prev))];
            below, gs := DescendEdge(store, p, true, Down(up, prev));
            match below { case Err(error) => r := Err(error); return; case Ok(_) => }
            LeafHasItems(e, store.data.Keys, gs);
            r := Ok((true, below.value));
            return;
          }
          UpFromEdge(up, i);
          gs := up;
      }
    }
  }

  lemma LeafHasItems(e: Env, keys: set<Hash>, fs: seq<Frame>)
    requires Trusted(e) && fs != [] && OnTrail(e, keys, fs) && Last(fs).Leaf?
    ensures ItemsOf(Last(fs)) != []
  {
    hide Trusted, HashOf, Held;
  }

  lemma EmptyTrail(e: Env, keys: set<Hash>)
    requires Trusted(e)
    ensures OnTrail(e, keys, []) && PathFor(e, []) == []
  {
  }

  lemma PathShape(e: Env, fs: seq<Frame>)
    requires Trusted(e) && fs != []
    ensures |PathFor(e, fs)| == |fs|
    ensures |fs| > 1 ==> PathFor(e, fs)[|fs| - 1].indexInParent == At(fs[|fs| - 1].index)
  {
    hide HashOf, NodeOf, Trusted;
  }
}
