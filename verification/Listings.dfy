/** What every item of a hierarchy listing shows, field by field. */
module Listings {
  import opened Items
  import opened Nodes
  import opened Values
  import opened Trees
  import opened Hierarchy

  /** Item `p` is entry `index` of the node item `index + 1` places before it. */
  ghost predicate Under(items: seq<HierarchyItem>, p: nat, hash: Hash, index: nat, path: seq<nat>)
    requires p < |items|
  {
    index < p &&
    var node := items[p - 1 - index];
    node.NodeItem? && node.hash == hash && index < node.numEntries && node.pathIndices == path
  }

  /** Entry `i` of the node item at `p` comes `i + 1` places after it. */
  ghost predicate HasEntry(items: seq<HierarchyItem>, p: nat, hash: Hash, i: nat) {
    p + 1 + i < |items| &&
    var x := items[p + 1 + i];
    !x.NodeItem? && x.parentHash == hash && x.entryIndex == i
  }

  /** A node item shows the subtree `u`, and all its entries follow. */
  ghost predicate NodeRight(e: Env, u: Tree, items: seq<HierarchyItem>, p: nat, path: seq<nat>)
    requires Trusted(e) && p < |items|
  {
    && items[p].NodeItem? && items[p].pathIndices == path && items[p].hash == HashOf(e, u)
    && (match u
        case Leaf(s) => items[p].level == 0 && items[p].isLeaf && items[p].numEntries == |s|
        case Branch(l, kids) => items[p].level == l && !items[p].isLeaf && items[p].numEntries == |kids|)
    && forall i :: 0 <= i < items[p].numEntries ==> HasEntry(items, p, items[p].hash, i)
  }

  /** An internal entry item stands below its node and shows the subtree one step down. */
  ghost predicate InternalRight(e: Env, u: Tree, items: seq<HierarchyItem>, p: nat, path: seq<nat>)
    requires Trusted(e) && p < |items|
  {
    && items[p].InternalEntryItem? && Under(items, p, items[p].parentHash, items[p].entryIndex, path)
    && items[p].parentHash == HashOf(e, u) && Follow(u, [items[p].entryIndex]).Some?
    && var kid := Follow(u, [items[p].entryIndex]).value;
       && items[p].childHash == HashOf(e, kid) && items[p].boundaryKey == MaxKey(kid)
       && items[p].numItemsSubtree == |ItemsOf(kid)|
  }

  /** A leaf entry item stands below its node and shows an item of the leaf. */
  ghost predicate LeafRight(e: Env, u: Tree, items: seq<HierarchyItem>, p: nat, path: seq<nat>)
    requires Trusted(e) && p < |items|
  {
    && items[p].LeafEntryItem? && Under(items, p, items[p].parentHash, items[p].entryIndex, path)
    && items[p].parentHash == HashOf(e, u) && u.Leaf? && items[p].entryIndex < |u.items|
    && var x := u.items[items[p].entryIndex];
       && items[p].key == x.key && items[p].valueSize == |x.value|
       && ShowsRepr(ReprOf(e, x.value), items[p].valueReprType, items[p].valueHash)
  }

  /** The kind of a representation, and the hash of its first chunk if it has chunks. */
  ghost predicate ShowsRepr(r: ValueRepr, valueReprType: string, valueHash: Option<Hash>) {
    match r
    case Inline(_) => valueReprType == "Inline" && valueHash == None
    case Chunked(h) => valueReprType == "Chunked" && valueHash == Some(h)
    case ChunkedSequence(hs, _) => valueReprType == "ChunkedSequence" && hs != [] && valueHash == Some(hs[0])
  }

  /** The item is right about the subtree at `down`; the listing gives paths from `path`. */
  ghost predicate Right(e: Env, t: Tree, path: seq<nat>, items: seq<HierarchyItem>, p: nat, down: seq<nat>)
    requires Trusted(e) && p < |items|
  {
    Follow(t, down).Some? &&
    var u := Follow(t, down).value;
    || NodeRight(e, u, items, p, path + down)
    || InternalRight(e, u, items, p, path + down)
    || LeafRight(e, u, items, p, path + down)
  }

  lemma ReprShown(e: Env, v: Value)
    requires Trusted(e)
    ensures ShowsRepr(ReprOf(e, v), ReprType(ReprOf(e, v)), ReprHash(ReprOf(e, v)))
  {
    hide Parts, Tiles;
  }

  lemma HeadAt(e: Env, t: Tree, path: seq<nat>, rest: seq<HierarchyItem>)
    requires Trusted(e)
    ensures var items := [NodeItemOf(e, t, path)] + EntryItems(e, t) + rest;
            && |items| > Size(t) && items[0] == NodeItemOf(e, t, path)
            && forall i :: 0 <= i < Size(t) ==> items[1 + i] == EntryItem(e, t, i)
  {
    hide Trusted, NodeItemOf, EntryItem, EntryItems;
    After(NodeItemOf(e, t, path), EntryItems(e, t), rest);
  }

  lemma After<T>(x: T, b: seq<T>, c: seq<T>)
    ensures var s := [x] + b + c; |s| > |b| && s[0] == x && forall i :: 0 <= i < |b| ==> s[1 + i] == b[i]
  {
  }

  lemma NodeHead(e: Env, t: Tree, path: seq<nat>, items: seq<HierarchyItem>)
    requires Trusted(e) && |items| > Size(t) && items[0] == NodeItemOf(e, t, path)
    requires forall i :: 0 <= i < Size(t) ==> items[1 + i] == EntryItem(e, t, i)
    ensures NodeRight(e, t, items, 0, path)
  {
    hide Trusted, HashOf, MaxKey, ReprOf, ItemsOf, ReprType, ReprHash;
    forall i | 0 <= i < Size(t)
      ensures HasEntry(items, 0, HashOf(e, t), i)
    {
      assert items[1 + i] == EntryItem(e, t, i);
    }
  }

  lemma EntryHead(e: Env, t: Tree, path: seq<nat>, items: seq<HierarchyItem>, i: nat)
    requires Trusted(e) && i < Size(t) < |items| && items[0] == NodeItemOf(e, t, path) && items[1 + i] == EntryItem(e, t, i)
    ensures InternalRight(e, t, items, 1 + i, path) || LeafRight(e, t, items, 1 + i, path)
  {
    hide Trusted, HashOf, MaxKey, ReprOf, ItemsOf, ShowsRepr, ReprType, ReprHash;
    match t {
      case Leaf(s) => ReprShown(e, s[i].value);
      case Branch(_, kids) => OneDown(t, i);
    }
  }

  /** The first items of a listing: the node, then its entries. */
  lemma HeadRight(e: Env, t: Tree, path: seq<nat>, rest: seq<HierarchyItem>, p: nat)
    requires Trusted(e) && p <= Size(t)
    ensures Right(e, t, path, [NodeItemOf(e, t, path)] + EntryItems(e, t) + rest, p, [])
  {
    hide Trusted, NodeItemOf, EntryItem, EntryItems, NodeRight, InternalRight, LeafRight;
    var items := [NodeItemOf(e, t, path)] + EntryItems(e, t) + rest;
    HeadAt(e, t, path, rest);
    assert path + [] == path;
    if p == 0 { NodeHead(e, t, path, items); } else { EntryHead(e, t, path, items, p - 1); }
  }

  lemma OneDown(t: Tree, i: nat)
    requires t.Branch? && i < |t.kids|
    ensures Follow(t, [i]) == Some(t.kids[i])
  {
    assert [i][1..] == [];
  }

  /** A part of a listing is right within the whole. */
  lemma RightWithin(e: Env, t: Tree, path: seq<nat>, a: seq<HierarchyItem>, m: seq<HierarchyItem>, c: seq<HierarchyItem>,
                    p: nat, down: seq<nat>)
    requires Trusted(e) && p < |m| && Right(e, t, path, m, p, down)
    ensures Right(e, t, path, a + m + c, |a| + p, down)
  {
    hide Trusted, HashOf, MaxKey, ReprOf, ItemsOf, ShowsRepr, Follow;
    var items := a + m + c;
    assert items[|a| + p] == m[p];
    if m[p].NodeItem? {
      var q := |a| + p;
      forall i | 0 <= i < m[p].numEntries
        ensures HasEntry(items, q, m[p].hash, i)
      {
        assert HasEntry(m, p, m[p].hash, i);
        assert items[|a| + (p + 1 + i)] == m[p + 1 + i];
      }
    } else {
      var index := m[p].entryIndex;
      assert items[|a| + (p - 1 - index)] == m[p - 1 - index];
    }
  }

  /** What is right about a child is right about the tree. */
  lemma RightAbove(e: Env, t: Tree, c: nat, path: seq<nat>, items: seq<HierarchyItem>, p: nat, down: seq<nat>)
    requires Trusted(e) && t.Branch? && c < |t.kids| && p < |items|
    requires Right(e, t.kids[c], path + [c], items, p, down)
    ensures Right(e, t, path, items, p, [c] + down)
  {
    hide Trusted, NodeRight, InternalRight, LeafRight;
    assert path + [c] + down == path + ([c] + down);
    assert ([c] + down)[1..] == down;
  }

  /** Every item of a listing is right about a subtree, which its node item names. */
  lemma {:induction false} EveryItemRight(e: Env, t: Tree, depth: nat, maxDepth: Option<nat>, path: seq<nat>, p: nat)
    returns (down: seq<nat>)
    requires Trusted(e) && p < |Preorder(e, t, depth, maxDepth, path)|
    ensures maxDepth.Some? ==> depth + |down| <= maxDepth.value
    ensures Right(e, t, path, Preorder(e, t, depth, maxDepth, path), p, down)
    decreases t, 1
  {
    hide Trusted, NodeItemOf, EntryItems, ChildrenPreorder, Right;
    var items := Preorder(e, t, depth, maxDepth, path);
    var head := [NodeItemOf(e, t, path)] + EntryItems(e, t);
    if p <= Size(t) {
      down := [];
      HeadRight(e, t, path, items[|head|..], p);
      assert items == head + items[|head|..];
    } else {
      var below := ChildrenPreorder(e, t.kids, 0, depth + 1, maxDepth, path);
      assert items == head + below + [];
      down := ListedRight(e, t.kids, 0, depth + 1, maxDepth, path, p - |head|);
      RightWithin(e, t.kids[down[0]], path + [down[0]], head, below, [], p - |head|, down[1..]);
      RightAbove(e, t, down[0], path, items, p, down[1..]);
      assert [down[0]] + down[1..] == down;
    }
  }

  lemma {:induction false} ListedRight(e: Env, kids: seq<Tree>, i: nat, depth: nat, maxDepth: Option<nat>,
                                       path: seq<nat>, p: nat)
    returns (down: seq<nat>)
    requires Trusted(e) && depth > 0 && p < |ChildrenPreorder(e, kids, i, depth, maxDepth, path)|
    ensures down != [] && i <= down[0] < i + |kids| && (maxDepth.Some? ==> depth - 1 + |down| <= maxDepth.value)
    ensures Right(e, kids[down[0] - i], path + [down[0]], ChildrenPreorder(e, kids, i, depth, maxDepth, path), p, down[1..])
    decreases kids, 0
  {
    hide Trusted, Preorder, Right;
    var first := Preorder(e, kids[0], depth, maxDepth, path + [i]);
    var rest := ChildrenPreorder(e, kids[1..], i + 1, depth, maxDepth, path);
    if p < |first| {
      var d := EveryItemRight(e, kids[0], depth, maxDepth, path + [i], p);
      down := [i] + d;
      RightWithin(e, kids[0], path + [i], [], first, rest, p, d);
      assert [] + first + rest == first + rest && down[1..] == d;
    } else {
      down := ListedRight(e, kids[1..], i + 1, depth, maxDepth, path, p - |first|);
      RightWithin(e, kids[1..][down[0] - i - 1], path + [down[0]], first, rest, [], p - |first|, down[1..]);
      assert first + rest + [] == first + rest;
    }
  }

  /** And every subtree within the depth has its node item, under the path to it. */
  lemma EveryNodeListed(e: Env, t: Tree, depth: nat, maxDepth: Option<nat>, path: seq<nat>, down: seq<nat>)
    returns (p: nat)
    requires Trusted(e) && Follow(t, down).Some? && (maxDepth.Some? ==> depth + |down| <= maxDepth.value)
    ensures p < |Preorder(e, t, depth, maxDepth, path)|
    ensures var x := Preorder(e, t, depth, maxDepth, path)[p];
            x.NodeItem? && x.pathIndices == path + down && x.hash == HashOf(e, Follow(t, down).value)
  {
    hide Trusted, Preorder, Follow, HashOf;
    NodesAreListed(e, t, depth, maxDepth, path, down);
    var x := NodeItemOf(e, Follow(t, down).value, path + down);
    p :| 0 <= p < |Preorder(e, t, depth, maxDepth, path)| && Preorder(e, t, depth, maxDepth, path)[p] == x;
  }

  // ----- the listing of a tree

  /** The listing of a whole tree, from its root on, down to the given depth: every item
      is right, every subtree up to that depth is there, and without a limit the leaf
      entries show the items. */
  lemma ListingRight(e: Env, t: Tree, maxDepth: Option<nat>, p: nat) returns (down: seq<nat>)
    requires Trusted(e) && p < |Listing(e, Some(t), maxDepth)|
    ensures maxDepth.Some? ==> |down| <= maxDepth.value
    ensures Right(e, t, [], Listing(e, Some(t), maxDepth), p, down)
  {
    hide Right, Preorder;
    down := EveryItemRight(e, t, 0, maxDepth, [], p);
  }

  lemma ListingComplete(e: Env, t: Tree, maxDepth: Option<nat>, down: seq<nat>) returns (p: nat)
    requires Trusted(e) && Follow(t, down).Some? && (maxDepth.Some? ==> |down| <= maxDepth.value)
    ensures p < |Listing(e, Some(t), maxDepth)|
    ensures var x := Listing(e, Some(t), maxDepth)[p];
            x.NodeItem? && x.pathIndices == down && x.hash == HashOf(e, Follow(t, down).value)
    ensures ShownIn(Listing(e, Some(t), None)) == ShownOf(e, ItemsOf(t)) && Listing(e, None, maxDepth) == []
  {
    hide Preorder, Follow, HashOf, ItemsOf, ShownIn;
    p := EveryNodeListed(e, t, 0, maxDepth, [], down);
    assert [] + down == down;
    ListsAllItems(e, t, 0, []);
  }

  // ----- a page of a listing

  /** A page is what lies between the offset and the limit, and announces another one
      exactly when something is left. */
  lemma SliceIs(all: seq<HierarchyItem>, args: HierarchyScanArgs)
    ensures var page := SliceOf(all, args);
            var offset := if args.offset.Some? then args.offset.value else 0;
            var from := if offset <= |all| then offset else |all|;
            var to := if args.limit.Some? && from + args.limit.value < |all| then from + args.limit.value else |all|;
            page.items == all[from..to] && (page.hasNextPage <==> to < |all|)
  {
  }
}
