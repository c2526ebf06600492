/** Repairing an underfull child on the chunk store: borrow or merge. */
module Modification {
  import opened Keys
  import opened Items
  import opened Nodes
  import opened Values
  import opened Trees
  import opened Insertion
  import opened Deletion
  import opened Sharing
  import opened Store
  import opened CoreLogic

  /** A child's chunk is there and decodes to the child's node. */
  lemma KidLoads(e: Env, data: Chunks, kids: seq<Tree>, j: nat)
    requires Trusted(e) && Consistent(e, data) && AllHeld(e, data.Keys, kids) && j < |kids|
    ensures var h := Entries(e, kids)[j].childHash;
            && h in data && e.decode(data[h]) == Some(NodeOf(e, kids[j]))
            && NodeOf(e, kids[j]).NumEntries() == Size(kids[j])
    ensures BelowHeld(e, data.Keys, kids[j])
  {
    hide Trusted, AllItems, BelowHeld, Consistent;
    assert Held(e, data.Keys, kids[j]);
    HeldBelow(e, data.Keys, kids[j]);
    LoadsNode(e, data, kids[j]);
    assert Entries(e, kids)[j] == EntryOf(e, kids[j]);
  }

  method CountEntries(node: Node) returns (count: nat)
    ensures count == match node case LeafNode(_, entries) => |entries| case InternalNode(_, children) => SumOf(children)
  {
    match node {
      case LeafNode(_, entries) => count := |entries|;
      case InternalNode(_, children) => count := SumItems(children);
    }
  }

  lemma CountOfNode(e: Env, t: Tree)
    requires Trusted(e)
    ensures Count(t) == match NodeOf(e, t)
                        case LeafNode(_, entries) => |entries|
                        case InternalNode(_, children) => SumOf(children)
  {
    hide Trusted, AllItems, HashOf, SumOf;
    if t.Branch? { SumIsCount(e, t.kids); }
  }

  /** What the node pair of two siblings becomes when an entry moves right, and
      that its parts stay in the store. */
  lemma ShiftRightNodes(e: Env, keys: set<Hash>, l: Tree, u: Tree)
    requires Trusted(e) && BelowHeld(e, keys, l) && BelowHeld(e, keys, u)
    requires l.Leaf? == u.Leaf? && Size(l) > 0
    ensures var p := ShiftRight(l, u);
            && p.Some? && BelowHeld(e, keys, p.value.0) && BelowHeld(e, keys, p.value.1)
            && ShiftNodesRight(NodeOf(e, l), NodeOf(e, u)) == Some((NodeOf(e, p.value.0), NodeOf(e, p.value.1)))
  {
    hide Trusted, AllItems, HashOf, ReprOf, ValueHeld, EntryOf, Held, MaxKey, Count;
    if l.Leaf? {
      var n := |l.items| - 1;
      LeafHeld(e, keys, l);
      LeafHeld(e, keys, u);
      LeafSlices(e, keys, l.items, n);
      assert l.items[n..] == [l.items[n]];
      assert LeafEntries(e, [l.items[n]]) == [LeafEntries(e, l.items)[n]];
      LeafJoin(e, keys, [l.items[n]], u.items);
    } else {
      var n := |l.kids| - 1;
      KidsHeld(e, keys, l);
      KidsHeld(e, keys, u);
      BranchSlices(e, keys, l.kids, n);
      assert l.kids[n..] == [l.kids[n]];
      assert Entries(e, [l.kids[n]]) == [Entries(e, l.kids)[n]];
      BranchJoin(e, keys, [l.kids[n]], u.kids);
    }
  }

  lemma ShiftLeftNodes(e: Env, keys: set<Hash>, u: Tree, r: Tree)
    requires Trusted(e) && BelowHeld(e, keys, u) && BelowHeld(e, keys, r)
    requires u.Leaf? == r.Leaf? && Size(r) > 0
    ensures var p := ShiftLeft(u, r);
            && p.Some? && BelowHeld(e, keys, p.value.0) && BelowHeld(e, keys, p.value.1)
            && ShiftNodesLeft(NodeOf(e, u), NodeOf(e, r)) == Some((NodeOf(e, p.value.0), NodeOf(e, p.value.1)))
  {
    hide Trusted, AllItems, HashOf, ReprOf, ValueHeld, EntryOf, Held, MaxKey, Count;
    if r.Leaf? {
      LeafHeld(e, keys, u);
      LeafHeld(e, keys, r);
      LeafSlices(e, keys, r.items, 1);
      assert r.items[..1] == [r.items[0]];
      assert LeafEntries(e, [r.items[0]]) == [LeafEntries(e, r.items)[0]];
      LeafJoin(e, keys, u.items, [r.items[0]]);
    } else {
      KidsHeld(e, keys, u);
      KidsHeld(e, keys, r);
      BranchSlices(e, keys, r.kids, 1);
      assert r.kids[..1] == [r.kids[0]];
      assert Entries(e, [r.kids[0]]) == [Entries(e, r.kids)[0]];
      BranchJoin(e, keys, u.kids, [r.kids[0]]);
    }
  }

  lemma JoinNodes(e: Env, keys: set<Hash>, l: Tree, r: Tree)
    requires Trusted(e) && BelowHeld(e, keys, l) && BelowHeld(e, keys, r) && l.Leaf? == r.Leaf?
    ensures var j := Join(l, r);
            && j.Some? && BelowHeld(e, keys, j.value)
            && AppendNode(NodeOf(e, l), NodeOf(e, r)) == Some(NodeOf(e, j.value))
  {
    hide Trusted, AllItems, HashOf, ReprOf, ValueHeld, EntryOf, Held, MaxKey, Count;
    if l.Leaf? {
      LeafHeld(e, keys, l);
      LeafHeld(e, keys, r);
      LeafJoin(e, keys, l.items, r.items);
    } else {
      KidsHeld(e, keys, l);
      KidsHeld(e, keys, r);
      BranchJoin(e, keys, l.kids, r.kids);
    }
  }

  lemma LeafJoin(e: Env, keys: set<Hash>, a: seq<Item>, b: seq<Item>)
    requires Trusted(e)
    ensures LeafEntries(e, a + b) == LeafEntries(e, a) + LeafEntries(e, b)
    ensures ItemsHeld(e, keys, a) && ItemsHeld(e, keys, b) ==> ItemsHeld(e, keys, a + b)
  {
    hide Trusted, ReprOf, ValueHeld;
  }

  lemma BranchJoin(e: Env, keys: set<Hash>, a: seq<Tree>, b: seq<Tree>)
    requires Trusted(e) && AllHeld(e, keys, a) && AllHeld(e, keys, b)
    ensures Entries(e, a + b) == Entries(e, a) + Entries(e, b)
    ensures AllHeld(e, keys, a + b)
  {
    hide Trusted, Held, EntryOf;
  }

  // ----- the vector operations of the source

  /** `left.pop()` followed by `underflow.insert(0, _)`. */
  function ShiftNodesRight(left: Node, underflow: Node): Option<(Node, Node)> {
    match (left, underflow)
    case (LeafNode(ll, ls), LeafNode(ul, us)) =>
      if ls == [] then None else Some((LeafNode(ll, ls[..|ls| - 1]), LeafNode(ul, [ls[|ls| - 1]] + us)))
    case (InternalNode(ll, ls), InternalNode(ul, us)) =>
      if ls == [] then None else Some((InternalNode(ll, ls[..|ls| - 1]), InternalNode(ul, [ls[|ls| - 1]] + us)))
    case _ => None
  }

  /** `right.remove(0)` followed by `underflow.push(_)`. */
  function ShiftNodesLeft(underflow: Node, right: Node): Option<(Node, Node)> {
    match (underflow, right)
    case (LeafNode(ul, us), LeafNode(rl, rs)) =>
      if rs == [] then None else Some((LeafNode(ul, us + [rs[0]]), LeafNode(rl, rs[1..])))
    case (InternalNode(ul, us), InternalNode(rl, rs)) =>
      if rs == [] then None else Some((InternalNode(ul, us + [rs[0]]), InternalNode(rl, rs[1..])))
    case _ => None
  }

  /** `left.append(&mut right)`. */
  function AppendNode(left: Node, right: Node): Option<Node> {
    match (left, right)
    case (LeafNode(ll, ls), LeafNode(_, rs)) => Some(LeafNode(ll, ls + rs))
    case (InternalNode(ll, ls), InternalNode(_, rs)) => Some(InternalNode(ll, ls + rs))
    case _ => None
  }

  // ----- what a repair stores

  /** In a store that has all children, replacing one by another tree whose parts are
      there brings at most that tree's root. */
  lemma OneReplacedNodes(e: Env, keys: set<Hash>, a: seq<Tree>, u: Tree, c: seq<Tree>)
    requires Trusted(e) && AllNodeHashes(e, a) <= keys && AllNodeHashes(e, c) <= keys && BelowHeld(e, keys, u)
    ensures keys + {HashOf(e, u)} == keys + AllNodeHashes(e, a + [u] + c)
  {
    hide Trusted, HashOf, AllNodeHashes, BelowHeld;
    BelowNodesHeld(e, keys, u);
    AllNodeHashesAppend(e, a + [u], c);
    AllNodeHashesAppend(e, a, [u]);
    AllNodeHashesOne(e, u);
    assert HashOf(e, u) in NodeHashes(e, u);
  }

  lemma PairNodes(e: Env, keys: set<Hash>, kids: seq<Tree>, i: nat, l: Tree, r: Tree)
    requires Trusted(e) && i + 1 < |kids| && AllHeld(e, keys, kids) && BelowHeld(e, keys, l) && BelowHeld(e, keys, r)
    ensures keys + {HashOf(e, l)} + {HashOf(e, r)} == keys + AllNodeHashes(e, Splice(kids, i, [l, r]))
  {
    hide Trusted, HashOf, AllNodeHashes, BelowHeld, AllHeld;
    SidesHeld(e, keys, kids, i);
    BelowNodesHeld(e, keys, l);
    BelowNodesHeld(e, keys, r);
    AllNodeHashesAppend(e, kids[..i] + [l, r], kids[i + 2..]);
    AllNodeHashesAppend(e, kids[..i], [l, r]);
    AllNodeHashesTwo(e, l, r);
    assert HashOf(e, l) in NodeHashes(e, l) && HashOf(e, r) in NodeHashes(e, r);
  }

  lemma JoinNodesStored(e: Env, keys: set<Hash>, kids: seq<Tree>, i: nat, u: Tree)
    requires Trusted(e) && i + 1 < |kids| && AllHeld(e, keys, kids) && BelowHeld(e, keys, u)
    ensures keys + {HashOf(e, u)} == keys + AllNodeHashes(e, Splice(kids, i, [u]))
  {
    hide Trusted, HashOf, AllNodeHashes, BelowHeld, AllHeld;
    SidesHeld(e, keys, kids, i);
    OneReplacedNodes(e, keys, kids[..i], u, kids[i + 2..]);
  }

  lemma SidesHeld(e: Env, keys: set<Hash>, kids: seq<Tree>, i: nat)
    requires Trusted(e) && i + 1 < |kids| && AllHeld(e, keys, kids)
    ensures AllNodeHashes(e, kids[..i]) <= keys && AllNodeHashes(e, kids[i + 2..]) <= keys
  {
    hide Trusted, AllNodeHashes, AllHeld;
    AllNodesHeld(e, keys, kids);
    assert kids == kids[..i] + [kids[i], kids[i + 1]] + kids[i + 2..];
    AllNodeHashesAppend(e, kids[..i] + [kids[i], kids[i + 1]], kids[i + 2..]);
    AllNodeHashesAppend(e, kids[..i], [kids[i], kids[i + 1]]);
  }

  // ----- repairing the parent's children

  /** The children a pair operation needs: both in the store, in shape apart from
      their occupancy, on one level. */
  ghost predicate PairReady(e: Env, data: Chunks, kids: seq<Tree>, i: nat, level: nat)
    requires Trusted(e)
  {
    && Consistent(e, data) && AllHeld(e, data.Keys, kids) && i + 1 < |kids|
    && Loose(e.config, kids[i], level) && Loose(e.config, kids[i + 1], level)
  }

  /** Stores the two nodes of a rearranged pair and rewrites the parent's entries. */
  method StorePair(store: InMemoryStore, parent: seq<InternalEntry>, i: nat, left: Node, right: Node,
                   ghost kids: seq<Tree>, ghost l: Tree, ghost r: Tree, ghost level: nat)
    returns (res: Result<seq<InternalEntry>>)
    requires Trusted(store.e) && PairReady(store.e, store.data, kids, i, level)
    requires parent == Entries(store.e, kids) && left == NodeOf(store.e, l) && right == NodeOf(store.e, r)
    requires Loose(store.e.config, l, level) && Loose(store.e.config, r, level) && Size(l) > 0 && Size(r) > 0
    requires BelowHeld(store.e, store.data.Keys, l) && BelowHeld(store.e, store.data.Keys, r)
    modifies store
    ensures res == Ok(Entries(store.e, Splice(kids, i, [l, r])))
    ensures store.data.Keys == old(store.data.Keys) + AllNodeHashes(store.e, Splice(kids, i, [l, r]))
    ensures Grew(store.e, old(store.data), store.data, 2)
    ensures AllHeld(store.e, store.data.Keys, Splice(kids, i, [l, r]))
  {
    hide Trusted, Grew, Held, AllHeld, HashOf, Body, AllItems, MaxKey, Consistent, BelowHeld, SumOf, Splice, NodeOf,
      AllNodeHashes;
    ghost var e, d0 := store.e, store.data;
    PairNodes(e, d0.Keys, kids, i, l, r);
    var leftCount := CountEntries(left);
    var rightCount := CountEntries(right);
    CountOfNode(e, l);
    CountOfNode(e, r);
    var storedLeft := StoreNodeOf(store, left, l);
    match storedLeft { case Err(error) => return Err(error); case Ok(_) => }
    ghost var d1 := store.data;
    GrewKeys(e, d0, d1, 1);
    BelowHeldGrows(e, d0.Keys, d1.Keys, r);
    var storedRight := StoreNodeOf(store, right, r);
    match storedRight { case Err(error) => return Err(error); case Ok(_) => }
    GrewTwice(e, d0, 1, d1, 1, store.data);
    GrewKeys(e, d1, store.data, 1);
    HeldGrows(e, d1.Keys, store.data.Keys, l);
    AllHeldGrows(e, d0.Keys, store.data.Keys, kids);
    PairReplaced(e, store.data.Keys, kids, i, l, r);
    return Ok(parent[i := InternalEntry(storedLeft.value.0, storedLeft.value.1, leftCount)]
                    [i + 1 := InternalEntry(storedRight.value.0, storedRight.value.1, rightCount)]);
  }

  lemma PairReplaced(e: Env, keys: set<Hash>, kids: seq<Tree>, i: nat, l: Tree, r: Tree)
    requires Trusted(e) && i + 1 < |kids| && AllHeld(e, keys, kids) && Held(e, keys, l) && Held(e, keys, r)
    ensures Entries(e, kids)[i := EntryOf(e, l)][i + 1 := EntryOf(e, r)] == Entries(e, Splice(kids, i, [l, r]))
    ensures AllHeld(e, keys, Splice(kids, i, [l, r]))
  {
    hide Trusted, Held, EntryOf;
    var c := Splice(kids, i, [l, r]);
    assert c == kids[i := l][i + 1 := r];
    forall j | 0 <= j < |c|
      ensures Held(e, keys, c[j])
    {
      assert c[j] == if j == i then l else if j == i + 1 then r else kids[j];
    }
  }

  lemma JoinReplaced(e: Env, keys: set<Hash>, kids: seq<Tree>, i: nat, t: Tree)
    requires Trusted(e) && i + 1 < |kids| && AllHeld(e, keys, kids) && Held(e, keys, t)
    ensures var es := Entries(e, kids)[i := EntryOf(e, t)]; es[..i + 1] + es[i + 2..] == Entries(e, Splice(kids, i, [t]))
    ensures AllHeld(e, keys, Splice(kids, i, [t]))
  {
    hide Trusted, Held, EntryOf, Splice;
    JoinAt(kids, i, t);
    JoinHeld(e, keys, kids, i, t);
  }

  lemma JoinHeld(e: Env, keys: set<Hash>, kids: seq<Tree>, i: nat, t: Tree)
    requires Trusted(e) && i + 1 < |kids| && AllHeld(e, keys, kids) && Held(e, keys, t)
    ensures AllHeld(e, keys, Splice(kids, i, [t]))
  {
    hide Trusted, Held, Splice;
    JoinAt(kids, i, t);
  }

  lemma JoinAt(kids: seq<Tree>, i: nat, t: Tree)
    requires i + 1 < |kids|
    ensures var c := Splice(kids, i, [t]);
            && |c| == |kids| - 1
            && forall j :: 0 <= j < |c| ==> c[j] == if j == i then t else kids[if j < i then j else j + 1]
  {
  }

  method BorrowFromLeft(store: InMemoryStore, parent: seq<InternalEntry>, leftIdx: nat,
                        ghost kids: seq<Tree>, ghost level: nat)
    returns (res: Result<seq<InternalEntry>>)
    requires Trusted(store.e) && PairReady(store.e, store.data, kids, leftIdx, level)
    requires parent == Entries(store.e, kids)
    requires Size(kids[leftIdx]) > 1
    modifies store
    ensures var after := Borrowed(kids, leftIdx, ShiftRight(kids[leftIdx], kids[leftIdx + 1]));
            && after.Some? && res == Ok(Entries(store.e, after.value))
            && AllHeld(store.e, store.data.Keys, after.value)
            && store.data.Keys == old(store.data.Keys) + AllNodeHashes(store.e, after.value)
    ensures Grew(store.e, old(store.data), store.data, 2)
  {
    hide Trusted, Grew, Held, AllHeld, HashOf, Body, AllItems, MaxKey, Consistent, BelowHeld, NodeOf, ShiftRight,
      ShiftNodesRight, Splice, Entries, ItemsOf, AllNodeHashes;
    ghost var e, d0 := store.e, store.data;
    KidLoads(e, d0, kids, leftIdx);
    KidLoads(e, d0, kids, leftIdx + 1);
    PairKinds(e, kids, leftIdx, level);
    ShiftRightOk(e.config, kids[leftIdx], kids[leftIdx + 1], level);
    ShiftRightNodes(e, d0.Keys, kids[leftIdx], kids[leftIdx + 1]);
    var left := LoadNode(store, parent[leftIdx].childHash);
    match left { case Err(error) => return Err(error); case Ok(_) => }
    var underflow := LoadNode(store, parent[leftIdx + 1].childHash);
    match underflow { case Err(error) => return Err(error); case Ok(_) => }
    var moved := ShiftNodesRight(left.value, underflow.value);
    match moved { case None => return Err(InternalError); case Some(_) => }
    ghost var p := ShiftRight(kids[leftIdx], kids[leftIdx + 1]).value;
    res := StorePair(store, parent, leftIdx, moved.value.0, moved.value.1, kids, p.0, p.1, level);
  }

  lemma PairKinds(e: Env, kids: seq<Tree>, i: nat, level: nat)
    requires i + 1 < |kids| && Loose(e.config, kids[i], level) && Loose(e.config, kids[i + 1], level)
    ensures kids[i].Leaf? == kids[i + 1].Leaf?
  {
    KindOfLevel(e.config, kids[i]);
    KindOfLevel(e.config, kids[i + 1]);
  }

  method BorrowFromRight(store: InMemoryStore, parent: seq<InternalEntry>, underflowIdx: nat,
                         ghost kids: seq<Tree>, ghost level: nat)
    returns (res: Result<seq<InternalEntry>>)
    requires Trusted(store.e) && PairReady(store.e, store.data, kids, underflowIdx, level)
    requires parent == Entries(store.e, kids)
    requires Size(kids[underflowIdx + 1]) > 1
    modifies store
    ensures var after := Borrowed(kids, underflowIdx, ShiftLeft(kids[underflowIdx], kids[underflowIdx + 1]));
            && after.Some? && res == Ok(Entries(store.e, after.value))
            && AllHeld(store.e, store.data.Keys, after.value)
            && store.data.Keys == old(store.data.Keys) + AllNodeHashes(store.e, after.value)
    ensures Grew(store.e, old(store.data), store.data, 2)
  {
    hide Trusted, Grew, Held, AllHeld, HashOf, Body, AllItems, MaxKey, Consistent, BelowHeld, NodeOf, ShiftLeft,
      ShiftNodesLeft, Splice, Entries, ItemsOf, AllNodeHashes;
    ghost var e, d0 := store.e, store.data;
    KidLoads(e, d0, kids, underflowIdx);
    KidLoads(e, d0, kids, underflowIdx + 1);
    PairKinds(e, kids, underflowIdx, level);
    ShiftLeftOk(e.config, kids[underflowIdx], kids[underflowIdx + 1], level);
    ShiftLeftNodes(e, d0.Keys, kids[underflowIdx], kids[underflowIdx + 1]);
    var underflow := LoadNode(store, parent[underflowIdx].childHash);
    match underflow { case Err(error) => return Err(error); case Ok(_) => }
    var right := LoadNode(store, parent[underflowIdx + 1].childHash);
    match right { case Err(error) => return Err(error); case Ok(_) => }
    var moved := ShiftNodesLeft(underflow.value, right.value);
    match moved { case None => return Err(InternalError); case Some(_) => }
    ghost var p := ShiftLeft(kids[underflowIdx], kids[underflowIdx + 1]).value;
    res := StorePair(store, parent, underflowIdx, moved.value.0, moved.value.1, kids, p.0, p.1, level);
  }

  /** Merges the right node of a pair into the left one and drops its entry. */
  method MergeIntoLeft(store: InMemoryStore, parent: seq<InternalEntry>, leftIdx: nat,
                       ghost kids: seq<Tree>, ghost level: nat)
    returns (res: Result<seq<InternalEntry>>)
    requires Trusted(store.e) && PairReady(store.e, store.data, kids, leftIdx, level)
    requires parent == Entries(store.e, kids)
    requires Size(kids[leftIdx]) + Size(kids[leftIdx + 1]) > 0
    modifies store
    ensures var after := MergedAt(kids, leftIdx);
            && after.Some? && res == Ok(Entries(store.e, after.value))
            && AllHeld(store.e, store.data.Keys, after.value)
            && store.data.Keys == old(store.data.Keys) + AllNodeHashes(store.e, after.value)
    ensures Grew(store.e, old(store.data), store.data, 2)
  {
    hide Trusted, Grew, Held, AllHeld, HashOf, Body, AllItems, MaxKey, Consistent, BelowHeld, NodeOf, Join, AppendNode,
      Splice, ItemsOf, AllNodeHashes;
    ghost var e, d0 := store.e, store.data;
    KidLoads(e, d0, kids, leftIdx);
    KidLoads(e, d0, kids, leftIdx + 1);
    PairKinds(e, kids, leftIdx, level);
    JoinOk(e.config, kids[leftIdx], kids[leftIdx + 1], level);
    JoinNodes(e, d0.Keys, kids[leftIdx], kids[leftIdx + 1]);
    ghost var j := Join(kids[leftIdx], kids[leftIdx + 1]).value;
    var total := parent[leftIdx].numItemsSubtree + parent[leftIdx + 1].numItemsSubtree;
    var left := LoadNode(store, parent[leftIdx].childHash);
    match left { case Err(error) => return Err(error); case Ok(_) => }
    var right := LoadNode(store, parent[leftIdx + 1].childHash);
    match right { case Err(error) => return Err(error); case Ok(_) => }
    var merged := AppendNode(left.value, right.value);
    match merged { case None => return Err(InternalError); case Some(_) => }
    JoinNodesStored(e, d0.Keys, kids, leftIdx, j);
    var stored := StoreNodeOf(store, merged.value, j);
    match stored { case Err(error) => return Err(error); case Ok(_) => }
    GrewLess(e, d0, store.data, 1, 2);
    GrewKeys(e, d0, store.data, 1);
    AllHeldGrows(e, d0.Keys, store.data.Keys, kids);
    JoinReplaced(e, store.data.Keys, kids, leftIdx, j);
    var children := parent[leftIdx := InternalEntry(stored.value.0, stored.value.1, total)];
    return Ok(children[..leftIdx + 1] + children[leftIdx + 2..]);
  }

  /** The strategy for an underfull child: borrow from the left, else from the
      right, else merge; an only child is an internal error. */
  method HandleUnderflow(store: InMemoryStore, children: seq<InternalEntry>, i: nat,
                         ghost kids: seq<Tree>, ghost level: nat)
    returns (res: Result<seq<InternalEntry>>)
    requires Trusted(store.e) && Consistent(store.e, store.data) && AllHeld(store.e, store.data.Keys, kids)
    requires AlmostInner(store.e.config, kids, level, i) && Size(kids[i]) > 0 && children == Entries(store.e, kids)
    modifies store
    ensures |kids| == 1 ==> res == Err(InternalError) && store.data == old(store.data)
    ensures |kids| > 1 ==>
              var after := Rebalance(store.e.config, kids, i);
              && after.Some? && res == Ok(Entries(store.e, after.value))
              && AllHeld(store.e, store.data.Keys, after.value)
              && store.data.Keys == old(store.data.Keys) + AllNodeHashes(store.e, after.value)
    ensures |kids| > 1 ==> Grew(store.e, old(store.data), store.data, 2)
  {
    hide Trusted, Grew, Held, AllHeld, HashOf, Body, AllItems, MaxKey, Consistent, Entries, Borrowed, MergedAt, NodeOf,
      Inner, ItemsOf, AllNodeHashes;
    ghost var e := store.e;
    ConfigIsValid(e);
    Neighbours(e.config, kids, level, i);
    if i > 0 {
      InnerBody(e.config, kids[i - 1]);
      KidLoads(e, store.data, kids, i - 1);
      var leftSibling := LoadNode(store, children[i - 1].childHash);
      match leftSibling { case Err(error) => return Err(error); case Ok(_) => }
      if leftSibling.value.NumEntries() > store.e.config.minFanout {
        res := BorrowFromLeft(store, children, i - 1, kids, level);
        return;
      }
    }
    if i + 1 < |children| {
      InnerBody(e.config, kids[i + 1]);
      KidLoads(e, store.data, kids, i + 1);
      var rightSibling := LoadNode(store, children[i + 1].childHash);
      match rightSibling { case Err(error) => return Err(error); case Ok(_) => }
      if rightSibling.value.NumEntries() > store.e.config.minFanout {
        res := BorrowFromRight(store, children, i, kids, level);
        return;
      }
    }
    if i > 0 {
      res := MergeIntoLeft(store, children, i - 1, kids, level);
    } else if |children| <= 1 {
      res := Err(InternalError);
    } else {
      res := MergeIntoLeft(store, children, i, kids, level);
    }
  }

  // ----- deletion

  datatype DeleteRecursionResult =
    | NotFound(nodeHash: Hash, boundaryKey: Key)
    | Updated(update: ProcessedNodeUpdate)
    | Merged

  /** The result that reports a shrunk tree faithfully. */
  ghost function ReportOf(e: Env, t: Tree, s: Shrunk): DeleteRecursionResult
    requires Trusted(e) && !s.Failed?
  {
    match s
    case NotFound => DeleteRecursionResult.NotFound(HashOf(e, t), MaxKey(t))
    case Updated(u) => DeleteRecursionResult.Updated(UpdateOf(e, Grown(u, None)))
    case Merged => DeleteRecursionResult.Merged
  }

  /** What the store holds after a deletion that reports `s`. */
  ghost predicate DeleteStored(e: Env, d0: Chunks, d1: Chunks, s: Shrunk, level: nat)
    requires Trusted(e)
  {
    && Grew(e, d0, d1, 3 * level + 1)
    && (s.NotFound? ==> d1 == d0)
    && (s.Updated? ==> Held(e, d1.Keys, s.tree))
  }

  // ----- what a deletion stores

  /** The nodes of the shrunk tree. */
  ghost function ShrunkNodes(e: Env, s: Shrunk): set<Hash>
    requires Trusted(e)
  {
    if s.Updated? then NodeHashes(e, s.tree) else {}
  }

  /** The roots of the underfull children on the path: they are stored before they are
      repaired, and are not part of the new tree. */
  ghost function ScrapHashes(e: Env, t: Tree, k: Key): set<Hash>
    requires Trusted(e)
    decreases t
  {
    if t.Leaf? || t.kids == [] then {} else
    var kid := t.kids[Route(t.kids, k)];
    match Delete(e.config, kid, k)
    case Updated(w) => ScrapHashes(e, kid, k) + if Size(w) < e.config.minFanout then {HashOf(e, w)} else {}
    case Merged => ScrapHashes(e, kid, k)
    case _ => {}
  }

  /** A deletion adds exactly the nodes of the shrunk tree and those scraps. */
  ghost predicate DeleteAdds(e: Env, d0: Chunks, d1: Chunks, t: Tree, k: Key)
    requires Trusted(e)
  {
    d1.Keys == d0.Keys + ShrunkNodes(e, Delete(e.config, t, k)) + ScrapHashes(e, t, k)
  }

  /** Rebalancing passes on everything below the repaired child. */
  lemma RepairKeepsNodes(e: Env, kids: seq<Tree>, i: nat)
    requires Trusted(e) && i < |kids| && Size(kids[i]) < e.config.minFanout && Rebalance(e.config, kids, i).Some?
    ensures AllNodeHashes(e, Kids(kids[i])) <= AllNodeHashes(e, Rebalance(e.config, kids, i).value)
  {
    hide Trusted, HashOf, AllNodeHashes, Rebalance, Among, BesidePath, Partner;
    forall h | h in AllNodeHashes(e, Kids(kids[i]))
      ensures h in AllNodeHashes(e, Rebalance(e.config, kids, i).value)
    {
      var u := StoredIsAmong(e, Kids(kids[i]), h);
      RebalanceKeeps(e.config, kids, i, u);
      AmongIsStored(e, Rebalance(e.config, kids, i).value, u);
    }
  }

  lemma NodesOfTop(e: Env, t: Tree)
    requires Trusted(e)
    ensures NodeHashes(e, t) == {HashOf(e, t)} + AllNodeHashes(e, Kids(t))
  {
    hide Trusted, HashOf;
  }

  /** An updated child: repaired or not, then the branch above it is stored. */
  lemma UpdatedAdds(e: Env, d0: Chunks, t: Tree, k: Key, keys1: set<Hash>, keys2: set<Hash>, keys3: set<Hash>, kids: seq<Tree>)
    requires Trusted(e) && Held(e, d0.Keys, t) && t.Branch? && t.kids != []
    requires Delete(e.config, t.kids[Route(t.kids, k)], k).Updated?
    requires var i := Route(t.kids, k);
             var u := Delete(e.config, t.kids[i], k).tree;
             && keys1 == d0.Keys + NodeHashes(e, u) + ScrapHashes(e, t.kids[i], k)
             && (if Size(u) < e.config.minFanout
                 then Rebalance(e.config, t.kids[i := u], i) == Some(kids) && keys2 == keys1 + AllNodeHashes(e, kids)
                 else kids == t.kids[i := u] && keys2 == keys1)
    requires keys3 == keys2 + {HashOf(e, Branch(t.level, kids))}
    ensures keys3 == d0.Keys + NodeHashes(e, Branch(t.level, kids)) + ScrapHashes(e, t, k)
  {
    hide Trusted, HashOf, AllNodeHashes, NodeHashes, Route, Delete, Rebalance, Held;
    var i := Route(t.kids, k);
    var u := Delete(e.config, t.kids[i], k).tree;
    NodesOfTop(e, Branch(t.level, kids));
    NodesOfTop(e, u);
    if Size(u) < e.config.minFanout {
      RepairKeepsNodes(e, t.kids[i := u], i);
    } else {
      ReplacedNodes(e, d0.Keys, t, i, u);
    }
  }

  lemma ReplacedNodes(e: Env, keys: set<Hash>, t: Tree, i: nat, u: Tree)
    requires Trusted(e) && Held(e, keys, t) && t.Branch? && i < |t.kids|
    ensures keys + NodeHashes(e, u) == keys + AllNodeHashes(e, t.kids[i := u])
    ensures AllNodeHashes(e, t.kids[..i] + t.kids[i + 1..]) <= keys
  {
    hide Trusted, HashOf, AllNodeHashes, NodeHashes, AllHeld;
    HeldBelow(e, keys, t);
    KidsHeld(e, keys, t);
    AllNodesHeld(e, keys, t.kids);
    var a, c := t.kids[..i], t.kids[i + 1..];
    assert t.kids == a + [t.kids[i]] + c && t.kids[i := u] == a + [u] + c;
    AllNodeHashesAppend(e, a + [t.kids[i]], c);
    AllNodeHashesAppend(e, a, [t.kids[i]]);
    AllNodeHashesAppend(e, a + [u], c);
    AllNodeHashesAppend(e, a, [u]);
    AllNodeHashesAppend(e, a, c);
    AllNodeHashesOne(e, u);
  }

  /** A child that is gone: the branch above is stored, if it is not gone too. */
  lemma MergedAdds(e: Env, d0: Chunks, t: Tree, k: Key, keys1: set<Hash>, keys3: set<Hash>)
    requires Trusted(e) && Held(e, d0.Keys, t) && t.Branch? && t.kids != [] && t.level > 0
    requires Delete(e.config, t.kids[Route(t.kids, k)], k).Merged?
    requires keys1 == d0.Keys + ScrapHashes(e, t.kids[Route(t.kids, k)], k)
    requires var i := Route(t.kids, k);
             var kids := t.kids[..i] + t.kids[i + 1..];
             keys3 == keys1 + if kids == [] then {} else {HashOf(e, Branch(t.level, kids))}
    ensures keys3 == d0.Keys + ShrunkNodes(e, Delete(e.config, t, k)) + ScrapHashes(e, t, k)
  {
    hide Trusted, HashOf, AllNodeHashes, NodeHashes, Route, Held;
    var i := Route(t.kids, k);
    ReplacedNodes(e, d0.Keys, t, i, t.kids[i]);
    NodesOfTop(e, Branch(t.level, t.kids[..i] + t.kids[i + 1..]));
  }

  lemma WithoutHeld(e: Env, keys: set<Hash>, items: seq<Item>, k: Key)
    requires Trusted(e) && ItemsHeld(e, keys, items)
    ensures BelowHeld(e, keys, Leaf(Without(items, k)))
    ensures LeafEntries(e, Without(items, k)) == (var es, p := LeafEntries(e, items), LowerBound(KeysOf(items), k);
              if p < |items| && items[p].key == k then es[..p] + es[p + 1..] else es)
  {
    hide Trusted, ValueHeld, LowerBound, ReprOf;
    var w := Without(items, k);
    forall i | 0 <= i < |w|
      ensures ValueHeld(e, keys, w[i].value)
    {
      assert w[i] in items;
    }
  }

  /** Deletion from a leaf. */
  method DeleteFromLeaf(store: InMemoryStore, nodeHash: Hash, leafEntries: seq<LeafEntry>, key: Key, ghost t: Tree)
    returns (r: Result<DeleteRecursionResult>, deleted: bool)
    requires Trusted(store.e) && Enters(store.e, store.data, nodeHash, t) && t.Leaf?
    requires leafEntries == LeafEntries(store.e, t.items)
    modifies store
    ensures var s := Delete(store.e.config, t, key);
            && !s.Failed? && r == Ok(ReportOf(store.e, t, s))
            && DeleteStored(store.e, old(store.data), store.data, s, 0)
            && DeleteAdds(store.e, old(store.data), store.data, t, key)
    ensures deleted <==> Find(ItemsOf(t), key).Some?
  {
    hide Trusted, Held, AllItems, HashOf, ReprOf, Consistent, ItemsHeld, LowerBound, Ascending, BelowHeld, Sorted, Grew;
    ghost var e, d0 := store.e, store.data;
    deleted := false;
    EntersLoads(e, d0, nodeHash, t);
    WithoutHeld(e, d0.Keys, t.items, key);
    var entries := leafEntries;
    var found, index := BinarySearch(EntryKeys(entries), key);
    if found {
      deleted := true;
      entries := entries[..index] + entries[index + 1..];
      if |entries| == 0 {
        EntersUnchanged(e, d0, nodeHash, t);
        r := Ok(DeleteRecursionResult.Merged);
      } else {
        EntersUnchanged(e, d0, nodeHash, t);
        var stored := StoreNodeOf(store, LeafNode(0, entries), Leaf(Without(t.items, key)));
        match stored { case Err(error) => r := Err(error); return; case Ok(_) => }
        r := Ok(DeleteRecursionResult.Updated(ProcessedNodeUpdate(stored.value.1, stored.value.0, |entries|, None)));
      }
    } else {
      EntersUnchanged(e, d0, nodeHash, t);
      if |entries| == 0 {
        r := Err(InternalError);
      } else {
        r := Ok(DeleteRecursionResult.NotFound(nodeHash, entries[|entries| - 1].key));
      }
    }
  }

  /** An operation that has stored nothing yet has grown the store by nothing. */
  lemma EntersUnchanged(e: Env, data: Chunks, hash: Hash, t: Tree)
    requires Trusted(e) && Enters(e, data, hash, t)
    ensures Consistent(e, data) && Grew(e, data, data, 0) && Grew(e, data, data, 1)
    ensures hash == HashOf(e, t) && BelowHeld(e, data.Keys, t)
  {
  }

  /** The children after child `i` shrank to `u`: all in the store, and either all
      in shape or with child `i` one entry short and not alone. */
  lemma ShrunkChild(e: Env, d0: Chunks, keys: set<Hash>, t: Tree, k: Key, u: Tree)
    requires Trusted(e) && Enters(e, d0, HashOf(e, t), t) && RootShape(e.config, t) && t.Branch?
    requires Delete(e.config, t.kids[Route(t.kids, k)], k) == Shrunk.Updated(u)
    requires d0.Keys <= keys && Held(e, keys, u)
    ensures var i := Route(t.kids, k);
            var kids' := t.kids[i := u];
            && Delete(e.config, t, k) == AfterUpdate(e.config, t.level, kids', i)
            && AllHeld(e, keys, kids') && Size(u) > 0
            && Entries(e, kids') == Entries(e, t.kids)[i := EntryOf(e, u)]
            && (if Size(u) < e.config.minFanout then AlmostInner(e.config, kids', t.level - 1, i) && |kids'| > 1
                else AllInner(e.config, kids', t.level - 1))
  {
    hide Trusted, Held, AllHeld, AllInner, AllItems, HashOf, MaxKey, Route, Consistent, Count, AfterUpdate, Find,
      Without, Sorted, Inner;
    var i := Route(t.kids, k);
    ConfigIsValid(e);
    EntersChild(e, d0, t, k);
    KidsInner(e.config, t);
    InnerBody(e.config, t.kids[i]);
    KidRootShape(e.config, t.kids[i]);
    DeleteCorrect(e.config, t.kids[i], k);
    HeldBelow(e, d0.Keys, t);
    KidsHeld(e, d0.Keys, t);
    AllHeldGrows(e, d0.Keys, keys, t.kids);
    AllHeldOne(e, keys, u);
    AllHeldReplace(e, keys, t.kids, i, [u]);
    AllInnerParts(e.config, t.kids, t.level - 1, i);
    AllInnerParts(e.config, t.kids, t.level - 1, i + 1);
    var kids' := t.kids[i := u];
    assert kids' == t.kids[..i] + [u] + t.kids[i + 1..];
    assert kids'[..i] == t.kids[..i] && kids'[i + 1..] == t.kids[i + 1..];
    if Size(u) >= e.config.minFanout { ReplacedInner(e.config, t.kids, t.level - 1, i, u); }
  }

  lemma AllHeldOne(e: Env, keys: set<Hash>, u: Tree)
    requires Trusted(e) && Held(e, keys, u)
    ensures AllHeld(e, keys, [u])
  {
  }

  lemma ReplacedInner(cfg: TreeConfig, kids: seq<Tree>, level: nat, i: nat, u: Tree)
    requires i < |kids| && AllInner(cfg, kids[..i], level) && AllInner(cfg, kids[i + 1..], level)
    requires Loose(cfg, u, level) && cfg.minFanout <= Size(u) <= cfg.targetFanout
    ensures AllInner(cfg, kids[..i] + [u] + kids[i + 1..], level)
  {
    hide AllInner;
    AllInnerOne(cfg, u, level);
    AllInnerJoin(cfg, kids[..i], [u], level);
    AllInnerJoin(cfg, kids[..i] + [u], kids[i + 1..], level);
  }

  /** The children after child `i` disappeared. */
  lemma VanishedChild(e: Env, d0: Chunks, keys: set<Hash>, t: Tree, k: Key)
    requires Trusted(e) && Enters(e, d0, HashOf(e, t), t) && RootShape(e.config, t) && t.Branch?
    requires d0.Keys <= keys
    ensures var i := Route(t.kids, k);
            var kids' := t.kids[..i] + t.kids[i + 1..];
            && AllHeld(e, keys, kids') && AllInner(e.config, kids', t.level - 1)
            && Entries(e, kids') == Entries(e, t.kids)[..i] + Entries(e, t.kids)[i + 1..]
  {
    hide Trusted, Held, AllHeld, AllInner, AllItems, HashOf, MaxKey, Route, Consistent, Count, EntryOf, Find, Sorted,
      Inner;
    var i := Route(t.kids, k);
    KidsInner(e.config, t);
    HeldBelow(e, d0.Keys, t);
    KidsHeld(e, d0.Keys, t);
    AllHeldGrows(e, d0.Keys, keys, t.kids);
    AllHeldNone(e, keys);
    AllHeldReplace(e, keys, t.kids, i, []);
    assert t.kids[..i] + [] + t.kids[i + 1..] == t.kids[..i] + t.kids[i + 1..];
    AllInnerParts(e.config, t.kids, t.level - 1, i);
    AllInnerParts(e.config, t.kids, t.level - 1, i + 1);
    AllInnerJoin(e.config, t.kids[..i], t.kids[i + 1..], t.level - 1);
  }

  lemma AllHeldFirst(e: Env, keys: set<Hash>, t: Tree)
    requires Trusted(e) && AllHeld(e, keys, [t])
    ensures Held(e, keys, t)
  {
    hide Trusted, Held;
    assert [t][0] == t;
  }

  lemma DeleteGrew(e: Env, d0: Chunks, d1: Chunks, d2: Chunks, level: nat, n: nat)
    requires level > 0 && n <= 3 && Grew(e, d0, d1, 3 * (level - 1) + 1) && Grew(e, d1, d2, n)
    ensures Grew(e, d0, d2, 3 * level + 1)
  {
    GrewTwice(e, d0, 3 * (level - 1) + 1, d1, n, d2);
    GrewLess(e, d0, d2, 3 * (level - 1) + 1 + n, 3 * level + 1);
  }

  lemma NotFoundBoundary(e: Env, d0: Chunks, t: Tree)
    requires Trusted(e) && Enters(e, d0, HashOf(e, t), t) && t.Branch?
    ensures t.kids != [] && Entries(e, t.kids)[|t.kids| - 1].boundaryKey == MaxKey(t)
  {
    hide Trusted, Held, AllItems, HashOf, Consistent, Sorted, MaxKey;
    ConfigIsValid(e);
    MaxKeyOfBranch(e.config, t);
    assert Entries(e, t.kids)[|t.kids| - 1] == EntryOf(e, t.kids[|t.kids| - 1]);
  }

  lemma AllHeldNone(e: Env, keys: set<Hash>)
    requires Trusted(e)
    ensures AllHeld(e, keys, [])
  {
  }

  /** The kid on the route, as a subtree to delete from. */
  lemma EnteredShape(e: Env, d0: Chunks, t: Tree, i: nat)
    requires Trusted(e) && Enters(e, d0, HashOf(e, t), t) && t.Branch? && i < |t.kids|
    ensures RootShape(e.config, t.kids[i])
  {
    hide Trusted, Held, AllItems, HashOf, Consistent, Sorted;
    ConfigIsValid(e);
    KidsInner(e.config, t);
    KidRootShape(e.config, t.kids[i]);
  }

  /** An internal node's part of a deletion, after its child has returned. */
  method AfterChild(store: InMemoryStore, nodeHash: Hash, entries: seq<InternalEntry>, i: nat,
                    child: DeleteRecursionResult, level: nat, key: Key, ghost t: Tree, ghost d0: Chunks)
    returns (r: Result<DeleteRecursionResult>)
    requires Trusted(store.e) && Enters(store.e, d0, nodeHash, t) && RootShape(store.e.config, t)
    requires t.Branch? && level == t.level && i == Route(t.kids, key) && entries == Entries(store.e, t.kids)
    requires var s := Delete(store.e.config, t.kids[i], key);
             && !s.Failed? && child == ReportOf(store.e, t.kids[i], s) && level > 0
             && DeleteStored(store.e, d0, store.data, s, level - 1)
             && DeleteAdds(store.e, d0, store.data, t.kids[i], key)
    modifies store
    ensures var s := Delete(store.e.config, t, key);
            && !s.Failed? && r == Ok(ReportOf(store.e, t, s))
            && DeleteStored(store.e, d0, store.data, s, level)
            && DeleteAdds(store.e, d0, store.data, t, key)
  {
    hide Trusted, Held, AllHeld, Body, AllInner, AllItems, Sorted, HashOf, Grew, MaxKey, Route, Find, Inner,
      Consistent, LeafEntries, ItemsHeld, AfterUpdate, Enters, RootShape, Entries, TopHashes, NodeOf;
    ghost var e, d1 := store.e, store.data;
    ghost var s := Delete(e.config, t.kids[i], key);
    GrewKeys(e, d0, d1, 3 * (level - 1) + 1);
    EntersUnchanged(e, d0, nodeHash, t);
    var children := entries;
    match child {
      case NotFound(_, _) =>
        NotFoundBoundary(e, d0, t);
        GrewLess(e, d0, d1, 0, 3 * level + 1);
        return Ok(DeleteRecursionResult.NotFound(nodeHash, children[|children| - 1].boundaryKey));
      case Merged =>
        r := AfterMergedChild(store, entries, i, level, key, t, d0);
      case Updated(update) =>
        r := AfterUpdatedChild(store, entries, i, update, level, key, t, d0, s.tree);
    }
  }

  lemma WithoutChild(cfg: TreeConfig, t: Tree, k: Key)
    requires t.Branch? && t.kids != [] && t.level > 0 && Delete(cfg, t.kids[Route(t.kids, k)], k) == Shrunk.Merged
    ensures var i := Route(t.kids, k);
            var kids := t.kids[..i] + t.kids[i + 1..];
            Delete(cfg, t, k) == if kids == [] then Shrunk.Merged else Shrunk.Updated(Branch(t.level, kids))
  {
    hide Route;
  }

  /** The same, when the child is gone: drop its entry. */
  method AfterMergedChild(store: InMemoryStore, entries: seq<InternalEntry>, i: nat,
                          level: nat, ghost key: Key, ghost t: Tree, ghost d0: Chunks)
    returns (r: Result<DeleteRecursionResult>)
    requires Trusted(store.e) && Enters(store.e, d0, HashOf(store.e, t), t) && RootShape(store.e.config, t)
    requires t.Branch? && level == t.level && i == Route(t.kids, key) && entries == Entries(store.e, t.kids)
    requires Delete(store.e.config, t.kids[i], key) == Shrunk.Merged && level > 0
    requires DeleteAdds(store.e, d0, store.data, t.kids[i], key)
    requires Grew(store.e, d0, store.data, 3 * (level - 1) + 1)
    modifies store
    ensures var s := Delete(store.e.config, t, key);
            && !s.Failed? && r == Ok(ReportOf(store.e, t, s))
            && DeleteStored(store.e, d0, store.data, s, level)
            && DeleteAdds(store.e, d0, store.data, t, key)
  {
    hide *;
    ghost var e, d1 := store.e, store.data;
    ghost var kids := t.kids[..i] + t.kids[i + 1..];
    GrewKeys(e, d0, d1, 3 * (level - 1) + 1);
    VanishedChild(e, d0, d1.Keys, t, key);
    WithoutChild(e.config, t, key);
    var children := entries[..i] + entries[i + 1..];
    assert children == Entries(e, kids);
    if |children| == 0 {
      GrewLess(e, d0, d1, 3 * (level - 1) + 1, 3 * level + 1);
      MergedStored(e, d0, d1, t, level);
      MergedDone(e, HashOf(e, t), d0, d1, d1, t, key);
      return Ok(DeleteRecursionResult.Merged);
    }
    var stored := StoreBranch(store, level, children, kids);
    match stored { case Err(error) => return Err(error); case Ok(_) => }
    DeleteGrew(e, d0, d1, store.data, level, 1);
    AllHeldFirst(e, store.data.Keys, Branch(level, kids));
    UpdatedStored(e, d0, store.data, t, Branch(level, kids), level);
    MergedDone(e, HashOf(e, t), d0, d1, store.data, t, key);
    return Ok(DeleteRecursionResult.Updated(stored.value));
  }

  lemma MergedDone(e: Env, nodeHash: Hash, d0: Chunks, d1: Chunks, d2: Chunks, t: Tree, k: Key)
    requires Trusted(e) && Enters(e, d0, nodeHash, t) && t.Branch? && t.kids != [] && t.level > 0
    requires Delete(e.config, t.kids[Route(t.kids, k)], k) == Shrunk.Merged
    requires DeleteAdds(e, d0, d1, t.kids[Route(t.kids, k)], k)
    requires var i := Route(t.kids, k);
             var kids := t.kids[..i] + t.kids[i + 1..];
             d2.Keys == d1.Keys + if kids == [] then {} else TopHashes(e, Grown(Branch(t.level, kids), None))
    ensures DeleteAdds(e, d0, d2, t, k)
  {
    hide Trusted, HashOf, AllNodeHashes, NodeHashes, Route, Held, Delete, ScrapHashes, Consistent, Body, Sorted;
    MergedAdds(e, d0, t, k, d1.Keys, d2.Keys);
  }

  lemma UpdatedDone(e: Env, nodeHash: Hash, d0: Chunks, d1: Chunks, d2: Chunks, d3: Chunks, t: Tree, k: Key, u: Tree,
                    kids: seq<Tree>)
    requires Trusted(e) && Enters(e, d0, nodeHash, t) && t.Branch? && t.kids != []
    requires Delete(e.config, t.kids[Route(t.kids, k)], k) == Shrunk.Updated(u)
    requires DeleteAdds(e, d0, d1, t.kids[Route(t.kids, k)], k)
    requires var i := Route(t.kids, k);
             if Size(u) < e.config.minFanout
             then Rebalance(e.config, t.kids[i := u], i) == Some(kids) && d2.Keys == d1.Keys + AllNodeHashes(e, kids)
             else kids == t.kids[i := u] && d2.Keys == d1.Keys
    requires d3.Keys == d2.Keys + TopHashes(e, Grown(Branch(t.level, kids), None))
    requires Delete(e.config, t, k) == Shrunk.Updated(Branch(t.level, kids))
    ensures DeleteAdds(e, d0, d3, t, k)
  {
    hide Trusted, HashOf, AllNodeHashes, NodeHashes, Route, Held, Delete, ScrapHashes, Consistent, Body, Sorted,
      Rebalance;
    UpdatedAdds(e, d0, t, k, d1.Keys, d2.Keys, d3.Keys, kids);
  }

  lemma MergedStored(e: Env, d0: Chunks, d1: Chunks, t: Tree, level: nat)
    requires Trusted(e) && Grew(e, d0, d1, 3 * level + 1)
    ensures ReportOf(e, t, Shrunk.Merged) == DeleteRecursionResult.Merged && DeleteStored(e, d0, d1, Shrunk.Merged, level)
  {
    hide Trusted, Grew;
  }

  lemma UpdatedStored(e: Env, d0: Chunks, d1: Chunks, t: Tree, u: Tree, level: nat)
    requires Trusted(e) && Grew(e, d0, d1, 3 * level + 1) && Held(e, d1.Keys, u)
    ensures ReportOf(e, t, Shrunk.Updated(u)) == DeleteRecursionResult.Updated(UpdateOf(e, Grown(u, None)))
    ensures DeleteStored(e, d0, d1, Shrunk.Updated(u), level)
  {
    hide Trusted, Grew, Held, UpdateOf;
  }

  /** The children of a branch, repaired if the child at `i` is underfull. */
  method RepairedChildren(store: InMemoryStore, children: seq<InternalEntry>, i: nat, childHash: Hash,
                          ghost kids: seq<Tree>, ghost level: nat)
    returns (r: Result<seq<InternalEntry>>, ghost kids': seq<Tree>)
    requires Trusted(store.e) && Consistent(store.e, store.data) && AllHeld(store.e, store.data.Keys, kids)
    requires i < |kids| && children == Entries(store.e, kids) && childHash == HashOf(store.e, kids[i])
    requires if Size(kids[i]) < store.e.config.minFanout
             then AlmostInner(store.e.config, kids, level, i) && |kids| > 1 && Size(kids[i]) > 0
             else AllInner(store.e.config, kids, level)
    modifies store
    ensures r == Ok(Entries(store.e, kids')) && kids' != []
    ensures AllHeld(store.e, store.data.Keys, kids') && AllInner(store.e.config, kids', level)
    ensures if Size(kids[i]) < store.e.config.minFanout
            then Rebalance(store.e.config, kids, i) == Some(kids')
                 && store.data.Keys == old(store.data.Keys) + AllNodeHashes(store.e, kids')
            else kids' == kids && store.data == old(store.data)
    ensures Grew(store.e, old(store.data), store.data, 2)
  {
    hide Trusted, Grew, Held, AllHeld, HashOf, AllInner, Consistent, Rebalance, AlmostInner, NodeOf, AllNodeHashes,
      Count, MaxKey;
    ghost var e := store.e;
    kids' := kids;
    ConfigIsValid(e);
    GrewNone(e, store.data, 2);
    KidLoads(e, store.data, kids, i);
    var childNode := LoadNode(store, childHash);
    match childNode { case Err(error) => r := Err(error); return; case Ok(_) => }
    if childNode.value.IsUnderflow(store.e.config) {
      RebalanceOk(e.config, kids, level, i);
      kids' := Rebalance(e.config, kids, i).value;
      r := HandleUnderflow(store, children, i, kids, level);
    } else {
      r := Ok(children);
    }
  }

  lemma AfterUpdateIs(cfg: TreeConfig, level: nat, kids: seq<Tree>, i: nat, kids': seq<Tree>)
    requires i < |kids| && kids' != []
    requires if Size(kids[i]) < cfg.minFanout then Rebalance(cfg, kids, i) == Some(kids') else kids' == kids
    ensures AfterUpdate(cfg, level, kids, i) == Shrunk.Updated(Branch(level, kids'))
  {
    hide Rebalance;
  }

  /** The same, when the child was updated: repair it if it is underfull. */
  method AfterUpdatedChild(store: InMemoryStore, entries: seq<InternalEntry>, i: nat, update: ProcessedNodeUpdate,
                           level: nat, ghost key: Key, ghost t: Tree, ghost d0: Chunks, ghost u: Tree)
    returns (r: Result<DeleteRecursionResult>)
    requires Trusted(store.e) && Enters(store.e, d0, HashOf(store.e, t), t) && RootShape(store.e.config, t)
    requires t.Branch? && level == t.level && i == Route(t.kids, key) && entries == Entries(store.e, t.kids)
    requires Delete(store.e.config, t.kids[i], key) == Shrunk.Updated(u) && level > 0
    requires update == UpdateOf(store.e, Grown(u, None)) && DeleteAdds(store.e, d0, store.data, t.kids[i], key)
    requires Grew(store.e, d0, store.data, 3 * (level - 1) + 1) && Held(store.e, store.data.Keys, u)
    modifies store
    ensures var s := Delete(store.e.config, t, key);
            && s.Updated? && r == Ok(ReportOf(store.e, t, s))
            && DeleteStored(store.e, d0, store.data, s, level)
            && DeleteAdds(store.e, d0, store.data, t, key)
  {
    hide *;
    ghost var e, d1 := store.e, store.data;
    ghost var kids := t.kids[i := u];
    GrewKeys(e, d0, d1, 3 * (level - 1) + 1);
    ShrunkChild(e, d0, d1.Keys, t, key, u);
    ReportedEntry(e, update, u);
    var children := entries[i := InternalEntry(update.newBoundaryKey, update.newHash, update.newItemCount)];
    var repaired;
    ghost var kids';
    repaired, kids' := RepairedChildren(store, children, i, update.newHash, kids, level - 1);
    match repaired { case Err(error) => return Err(error); case Ok(_) => }
    if |repaired.value| == 0 { return Ok(DeleteRecursionResult.Merged); }
    AfterUpdateIs(e.config, level, kids, i, kids');
    ghost var d2 := store.data;
    GrewKeys(e, d1, d2, 2);
    var stored := StoreBranch(store, level, repaired.value, kids');
    match stored { case Err(error) => return Err(error); case Ok(_) => }
    GrewTwice(e, d1, 2, d2, 1, store.data);
    DeleteGrew(e, d0, d1, store.data, level, 3);
    AllHeldFirst(e, store.data.Keys, Branch(level, kids'));
    UpdatedStored(e, d0, store.data, t, Branch(level, kids'), level);
    UpdatedDone(e, HashOf(e, t), d0, d1, d2, store.data, t, key, u, kids');
    return Ok(DeleteRecursionResult.Updated(stored.value));
  }

  lemma ReportedEntry(e: Env, update: ProcessedNodeUpdate, u: Tree)
    requires Trusted(e) && update == UpdateOf(e, Grown(u, None))
    ensures InternalEntry(update.newBoundaryKey, update.newHash, update.newItemCount) == EntryOf(e, u)
    ensures update.newHash == HashOf(e, u)
  {
    hide Trusted, HashOf, MaxKey, Count;
  }

  /** Deletion from a subtree never hits an internal error: it reports the shrunk
      tree, whose parts are all in the store, at the cost of one chunk at the leaf
      and at most three at every level above. */
  method DeleteRecursive(store: InMemoryStore, nodeHash: Hash, key: Key, level: nat, ghost t: Tree)
    returns (r: Result<DeleteRecursionResult>, deleted: bool)
    requires Trusted(store.e) && Enters(store.e, store.data, nodeHash, t) && RootShape(store.e.config, t)
    requires level == Level(t)
    modifies store
    ensures var s := Delete(store.e.config, t, key);
            && !s.Failed? && r == Ok(ReportOf(store.e, t, s))
            && DeleteStored(store.e, old(store.data), store.data, s, level)
            && DeleteAdds(store.e, old(store.data), store.data, t, key)
    ensures deleted <==> Find(ItemsOf(t), key).Some?
    decreases t
  {
    hide Trusted, Held, AllHeld, Body, AllInner, AllItems, Sorted, HashOf, Grew, MaxKey, Route, Find, Inner,
      Consistent, LeafEntries, Entries, ItemsHeld, Enters, RootShape, AfterUpdate, DeleteStored, ReportOf,
      Delete;
    ghost var e, d0 := store.e, store.data;
    deleted := false;
    EntersLoads(e, d0, nodeHash, t);
    EntersUnchanged(e, d0, nodeHash, t);
    var loaded := LoadNode(store, nodeHash);
    match loaded {
      case Err(error) => r := Err(error);
      case Ok(LeafNode(_, entries)) =>
        r, deleted := DeleteFromLeaf(store, nodeHash, entries, key, t);
      case Ok(InternalNode(_, children)) =>
        if |children| == 0 { r := Err(InternalError); return; }
        var i := FindChild(children, key);
        if level == 0 { r := Err(InternalError); return; }
        RouteIs(e, t.kids, key, i);
        EntersChild(e, d0, t, key);
        EnteredShape(e, d0, t, i);
        var sub, subDeleted := DeleteRecursive(store, children[i].childHash, key, level - 1, t.kids[i]);
        deleted := subDeleted;
        match sub { case Err(error) => r := Err(error); return; case Ok(_) => }
        r := AfterChild(store, nodeHash, children, i, sub.value, level, key, t, d0);
    }
  }
}
