/** Whole runs of the tree object: what earlier versions keep meaning. */
module Runs {
  import opened Keys
  import opened Items
  import opened Nodes
  import opened Values
  import opened Trees
  import opened Insertion
  import opened Deletion
  import opened Store
  import opened Gc
  import opened Prolly

  datatype Op =
    | InsertOp(key: Key, value: Value)
    | DeleteOp(key: Key)
    | CheckoutOp(hash: Option<Hash>)
    | CollectOp(live: seq<Hash>)

  ghost predicate Step(e: Env, s: Snapshot, op: Op, s': Snapshot)
    requires Trusted(e)
  {
    match op
    case InsertOp(k, v) => Inserted(e, s, k, v, s')
    case DeleteOp(k) => Deleted(e, s, k, s')
    case CheckoutOp(h) => CheckedOut(e, s, h, s', true) || CheckedOut(e, s, h, s', false)
    case CollectOp(live) => Collected(e, s, live, s', |s.data| - |s'.data|)
  }

  /** The object's operations are the steps of runs. */
  method Perform(t: ProllyTree, op: Op)
    requires t.Valid()
    modifies t, t.store
    ensures Trusted(t.store.e) && Step(t.store.e, old(t.Snap()), op, t.Snap())
  {
    hide Trusted, Inserted, Deleted, CheckedOut, Good, LiveSet;
    match op {
      case InsertOp(k, v) => var _ := t.Insert(k, v);
      case DeleteOp(k) => var _ := t.Delete(k);
      case CheckoutOp(h) => var _ := t.Checkout(h);
      case CollectOp(live) => var _ := t.CollectGarbage(live);
    }
  }

  /** What a caller may do in a run: check out only roots the object has had, and
      insert only values whose chunks are inert in the store that the insertion leaves. */
  ghost predicate Allowed(e: Env, ss: seq<Snapshot>, i: nat, op: Op)
    requires Trusted(e) && i + 1 < |ss|
  {
    match op
    case InsertOp(_, v) => Inert(e, ss[i + 1].data.Keys, ChunksOf(e, v))
    case CheckoutOp(h) => exists j :: 0 <= j <= i && ss[j].root == h
    case _ => true
  }

  /** A run from an empty store and an empty tree. */
  ghost predicate IsRun(e: Env, ss: seq<Snapshot>, ops: seq<Op>)
    requires Trusted(e)
  {
    && |ss| == |ops| + 1
    && ss[0] == Snapshot(map[], None, None)
    && (forall i :: 0 <= i < |ops| ==> Step(e, ss[i], ops[i], ss[i + 1]))
    && (forall i :: 0 <= i < |ops| ==> Allowed(e, ss, i, ops[i]))
  }

  ghost predicate Sound(e: Env, s: Snapshot)
    requires Trusted(e)
  {
    Good(e, s) && RefClosed(e, s.data)
  }

  lemma EmptySound(e: Env)
    requires Trusted(e)
    ensures Sound(e, Snapshot(map[], None, None))
  {
  }

  /** In a sound store, a root hash that names a stored chunk names a whole tree. */
  lemma RootIsWhole(e: Env, s: Snapshot, t: Tree)
    requires Trusted(e) && Consistent(e, s.data) && RefClosed(e, s.data) && WellFormed(e.config, t)
    ensures HashOf(e, t) in s.data <==> Held(e, s.data.Keys, t)
  {
    if HashOf(e, t) in s.data { RootBringsTree(e, s.data, t); }
  }

  lemma CheckoutSound(e: Env, s: Snapshot, earlier: Snapshot, s': Snapshot, ok: bool)
    requires Trusted(e) && Sound(e, s) && Good(e, earlier)
    requires CheckedOut(e, s, earlier.root, s', ok)
    ensures Sound(e, s')
    ensures ok ==> s'.root == earlier.root && s'.tree == earlier.tree
    ensures ok <==> earlier.root.None? || earlier.root.value in s.data
  {
    hide Trusted, Held, AllItems, HashOf, WellFormed, Consistent, RefClosed;
    if earlier.tree.Some? {
      RootIsWhole(e, s, earlier.tree.value);
      if HashOf(e, earlier.tree.value) in s.data { LoadsNode(e, s.data, earlier.tree.value); }
    }
  }

  /** Every snapshot of a run is sound: its root denotes a well-formed tree that is
      all there, and no reference in the store dangles. */
  lemma {:induction false} RunSound(e: Env, ss: seq<Snapshot>, ops: seq<Op>, i: nat)
    requires Trusted(e) && IsRun(e, ss, ops) && i < |ss|
    ensures forall j :: 0 <= j <= i ==> Sound(e, ss[j])
    decreases i
  {
    hide Trusted, Inserted, Deleted, CheckedOut, Collected, Sound;
    if i == 0 {
      EmptySound(e);
    } else {
      RunSound(e, ss, ops, i - 1);
      assert Step(e, ss[i - 1], ops[i - 1], ss[i - 1 + 1]) && Allowed(e, ss, i - 1, ops[i - 1]);
      StepSound(e, ss, i - 1, ops[i - 1]);
    }
  }

  lemma StepSound(e: Env, ss: seq<Snapshot>, i: nat, op: Op)
    requires Trusted(e) && i + 1 < |ss| && (forall j :: 0 <= j <= i ==> Sound(e, ss[j]))
    requires Step(e, ss[i], op, ss[i + 1]) && Allowed(e, ss, i, op)
    ensures Sound(e, ss[i + 1])
  {
    hide Trusted, CheckedOut, Good, RefClosed, Inert, LiveSet;
    match op {
      case CheckoutOp(h) =>
        var j :| 0 <= j <= i && ss[j].root == h;
        assert Sound(e, ss[j]) && Sound(e, ss[i]);
        CheckoutSound(e, ss[i], ss[j], ss[i + 1], CheckedOut(e, ss[i], h, ss[i + 1], true));
      case InsertOp(k, v) => assert Sound(e, ss[i]);
      case DeleteOp(k) => assert Sound(e, ss[i]);
      case CollectOp(live) => assert Sound(e, ss[i]);
    }
  }

  /** Persistence over whole runs: whatever happens later, a root the object once
      had either is gone, and checking it out fails, or still reads back as exactly
      its original items, and checking it out restores its tree. No half-collected
      tree can be checked out. */
  lemma VersionsPersist(e: Env, ss: seq<Snapshot>, ops: seq<Op>, i: nat, j: nat)
    requires Trusted(e) && IsRun(e, ss, ops) && i <= j < |ss| && ss[i].root.Some?
    ensures ss[i].tree.Some? && ss[i].root == Some(HashOf(e, ss[i].tree.value))
    ensures var h, t := ss[i].root.value, ss[i].tree.value;
            if h in ss[j].data
            then ReadBack(e, ss[j].data, h, Level(t)) == Some(ItemsOf(t))
                 && (forall s', ok :: CheckedOut(e, ss[j], Some(h), s', ok) ==> ok && s'.tree == Some(t) && Good(e, s'))
            else forall s', ok :: CheckedOut(e, ss[j], Some(h), s', ok) ==> !ok && s' == ss[j]
  {
    hide Trusted, Held, AllItems, HashOf, WellFormed, Consistent, RefClosed, ReadBack, CheckedOut;
    RunSound(e, ss, ops, j);
    assert Sound(e, ss[i]) && Sound(e, ss[j]);
    var h, t := ss[i].root.value, ss[i].tree.value;
    RootIsWhole(e, ss[j], t);
    if h in ss[j].data {
      WellFormedBody(e.config, t);
      ReadsBack(e, ss[j].data, e.config, t, Level(t));
    }
    forall s', ok | CheckedOut(e, ss[j], Some(h), s', ok)
      ensures ok <==> h in ss[j].data
      ensures ok ==> s'.tree == Some(t) && Good(e, s')
      ensures !ok ==> s' == ss[j]
    {
      CheckoutSound(e, ss[j], ss[i], s', ok);
      if !ok { FailedCheckout(e, ss[j], Some(h), s', ok); }
    }
  }

  lemma WellFormedBody(cfg: TreeConfig, t: Tree)
    requires WellFormed(cfg, t)
    ensures Body(cfg, t)
  {
  }

  lemma FailedCheckout(e: Env, s: Snapshot, h: Option<Hash>, s': Snapshot, ok: bool)
    requires Trusted(e) && CheckedOut(e, s, h, s', ok) && !ok
    ensures s' == s
  {
  }

  /** A run means what the same run on plain maps means: an insertion sets the key
      (or, on an overflow, keeps only the lower part of that), a deletion removes it, a collection changes nothing, and a checkout gives back
      the map of the version it names, or changes nothing when that version is gone. */
  lemma RunRefinesMaps(e: Env, ss: seq<Snapshot>, ops: seq<Op>, i: nat)
    requires Trusted(e) && IsRun(e, ss, ops) && i < |ops|
    ensures var m, m' := MapOf(ss[i].tree), MapOf(ss[i + 1].tree);
            match ops[i]
            case InsertOp(k, v) =>
              if Overflows(e.config, ss[i].tree, k, v) then LowerPart(m[k := v], m') else m' == m[k := v]
            case DeleteOp(k) => m' == m - {k}
            case CollectOp(_) => m' == m
            case CheckoutOp(h) =>
              forall j :: 0 <= j <= i && ss[j].root == h ==>
                m' == if h.None? || h.value in ss[i].data then MapOf(ss[j].tree) else m
  {
    hide Trusted, Good, RefClosed, MapOf, CheckedOut, NewTop, Overflows, LowerPart, DeleteRoot, Planted, AllNodeHashes;
    RunSound(e, ss, ops, i + 1);
    assert Step(e, ss[i], ops[i], ss[i + 1]);
    assert Sound(e, ss[i]);
    GoodTree(e, ss[i]);
    match ops[i] {
      case InsertOp(k, v) => InsertMeaning(e, ss[i].tree, k, v);
      case DeleteOp(k) => DeleteMeaning(e, ss[i].tree, k);
      case CollectOp(_) =>
      case CheckoutOp(h) =>
        forall j | 0 <= j <= i && ss[j].root == h
          ensures MapOf(ss[i + 1].tree) == if h.None? || h.value in ss[i].data then MapOf(ss[j].tree) else MapOf(ss[i].tree)
        {
          assert Sound(e, ss[j]);
          var ok := CheckedOut(e, ss[i], h, ss[i + 1], true);
          CheckoutSound(e, ss[i], ss[j], ss[i + 1], ok);
          if !ok { FailedCheckout(e, ss[i], h, ss[i + 1], ok); }
        }
    }
  }

  /** Some version of a run, up to point `i`. */
  ghost predicate IsVersion(ss: seq<Snapshot>, i: nat, t: Tree) {
    exists j :: 0 <= j <= i && j < |ss| && ss[j].tree == Some(t)
  }

  /** A collection in a run leaves exactly what the versions consist of that its roots
      name, when their values do not read as nodes: the rest is really gone. */
  lemma CollectionExact(e: Env, ss: seq<Snapshot>, ops: seq<Op>, i: nat, ts: seq<Tree>)
    requires Trusted(e) && IsRun(e, ss, ops) && i < |ops| && ops[i].CollectOp?
    requires forall t :: t in ts ==> IsVersion(ss, i, t) && HashOf(e, t) in ss[i].data
    requires var current := if ss[i].root.Some? then {ss[i].root.value} else {};
             Name(e, ss[i].data, (set h | h in ops[i].live) + current, ts) && PlainValues(e, AllItems(ts))
    ensures ss[i + 1].data.Keys == AllParts(e, ts)
  {
    hide Trusted, HashOf, Sound, Name, PlainValues, AllParts, LiveSet, AllItems, Held, Kept, Good, Inserted, Deleted, CheckedOut;
    RunSound(e, ss, ops, i);
    assert Sound(e, ss[i]) && Step(e, ss[i], ops[i], ss[i + 1]);
    forall j | 0 <= j < |ts|
      ensures Held(e, ss[i].data.Keys, ts[j])
    {
      assert ts[j] in ts;
      var m :| 0 <= m <= i && m < |ss| && ss[m].tree == Some(ts[j]);
      SoundRoot(e, ss, m);
      SoundClosed(e, ss[i]);
      RootIsWhole(e, ss[i], ts[j]);
    }
    SoundClosed(e, ss[i]);
    LiveSetExact(e, ss[i].data, GcRoots(ops[i].live, ss[i].root), ts);
  }

  /** A version that is stored, and whose root is among the given ones, stays whole
      through a collection, and so does the current one. */
  lemma LiveVersionsStay(e: Env, ss: seq<Snapshot>, ops: seq<Op>, i: nat, t: Tree)
    requires Trusted(e) && IsRun(e, ss, ops) && i < |ops| && ops[i].CollectOp?
    requires IsVersion(ss, i, t) && HashOf(e, t) in ss[i].data
    requires HashOf(e, t) in ops[i].live || ss[i].tree == Some(t)
    ensures Held(e, ss[i + 1].data.Keys, t)
  {
    hide Trusted, HashOf, Sound, LiveSet, Held, Kept, Good, Inserted, Deleted, CheckedOut;
    RunSound(e, ss, ops, i);
    assert Sound(e, ss[i]) && Step(e, ss[i], ops[i], ss[i + 1]);
    var m :| 0 <= m <= i && m < |ss| && ss[m].tree == Some(t);
    SoundRoot(e, ss, m);
    SoundRoot(e, ss, i);
    SoundClosed(e, ss[i]);
    RootIsWhole(e, ss[i], t);
    CollectKeepsTree(e, ss[i].data, GcRoots(ops[i].live, ss[i].root), t);
  }

  lemma SoundClosed(e: Env, s: Snapshot)
    requires Trusted(e) && Sound(e, s)
    ensures Consistent(e, s.data) && RefClosed(e, s.data)
  {
  }

  /** Without the condition on values the guarantee fails. Take any run; a version of
      it, `ss[i]`, whose root is a branch; and, after the run, an insertion of a value
      with the encoding of that root node for its only chunk, when some child of the
      root is gone and stays gone. Then the earlier root can be checked out again,
      but nothing can be read back from it, at any depth. */
  lemma HalfATreeChecksOut(e: Env, ss: seq<Snapshot>, ops: seq<Op>, i: nat, t: Tree, c: nat, k: Key, v: Value,
                           s: Snapshot, s': Snapshot, ok: bool)
    requires Trusted(e) && IsRun(e, ss, ops) && i < |ss|
    requires ss[i].root == Some(HashOf(e, t)) && t.Branch? && c < |t.kids|
    requires ChunksOf(e, v) == [e.encode(NodeOf(e, t))] && Step(e, ss[|ops|], InsertOp(k, v), s)
    requires HashOf(e, t.kids[c]) !in s.data
    requires CheckedOut(e, s, ss[i].root, s', ok)
    ensures ok && s'.root == ss[i].root && Consistent(e, s'.data)
    ensures forall depth :: ReadBack(e, s'.data, HashOf(e, t), depth) == None
  {
    hide Trusted, AllItems, HashOf, Held, WellFormed, RefClosed, Refs, ReadBack, NodeOf, InsertRoot, Inert, Sound;
    RunSound(e, ss, ops, |ops|);
    assert Sound(e, ss[|ops|]);
    InsertedValueHeld(e, ss[|ops|], k, v, s);
    assert e.encode(NodeOf(e, t)) in ChunksOf(e, v);
    NodeStored(e, s.data, t);
    var h := HashOf(e, t);
    forall depth
      ensures ReadBack(e, s.data, h, depth) == None
    {
      ChildIsRef(e, t, c);
      DanglingReadsNothing(e, s.data, h, NodeOf(e, t), HashOf(e, t.kids[c]), depth);
    }
  }

  /** And it does happen. Take any run and any version of it, `ss[i]`, whose root is a
      branch. Leave that version, collect everything, and insert, under a key that the
      version does not have, a value with the encoding of its root node for its only
      chunk. The steps before the insertion go on with the run; after it, the version
      can be checked out again, but nothing can be read back from it. */
  lemma HalfATreeIsReached(e: Env, ss: seq<Snapshot>, ops: seq<Op>, i: nat, k: Key, v: Value,
                           s1: Snapshot, s2: Snapshot, s3: Snapshot)
    requires Trusted(e) && IsRun(e, ss, ops) && i < |ss|
    requires ss[i].tree.Some? && ss[i].tree.value.Branch? && k !in MapOf(ss[i].tree)
    requires ChunksOf(e, v) == [e.encode(NodeOf(e, ss[i].tree.value))]
    requires Step(e, ss[|ops|], CheckoutOp(None), s1) && Step(e, s1, CollectOp([]), s2)
    requires Step(e, s2, InsertOp(k, v), s3)
    ensures IsRun(e, ss + [s1, s2], ops + [CheckoutOp(None), CollectOp([])])
    ensures forall s', ok :: CheckedOut(e, s3, ss[i].root, s', ok) ==>
              ok && s'.root == ss[i].root && forall depth :: ReadBack(e, s'.data, HashOf(e, ss[i].tree.value), depth) == None
  {
    hide *;
    RunSound(e, ss, ops, i);
    SoundRoot(e, ss, i);
    LeaveAndCollect(e, ss, ops, s1, s2);
    WithoutFirstChild(e, ss + [s1, s2], ops + [CheckoutOp(None), CollectOp([])], i, ss[i].tree.value, k, v, s3);
  }

  lemma WithoutFirstChild(e: Env, ss: seq<Snapshot>, ops: seq<Op>, i: nat, t: Tree, k: Key, v: Value, s: Snapshot)
    requires Trusted(e) && IsRun(e, ss, ops) && i < |ss| && ss[i].root == Some(HashOf(e, t))
    requires WellFormed(e.config, t) && t.Branch? && k !in MapOf(Some(t))
    requires |ss| == |ops| + 1 && ss[|ops|] == Snapshot(map[], None, None) && ChunksOf(e, v) == [e.encode(NodeOf(e, t))]
    requires Step(e, ss[|ops|], InsertOp(k, v), s)
    ensures forall s', ok :: CheckedOut(e, s, ss[i].root, s', ok) ==>
              ok && s'.root == ss[i].root && forall depth :: ReadBack(e, s'.data, HashOf(e, t), depth) == None
  {
    hide *;
    FirstChildGone(e, t, ss[|ops|], k, v, s);
    forall s', ok | CheckedOut(e, s, ss[i].root, s', ok)
      ensures ok && s'.root == ss[i].root && forall depth :: ReadBack(e, s'.data, HashOf(e, t), depth) == None
    {
      HalfATreeChecksOut(e, ss, ops, i, t, 0, k, v, s, s', ok);
    }
  }

  lemma SoundRoot(e: Env, ss: seq<Snapshot>, i: nat)
    requires Trusted(e) && i < |ss| && forall j :: 0 <= j <= i ==> Sound(e, ss[j])
    ensures ss[i].tree.Some? ==> ss[i].root == Some(HashOf(e, ss[i].tree.value)) && WellFormed(e.config, ss[i].tree.value)
  {
    hide Trusted, HashOf, WellFormed, Consistent, RefClosed, Held;
    assert Sound(e, ss[i]);
  }

  /** Leaving for the empty tree and collecting is always allowed, and empties the store. */
  lemma LeaveAndCollect(e: Env, ss: seq<Snapshot>, ops: seq<Op>, s1: Snapshot, s2: Snapshot)
    requires Trusted(e) && IsRun(e, ss, ops)
    requires Step(e, ss[|ops|], CheckoutOp(None), s1) && Step(e, s1, CollectOp([]), s2)
    ensures IsRun(e, ss + [s1, s2], ops + [CheckoutOp(None), CollectOp([])])
    ensures |ss| == |ops| + 1 && (ss + [s1, s2])[|ops| + 2] == s2 == Snapshot(map[], None, None)
  {
    hide Trusted, LiveSet, Inserted, Deleted, Good, RefClosed;
    var run, done := ss + [s1, s2], ops + [CheckoutOp(None), CollectOp([])];
    assert run[0].root == None;
    forall j | 0 <= j < |done|
      ensures Step(e, run[j], done[j], run[j + 1]) && Allowed(e, run, j, done[j])
    {
      if j < |ops| {
        assert Step(e, ss[j], ops[j], ss[j + 1]) && Allowed(e, ss, j, ops[j]);
        AllowedBefore(e, ss, [s1, s2], j, ops[j]);
      }
    }
    LiveSetIsLeast(e, s1.data, GcRoots([], None), {});
  }

  lemma AllowedBefore(e: Env, ss: seq<Snapshot>, more: seq<Snapshot>, i: nat, op: Op)
    requires Trusted(e) && i + 1 < |ss| && Allowed(e, ss, i, op)
    ensures Allowed(e, ss + more, i, op)
  {
    hide Trusted, Inert;
    assert (ss + more)[i + 1] == ss[i + 1];
    if op.CheckoutOp? {
      var j :| 0 <= j <= i && ss[j].root == op.hash;
      assert (ss + more)[j].root == op.hash;
    }
  }

  /** A first insertion into an empty store leaves two chunks: the value's and the leaf. */
  lemma FirstChildGone(e: Env, t: Tree, s: Snapshot, k: Key, v: Value, s': Snapshot)
    requires Trusted(e) && WellFormed(e.config, t) && t.Branch? && k !in MapOf(Some(t))
    requires s == Snapshot(map[], None, None) && ChunksOf(e, v) == [e.encode(NodeOf(e, t))]
    requires Step(e, s, InsertOp(k, v), s')
    ensures t.kids != [] && HashOf(e, t.kids[0]) !in s'.data
  {
    hide Trusted, HashOf, NodeOf, Consistent, Sorted, Sound, Inserted, ChunksOf, MapOf;
    EmptySound(e);
    InsertedValueHeld(e, s, k, v, s');
    var leaf := Leaf([Item(k, v)]);
    ConfigIsValid(e);
    FirstInsertion(e, s, k, v, s');
    assert e.encode(NodeOf(e, t)) in ChunksOf(e, v);
    HashIs(e, t);
    if HashOf(e, t) == HashOf(e, leaf) { HashOfInjective(e, t, leaf); }
    OnlyTwo(s'.data.Keys, HashOf(e, t), HashOf(e, leaf));
    var child := t.kids[0];
    if HashOf(e, child) == HashOf(e, t) { HashOfInjective(e, child, t); }
    if HashOf(e, child) == HashOf(e, leaf) {
      HashOfInjective(e, child, leaf);
      FirstKey(e.config, t, k, v);
    }
  }

  lemma HashIs(e: Env, t: Tree)
    requires Trusted(e)
    ensures HashOf(e, t) == e.hash(e.encode(NodeOf(e, t)))
  {
  }

  lemma FirstInsertion(e: Env, s: Snapshot, k: Key, v: Value, s': Snapshot)
    requires Trusted(e) && s == Snapshot(map[], None, None) && Inserted(e, s, k, v, s')
    ensures HashOf(e, Leaf([Item(k, v)])) in s'.data.Keys && |s'.data.Keys| <= |ChunksOf(e, v)| + 1
  {
    hide Trusted, HashOf, Consistent, ChunksOf, BelowHeld, RefClosed, Inert, WellFormed;
    assert |s'.data.Keys| == |s'.data|;
  }

  lemma FirstKey(cfg: TreeConfig, t: Tree, k: Key, v: Value)
    requires WellFormed(cfg, t) && t.Branch? && t.kids != [] && t.kids[0] == Leaf([Item(k, v)])
    ensures k in MapOf(Some(t))
  {
    hide Sorted, Find, LowerBound, RootShape;
    AllItemsHead(t.kids);
    assert ItemsOf(t)[0] == Item(k, v);
    assert KeysOf(ItemsOf(t))[0] == k;
    MapAt(ItemsOf(t), k);
  }

  lemma OnlyTwo<T>(s: set<T>, x: T, y: T)
    requires x in s && y in s && x != y && |s| <= 2
    ensures s == {x, y}
  {
    assert |s - {x, y}| == |s| - |{x, y}|;
  }

  lemma NodeStored(e: Env, data: Chunks, t: Tree)
    requires Trusted(e) && Consistent(e, data) && e.hash(e.encode(NodeOf(e, t))) in data
    ensures HashOf(e, t) in data && e.decode(data[HashOf(e, t)]) == Some(NodeOf(e, t))
  {
    hide NodeOf, Trusted, Consistent;
    LoadsNode(e, data, t);
  }

  lemma ChildIsRef(e: Env, t: Tree, c: nat)
    requires Trusted(e) && t.Branch? && c < |t.kids|
    ensures HashOf(e, t.kids[c]) in Refs(NodeOf(e, t))
  {
    hide HashOf, Trusted, MaxKey, Count;
    var es := Entries(e, t.kids);
    assert es[c] in es && es[c] == EntryOf(e, t.kids[c]);
  }

  /** After an insertion the chunks of the value are in the store. */
  lemma InsertedValueHeld(e: Env, s: Snapshot, k: Key, v: Value, s': Snapshot)
    requires Trusted(e) && Inserted(e, s, k, v, s')
    ensures ValueHeld(e, s'.data.Keys, v) && Consistent(e, s'.data)
  {
    hide Trusted, Consistent, Denotes, Extends, ChunksOf, AllNodeHashes, Planted, RefClosed, Inert;
    forall c | c in ChunksOf(e, v)
      ensures e.hash(c) in s'.data.Keys
    {
      assert e.hash(c) in HashSet(e, ChunksOf(e, v));
    }
  }

  /** The other half: whenever a reference dangles in a store, some stored hash can be
      checked out from which nothing can be read back, at any depth. */
  lemma DanglingChecksOut(e: Env, s: Snapshot) returns (h: Hash)
    requires Trusted(e) && Consistent(e, s.data) && !RefClosed(e, s.data)
    ensures h in s.data
    ensures forall s', ok :: CheckedOut(e, s, Some(h), s', ok) ==> ok && s'.root == Some(h) && s'.data == s.data
    ensures forall depth :: ReadBack(e, s.data, h, depth) == None
  {
    hide Trusted, Consistent, Refs, ReadBack, WellFormed, Held, HashOf, Good;
    var h', n :| h' in s.data && e.decode(s.data[h']) == Some(n) && !(Refs(n) <= s.data.Keys);
    h := h';
    var g :| g in Refs(n) && g !in s.data;
    forall depth
      ensures ReadBack(e, s.data, h, depth) == None
    {
      DanglingReadsNothing(e, s.data, h, n, g, depth);
    }
  }
}
