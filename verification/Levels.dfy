/** The levels of the tree object: over whole runs, and in the one case in which an
    insertion fails. */
module Levels {
  import opened Keys
  import opened Items
  import opened Nodes
  import opened Trees
  import opened Insertion
  import opened Deletion
  import opened Bounds
  import opened Heights
  import opened Store
  import opened Prolly
  import opened Runs

  ghost function Insertions(ops: seq<Op>): nat {
    if ops == [] then 0 else Insertions(ops[..|ops| - 1]) + if ops[|ops| - 1].InsertOp? then 1 else 0
  }

  /** What a run keeps of its levels: each is a byte and, with more than two entries a
      node, the tree is afforded by the insertions made so far. */
  ghost predicate Grounded(cfg: TreeConfig, t: Option<Tree>, n: nat) {
    && (t.Some? ==> Level(t.value) <= MAX_LEVEL)
    && (cfg.targetFanout > 2 ==> Afforded(cfg, t, n))
  }

  lemma GroundedGrows(cfg: TreeConfig, t: Option<Tree>, m: nat, n: nat)
    requires Grounded(cfg, t, m) && m <= n
    ensures Grounded(cfg, t, n)
  {
  }

  lemma InsertGrounded(cfg: TreeConfig, t: Option<Tree>, k: Key, v: Value, n: nat)
    requires cfg.Valid() && (t.Some? ==> WellFormed(cfg, t.value)) && Grounded(cfg, t, n)
    ensures Grounded(cfg, Some(NewTop(cfg, t, k, v)), n + 1)
  {
    hide Insert, Afforded, AllItems, Sorted, Upsert;
    if t.Some? { InsertCorrect(cfg, t.value, k, v); }
    if cfg.targetFanout > 2 { InsertAfforded(cfg, t, k, v, n); }
  }

  lemma DeleteGrounded(cfg: TreeConfig, t: Option<Tree>, k: Key, n: nat)
    requires cfg.Valid() && (t.Some? ==> WellFormed(cfg, t.value)) && Grounded(cfg, t, n)
    ensures Grounded(cfg, DeleteRoot(cfg, t, k), n)
  {
    hide Delete, Afforded, AllItems, Sorted, Find, Without;
    if t.Some? {
      DeleteCorrect(cfg, t.value, k);
      var s := Delete(cfg, t.value, k);
      if s.Updated? && s.tree.Branch? && s.tree.kids != [] { KidsInner(cfg, s.tree); }
    }
    if cfg.targetFanout > 2 { DeleteAfforded(cfg, t, k, n); }
  }

  lemma {:induction false} RunGrounded(e: Env, ss: seq<Snapshot>, ops: seq<Op>, i: nat)
    requires Trusted(e) && IsRun(e, ss, ops) && i < |ss|
    ensures forall j :: 0 <= j <= i ==> Grounded(e.config, ss[j].tree, Insertions(ops[..j]))
    decreases i
  {
    hide Trusted, Sound, Grounded, Inserted, Deleted, CheckedOut, Collected;
    if i == 0 {
      NothingGrounded(e.config);
    } else {
      RunGrounded(e, ss, ops, i - 1);
      RunSound(e, ss, ops, i);
      assert Step(e, ss[i - 1], ops[i - 1], ss[i - 1 + 1]) && Allowed(e, ss, i - 1, ops[i - 1]);
      assert ops[..i][..i - 1] == ops[..i - 1];
      StepGrounded(e, ss, ops, i - 1);
    }
  }

  lemma NothingGrounded(cfg: TreeConfig)
    ensures Grounded(cfg, None, 0)
  {
  }

  lemma InsertionsGrow(ops: seq<Op>, i: nat)
    requires i < |ops|
    ensures Insertions(ops[..i + 1]) == Insertions(ops[..i]) + if ops[i].InsertOp? then 1 else 0
  {
    assert ops[..i + 1][..i] == ops[..i];
  }

  lemma {:induction false} InsertionsMonotone(ops: seq<Op>, i: nat, j: nat)
    requires i <= j <= |ops|
    ensures Insertions(ops[..i]) <= Insertions(ops[..j])
    decreases j
  {
    if i < j {
      InsertionsMonotone(ops, i, j - 1);
      InsertionsGrow(ops, j - 1);
    }
  }

  lemma StepGrounded(e: Env, ss: seq<Snapshot>, ops: seq<Op>, i: nat)
    requires Trusted(e) && i < |ops| && i + 1 < |ss| && (forall j :: 0 <= j <= i ==> Sound(e, ss[j]))
    requires Step(e, ss[i], ops[i], ss[i + 1]) && Allowed(e, ss, i, ops[i])
    requires forall j :: 0 <= j <= i ==> Grounded(e.config, ss[j].tree, Insertions(ops[..j]))
    ensures Grounded(e.config, ss[i + 1].tree, Insertions(ops[..i + 1]))
  {
    hide Trusted, Sound, Grounded, CheckedOut, Inserted, Deleted, Collected;
    var n := Insertions(ops[..i]);
    assert Sound(e, ss[i]) && Grounded(e.config, ss[i].tree, n);
    InsertionsGrow(ops, i);
    SoundTree(e, ss[i]);
    match ops[i] {
      case InsertOp(k, v) => InsertedTree(e, ss[i], k, v, ss[i + 1]); InsertGrounded(e.config, ss[i].tree, k, v, n);
      case DeleteOp(k) => DeletedTree(e, ss[i], k, ss[i + 1]); DeleteGrounded(e.config, ss[i].tree, k, n);
      case CollectOp(live) => CollectedTree(e, ss[i], live, ss[i + 1]);
      case CheckoutOp(h) =>
        var j :| 0 <= j <= i && ss[j].root == h;
        assert Sound(e, ss[j]) && Grounded(e.config, ss[j].tree, Insertions(ops[..j]));
        CheckedOutTree(e, ss[i], ss[j], ss[i + 1]);
        InsertionsMonotone(ops, j, i);
        GroundedGrows(e.config, ss[j].tree, Insertions(ops[..j]), n);
    }
  }

  lemma RunLength(e: Env, ss: seq<Snapshot>, ops: seq<Op>)
    requires Trusted(e) && IsRun(e, ss, ops)
    ensures |ss| == |ops| + 1
  {
  }

  lemma SoundTree(e: Env, s: Snapshot)
    requires Trusted(e) && Sound(e, s)
    ensures e.config.Valid() && (s.tree.Some? ==> WellFormed(e.config, s.tree.value))
  {
    hide Trusted, Consistent, RefClosed, Held, HashOf, WellFormed;
    ConfigIsValid(e);
  }

  lemma InsertedTree(e: Env, s: Snapshot, k: Key, v: Value, s': Snapshot)
    requires Trusted(e) && Inserted(e, s, k, v, s')
    ensures s'.tree == Some(NewTop(e.config, s.tree, k, v))
  {
  }

  lemma DeletedTree(e: Env, s: Snapshot, k: Key, s': Snapshot)
    requires Trusted(e) && Deleted(e, s, k, s')
    ensures s'.tree == DeleteRoot(e.config, s.tree, k)
  {
  }

  lemma CollectedTree(e: Env, s: Snapshot, live: seq<Hash>, s': Snapshot)
    requires Trusted(e) && Step(e, s, CollectOp(live), s')
    ensures s'.tree == s.tree
  {
  }

  lemma CheckedOutTree(e: Env, s: Snapshot, earlier: Snapshot, s': Snapshot)
    requires Trusted(e) && Sound(e, s) && Sound(e, earlier) && Step(e, s, CheckoutOp(earlier.root), s')
    ensures s'.tree == earlier.tree || s'.tree == s.tree
  {
    hide Trusted, Good, RefClosed, CheckedOut;
    var ok := CheckedOut(e, s, earlier.root, s', true);
    CheckoutSound(e, s, earlier, s', ok);
    if !ok { FailedCheckout(e, s, earlier.root, s', ok); }
  }

  /** Over any run, whatever is deleted, collected or checked out: every level is a byte
      and, with more than two entries a node, the height is at most logarithmic in the
      number of insertions made. */
  lemma RunLevels(e: Env, ss: seq<Snapshot>, ops: seq<Op>, i: nat)
    requires Trusted(e) && IsRun(e, ss, ops) && i < |ss| && ss[i].tree.Some?
    ensures Level(ss[i].tree.value) <= 255
    ensures e.config.targetFanout > 2 ==> 2 * Power(2, Level(ss[i].tree.value)) <= Insertions(ops[..i]) + 2
  {
    hide Trusted, Sound, IsRun, Power, Afforded, WellFormed;
    RunLength(e, ss, ops);
    RunSound(e, ss, ops, i);
    RunGrounded(e, ss, ops, i);
    assert Sound(e, ss[i]) && Grounded(e.config, ss[i].tree, Insertions(ops[..i]));
    SoundTree(e, ss[i]);
    if e.config.targetFanout > 2 { AffordedLevel(e.config, ss[i].tree.value, Insertions(ops[..i])); }
  }

  /** An insertion of a run is map update, without failure, whenever nodes hold more
      than two entries and less than `2^64` insertions were made before, or, with a
      minimum fanout above one, the tree has less than `2^64` items. */
  lemma InsertionFits(e: Env, ss: seq<Snapshot>, ops: seq<Op>, i: nat)
    requires Trusted(e) && IsRun(e, ss, ops) && i < |ops| && ops[i].InsertOp?
    requires
      || (e.config.targetFanout > 2 && Insertions(ops[..i]) < 0x1_0000_0000_0000_0000)
      || (e.config.minFanout > 1 && (ss[i].tree.Some? ==> Count(ss[i].tree.value) < 0x1_0000_0000_0000_0000))
    ensures !Overflows(e.config, ss[i].tree, ops[i].key, ops[i].value)
    ensures MapOf(ss[i + 1].tree) == MapOf(ss[i].tree)[ops[i].key := ops[i].value]
  {
    hide Trusted, Sound, IsRun, Power, Afforded, WellFormed, NewTop, MapOf, LowerPart, Insert;
    RunLength(e, ss, ops);
    RunSound(e, ss, ops, i);
    RunGrounded(e, ss, ops, i);
    RunRefinesMaps(e, ss, ops, i);
    assert Sound(e, ss[i]) && Grounded(e.config, ss[i].tree, Insertions(ops[..i]));
    SoundTree(e, ss[i]);
    if Overflows(e.config, ss[i].tree, ops[i].key, ops[i].value) {
      if e.config.minFanout > 1 && Count(ss[i].tree.value) < 0x1_0000_0000_0000_0000 {
        LevelFitsU8(e.config, ss[i].tree.value);
      } else {
        OverflowCost(e.config, ss[i].tree, ops[i].key, ops[i].value, Insertions(ops[..i]));
      }
    }
  }

  // ----- the failing insertion on the object

  /** A batch from the empty tree does what the insertions do one by one. */
  lemma {:induction false} BatchIsReached(cfg: TreeConfig, done: seq<Item>, rest: seq<Item>)
    requires AllFit(cfg, SettingsOf(done))
    ensures AfterBatch(cfg, None, done + rest) == AfterBatch(cfg, Reached(cfg, SettingsOf(done)), rest)
    ensures BatchFits(cfg, None, done + rest) <==> BatchFits(cfg, Reached(cfg, SettingsOf(done)), rest)
    decreases |done|
  {
    hide Overflows, NewTop, AfterBatch, BatchFits, Reached, AllFit;
    if done == [] {
      NothingReached(cfg);
      assert done + rest == rest;
    } else {
      var before, x := done[..|done| - 1], done[|done| - 1];
      assert done == before + [x];
      LastFits(cfg, before, x);
      assert done + rest == before + ([x] + rest);
      BatchIsReached(cfg, before, [x] + rest);
      BatchStep(cfg, Reached(cfg, SettingsOf(before)), x, rest);
    }
  }

  lemma NothingReached(cfg: TreeConfig)
    ensures Reached(cfg, SettingsOf([])) == None
  {
  }

  lemma LastFits(cfg: TreeConfig, before: seq<Item>, x: Item)
    requires AllFit(cfg, SettingsOf(before + [x]))
    ensures AllFit(cfg, SettingsOf(before)) && !Overflows(cfg, Reached(cfg, SettingsOf(before)), x.key, x.value)
    ensures Reached(cfg, SettingsOf(before + [x])) == Some(NewTop(cfg, Reached(cfg, SettingsOf(before)), x.key, x.value))
  {
    hide Overflows, NewTop;
    var cs, n := SettingsOf(before + [x]), |before|;
    assert cs[..n] == SettingsOf(before);
    FitsPrefix(cfg, cs, n);
    assert !Fails(cfg, Reached(cfg, cs[..n]), cs[n]);
  }

  lemma BatchStep(cfg: TreeConfig, t: Option<Tree>, x: Item, rest: seq<Item>)
    requires !Overflows(cfg, t, x.key, x.value)
    ensures AfterBatch(cfg, t, [x] + rest) == AfterBatch(cfg, Some(NewTop(cfg, t, x.key, x.value)), rest)
    ensures BatchFits(cfg, t, [x] + rest) <==> BatchFits(cfg, Some(NewTop(cfg, t, x.key, x.value)), rest)
  {
    hide Overflows, NewTop;
    assert ([x] + rest)[1..] == rest;
  }

  lemma ClimbBatchFails(cfg: TreeConfig, items: seq<Item>)
    requires cfg.Valid() && cfg.targetFanout == 2 && Sorted(items) && |items| == 258
    ensures !BatchFits(cfg, None, items) && MapOf(AfterBatch(cfg, None, items)) == map[items[0].key := items[0].value]
  {
    hide Overflows, NewTop, Sorted, AllFit, ToMap;
    var n, cs := |items| - 1, SettingsOf(items);
    ClimbFails(cfg, items);
    assert items == items[..n] + [items[n]] && cs[..n] == SettingsOf(items[..n]);
    BatchIsReached(cfg, items[..n], [items[n]]);
    OneItem(items[0].key, items[0].value);
  }

  /** With a target fanout of two, putting 258 ascending items into an empty tree fails,
      and leaves the tree with the first of them alone. */
  method Climb(tree: ProllyTree, items: seq<Item>) returns (r: Result<bool>)
    requires tree.Valid() && tree.rootHash.None? && tree.store.e.config.targetFanout == 2
    requires Sorted(items) && |items| == 258
    modifies tree, tree.store
    ensures r == Err(ConfigError) && tree.Valid() && tree.Contents() == map[items[0].key := items[0].value]
  {
    hide Trusted, Overflows, NewTop, Sorted, AllSet, AfterBatch, BatchFits;
    ConfigIsValid(tree.store.e);
    GoodTree(tree.store.e, tree.Snap());
    ClimbBatchFails(tree.store.e.config, items);
    r := tree.InsertBatch(items);
  }
}
