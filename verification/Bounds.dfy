/** How high a tree of a given size can be. */
module Bounds {
  import opened Nodes
  import opened Trees

  ghost function Power(b: nat, n: nat): (p: nat)
    ensures b > 0 ==> p > 0
  {
    if n == 0 then 1 else b * Power(b, n - 1)
  }

  lemma {:induction false} PowerMonotone(a: nat, b: nat, n: nat)
    requires a <= b
    ensures Power(a, n) <= Power(b, n)
    decreases n
  {
    if n > 0 {
      PowerMonotone(a, b, n - 1);
      Multiply(a, Power(a, n - 1), b, Power(b, n - 1));
    }
  }

  lemma Multiply(a: nat, x: nat, b: nat, y: nat)
    requires a <= b && x <= y
    ensures a * x <= b * y
  {
    assert a * x <= a * y && a * y <= b * y;
  }

  /** A subtree in shape of level `l` holds at least `minFanout^(l+1)` items. */
  lemma {:induction false} InnerCount(cfg: TreeConfig, t: Tree)
    requires Inner(cfg, t)
    ensures Count(t) >= Power(cfg.minFanout, Level(t) + 1)
    decreases t, 1
  {
    hide AllItems, Power;
    InnerBody(cfg, t);
    if t.Leaf? {
      PowerOne(cfg.minFanout);
    } else {
      KidsInner(cfg, t);
      KidsCount(cfg, t.kids, t.level - 1);
      Multiply(cfg.minFanout, Power(cfg.minFanout, t.level), |t.kids|, Power(cfg.minFanout, t.level));
      PowerStep(cfg.minFanout, t.level);
    }
  }

  lemma PowerOne(b: nat)
    ensures Power(b, 1) == b
  {
    assert Power(b, 0) == 1;
  }

  lemma PowerStep(b: nat, n: nat)
    ensures Power(b, n + 1) == b * Power(b, n)
  {
  }

  lemma {:induction false} KidsCount(cfg: TreeConfig, kids: seq<Tree>, level: nat)
    requires AllInner(cfg, kids, level)
    ensures |AllItems(kids)| >= |kids| * Power(cfg.minFanout, level + 1)
    decreases kids, 0
  {
    hide Power, AllInner;
    if kids != [] {
      KidInner(cfg, kids, level, 0);
      InnerCount(cfg, kids[0]);
      AllInnerParts(cfg, kids, level, 1);
      KidsCount(cfg, kids[1..], level);
      AllItemsHead(kids);
      var p := Power(cfg.minFanout, level + 1);
      assert |kids| * p == p + (|kids| - 1) * p;
    }
  }

  /** With a minimum fanout above one, a tree whose root has level `h > 0` holds at
      least `2 * minFanout^h` items. */
  lemma HeightBound(cfg: TreeConfig, t: Tree)
    requires WellFormed(cfg, t) && cfg.minFanout > 1 && Level(t) > 0
    ensures Count(t) >= 2 * Power(cfg.minFanout, Level(t))
  {
    hide Power, AllItems;
    KidsInner(cfg, t);
    KidsCount(cfg, t.kids, t.level - 1);
    Multiply(2, Power(cfg.minFanout, t.level), |t.kids|, Power(cfg.minFanout, t.level));
  }

  /** So the level of a new root fits the source's `u8` for every tree whose item
      count fits its `u64`. */
  lemma LevelFitsU8(cfg: TreeConfig, t: Tree)
    requires WellFormed(cfg, t) && cfg.minFanout > 1 && Count(t) < 0x1_0000_0000_0000_0000
    ensures Level(t) + 1 < 256
  {
    if Level(t) >= 64 {
      HeightBound(cfg, t);
      PowerMonotone(2, cfg.minFanout, Level(t));
      PowerGrows(64, Level(t));
      PowerOf2At64();
    }
  }

  lemma {:induction false} PowerGrows(m: nat, n: nat)
    requires m <= n
    ensures Power(2, m) <= Power(2, n)
    decreases n
  {
    if m < n { PowerGrows(m, n - 1); }
  }

  lemma {:induction false} PowerAdds(m: nat, n: nat)
    ensures Power(2, m + n) == Power(2, m) * Power(2, n)
    decreases m
  {
    if m > 0 { PowerAdds(m - 1, n); }
  }

  lemma PowerOf2At64()
    ensures Power(2, 64) == 0x1_0000_0000_0000_0000
  {
    hide Power;
    PowerOne(2);
    PowerAdds(1, 1);
    PowerAdds(2, 2);
    PowerAdds(4, 4);
    PowerAdds(8, 8);
    PowerAdds(16, 16);
    PowerAdds(32, 32);
  }
}
