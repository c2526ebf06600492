/** Strictly sorted item sequences: what a tree denotes. */
module Items {
  import opened Keys

  type Value = Bytes
  datatype Option<+T> = None | Some(value: T)
  datatype Item = Item(key: Key, value: Value)

  ghost predicate Ascending(ks: seq<Key>) {
    forall i, j :: 0 <= i < j < |ks| ==> Pos(ks[i]) < Pos(ks[j])
  }

  ghost predicate Sorted(s: seq<Item>) {
    forall i, j :: 0 <= i < j < |s| ==> Pos(s[i].key) < Pos(s[j].key)
  }

  ghost predicate AllBelow(s: seq<Item>, k: Key) {
    forall i :: 0 <= i < |s| ==> Pos(s[i].key) < Pos(k)
  }

  ghost predicate AllAbove(s: seq<Item>, k: Key) {
    forall i :: 0 <= i < |s| ==> Pos(k) < Pos(s[i].key)
  }

  function KeysOf(s: seq<Item>): (ks: seq<Key>)
    ensures |ks| == |s|
    ensures forall i :: 0 <= i < |s| ==> ks[i] == s[i].key
  {
    seq(|s|, i requires 0 <= i < |s| => s[i].key)
  }

  ghost predicate IsLowerBound(ks: seq<Key>, k: Key, p: nat) {
    && p <= |ks|
    && (forall i :: 0 <= i < p ==> Pos(ks[i]) < Pos(k))
    && (p < |ks| ==> Pos(k) <= Pos(ks[p]))
  }

  lemma {:induction false} LowerBoundExists(ks: seq<Key>, k: Key, q: nat)
    requires q <= |ks|
    requires forall i :: 0 <= i < q ==> Pos(ks[i]) < Pos(k)
    ensures exists p: nat :: IsLowerBound(ks, k, p)
    decreases |ks| - q
  {
    if q == |ks| || Pos(k) <= Pos(ks[q]) {
      assert IsLowerBound(ks, k, q);
    } else {
      LowerBoundExists(ks, k, q + 1);
    }
  }

  /** The index where `k` stands or would be inserted. */
  ghost function LowerBound(ks: seq<Key>, k: Key): (p: nat)
    ensures IsLowerBound(ks, k, p)
  {
    LowerBoundExists(ks, k, 0);
    var p: nat :| IsLowerBound(ks, k, p);
    p
  }

  lemma LowerBoundIs(ks: seq<Key>, k: Key, p: nat)
    requires IsLowerBound(ks, k, p)
    ensures LowerBound(ks, k) == p
  {
  }

  /** `slice::binary_search` on distinct ascending keys: `found` with the index
      of the key, or not found with its insertion point. */
  method BinarySearch(ks: seq<Key>, k: Key) returns (found: bool, idx: nat)
    requires Ascending(ks)
    ensures idx == LowerBound(ks, k)
    ensures found <==> idx < |ks| && ks[idx] == k
    ensures found <==> k in ks
  {
    var lo, hi := 0, |ks|;
    while lo < hi
      invariant 0 <= lo <= hi <= |ks|
      invariant forall i :: 0 <= i < lo ==> Pos(ks[i]) < Pos(k)
      invariant forall i :: hi <= i < |ks| ==> Pos(k) <= Pos(ks[i])
    {
      var mid := (lo + hi) / 2;
      if KeyLess(ks[mid], k) {
        lo := mid + 1;
      } else {
        hi := mid;
      }
    }
    idx := lo;
    LowerBoundIs(ks, k, idx);
    found := idx < |ks| && ks[idx] == k;
  }

  /** The item sequence after `key := value`. */
  ghost function Upsert(s: seq<Item>, k: Key, v: Value): seq<Item> {
    var p := LowerBound(KeysOf(s), k);
    if p < |s| && s[p].key == k then s[p := Item(k, v)] else s[..p] + [Item(k, v)] + s[p..]
  }

  /** The item sequence without `key`. */
  ghost function Without(s: seq<Item>, k: Key): seq<Item> {
    var p := LowerBound(KeysOf(s), k);
    if p < |s| && s[p].key == k then s[..p] + s[p + 1..] else s
  }

  /** Looking a key up in a sorted sequence. */
  ghost function Find(s: seq<Item>, k: Key): Option<Value> {
    var p := LowerBound(KeysOf(s), k);
    if p < |s| && s[p].key == k then Some(s[p].value) else None
  }

  /** The map a sorted sequence stands for. */
  ghost function ToMap(s: seq<Item>): map<Key, Value> {
    map k | k in KeysOf(s) && Find(s, k).Some? :: Find(s, k).value
  }

  lemma FoundAt(s: seq<Item>, i: nat)
    requires Sorted(s) && i < |s|
    ensures LowerBound(KeysOf(s), s[i].key) == i && Find(s, s[i].key) == Some(s[i].value)
  {
    LowerBoundIs(KeysOf(s), s[i].key, i);
  }

  lemma FoundItem(s: seq<Item>, k: Key, v: Value) returns (p: nat)
    requires Find(s, k) == Some(v)
    ensures p < |s| && s[p] == Item(k, v)
  {
    p := LowerBound(KeysOf(s), k);
  }

  lemma ItemFound(s: seq<Item>, x: Item)
    requires Sorted(s) && x in s
    ensures Find(s, x.key) == Some(x.value)
  {
    var i :| 0 <= i < |s| && s[i] == x;
    FoundAt(s, i);
  }

  lemma MapAt(s: seq<Item>, k: Key)
    requires Sorted(s)
    ensures k in ToMap(s) <==> Find(s, k).Some?
    ensures k in ToMap(s) ==> Find(s, k) == Some(ToMap(s)[k])
    ensures k in KeysOf(s) <==> Find(s, k).Some?
  {
    if k in KeysOf(s) {
      var i :| 0 <= i < |s| && KeysOf(s)[i] == k;
      FoundAt(s, i);
    }
    if Find(s, k).Some? {
      var p := LowerBound(KeysOf(s), k);
      assert KeysOf(s)[p] == k;
    }
  }

  /** A sequence cut around a key: `m` holds the item with key `k`, if any. */
  ghost predicate Cut(s: seq<Item>, k: Key, a: seq<Item>, m: seq<Item>, c: seq<Item>) {
    && s == a + m + c
    && AllBelow(a, k) && AllAbove(c, k)
    && |m| <= 1 && (|m| == 1 ==> m[0].key == k)
  }

  lemma CutAt(s: seq<Item>, k: Key) returns (a: seq<Item>, m: seq<Item>, c: seq<Item>)
    requires Sorted(s)
    ensures Cut(s, k, a, m, c)
  {
    var p := LowerBound(KeysOf(s), k);
    var q := if p < |s| && s[p].key == k then p + 1 else p;
    a, m, c := s[..p], s[p..q], s[q..];
    if p < |s| { assert KeyAt(Pos(s[p].key)) == s[p].key && KeyAt(Pos(k)) == k; }
  }

  /** What the three operations do to a cut. */
  lemma OnCut(s: seq<Item>, k: Key, a: seq<Item>, m: seq<Item>, c: seq<Item>, v: Value)
    requires Cut(s, k, a, m, c)
    ensures LowerBound(KeysOf(s), k) == |a|
    ensures Find(s, k) == if m == [] then None else Some(m[0].value)
    ensures Upsert(s, k, v) == a + [Item(k, v)] + c
    ensures Without(s, k) == a + c
  {
    if m == [] {
      assert s == a + c;
      if c != [] { assert s[|a|] == c[0]; }
      LowerBoundIs(KeysOf(s), k, |a|);
      assert s[..|a|] == a && s[|a|..] == c;
    } else {
      assert s[|a|] == m[0];
      LowerBoundIs(KeysOf(s), k, |a|);
      assert s[..|a|] == a && s[|a| + 1..] == c;
    }
  }

  lemma NotBelow(s: seq<Item>, k: Key)
    requires AllAbove(s, k)
    ensures Find(s, k) == None
  {
    hide Find;
    assert [] + [] + s == s;
    OnCut(s, k, [], [], s, []);
  }

  lemma SortedInsert(a: seq<Item>, x: Item, c: seq<Item>)
    requires Sorted(a + c) && AllBelow(a, x.key) && AllAbove(c, x.key)
    ensures Sorted(a + [x] + c)
  {
    SortedParts(a, c);
  }

  lemma SortedDrop(a: seq<Item>, m: seq<Item>, c: seq<Item>)
    requires Sorted(a + m + c)
    ensures Sorted(a + c)
  {
    SortedParts(a + m, c);
    SortedParts(a, m);
    assert forall i :: 0 <= i < |a| ==> (a + m)[i] == a[i];
  }

  lemma UpsertSorted(s: seq<Item>, k: Key, v: Value)
    requires Sorted(s)
    ensures Sorted(Upsert(s, k, v))
    ensures |Upsert(s, k, v)| == |s| + (if Find(s, k).Some? then 0 else 1)
  {
    var a, m, c := CutAt(s, k);
    OnCut(s, k, a, m, c, v);
    SortedDrop(a, m, c);
    SortedInsert(a, Item(k, v), c);
  }

  lemma WithoutSorted(s: seq<Item>, k: Key)
    requires Sorted(s)
    ensures Sorted(Without(s, k))
    ensures |Without(s, k)| == |s| - (if Find(s, k).Some? then 1 else 0)
  {
    var a, m, c := CutAt(s, k);
    OnCut(s, k, a, m, c, []);
    SortedDrop(a, m, c);
  }

  lemma CutMiddle(a: seq<Item>, b: seq<Item>, c: seq<Item>, k: Key, b0: seq<Item>, m: seq<Item>, b1: seq<Item>)
    requires AllBelow(a, k) && AllAbove(c, k) && Cut(b, k, b0, m, b1)
    ensures Cut(a + b + c, k, a + b0, m, b1 + c)
  {
    assert a + (b0 + m + b1) + c == (a + b0) + m + (b1 + c);
  }

  lemma Regroup(a: seq<Item>, b0: seq<Item>, m: seq<Item>, b1: seq<Item>, c: seq<Item>)
    ensures a + (b0 + m + b1) + c == (a + b0) + m + (b1 + c)
    ensures a + (b0 + b1) + c == (a + b0) + (b1 + c)
  {
  }

  /** Working on the part of a sequence that the key belongs to. */
  lemma UpdateInMiddle(a: seq<Item>, b: seq<Item>, c: seq<Item>, k: Key, v: Value)
    requires AllBelow(a, k) && AllAbove(c, k) && Sorted(b)
    ensures Find(a + b + c, k) == Find(b, k)
    ensures Upsert(a + b + c, k, v) == a + Upsert(b, k, v) + c
    ensures Without(a + b + c, k) == a + Without(b, k) + c
  {
    var b0, m, b1 := CutAt(b, k);
    OnCut(b, k, b0, m, b1, v);
    OnCutMiddle(a, b, c, k, v, b0, m, b1);
    Regroup(a, b0, [Item(k, v)], b1, c);
  }

  lemma OnCutMiddle(a: seq<Item>, b: seq<Item>, c: seq<Item>, k: Key, v: Value,
                    b0: seq<Item>, m: seq<Item>, b1: seq<Item>)
    requires AllBelow(a, k) && AllAbove(c, k) && Cut(b, k, b0, m, b1)
    ensures Find(a + b + c, k) == if m == [] then None else Some(m[0].value)
    ensures Upsert(a + b + c, k, v) == (a + b0) + [Item(k, v)] + (b1 + c)
    ensures Without(a + b + c, k) == (a + b0) + (b1 + c)
  {
    CutMiddle(a, b, c, k, b0, m, b1);
    OnCut(a + b + c, k, a + b0, m, b1 + c, v);
  }

  lemma FindInMiddle(a: seq<Item>, b: seq<Item>, c: seq<Item>, k: Key)
    requires AllBelow(a, k) && AllAbove(c, k) && Sorted(b)
    ensures Find(a + b + c, k) == Find(b, k)
  {
    UpdateInMiddle(a, b, c, k, []);
  }

  /** Lookup next to a cut: the part in the middle does not matter. */
  lemma FindBeside(a: seq<Item>, m: seq<Item>, c: seq<Item>, k: Key, j: Key)
    requires Sorted(a + m + c) && j != k
    requires forall i :: 0 <= i < |m| ==> m[i].key == k
    requires AllBelow(a, k) && AllAbove(c, k)
    ensures Find(a + m + c, j) == if Pos(j) < Pos(k) then Find(a, j) else Find(c, j)
  {
    SortedParts(a + m, c);
    SortedParts(a, m);
    assert KeyAt(Pos(k)) == k && KeyAt(Pos(j)) == j;
    if Pos(j) < Pos(k) {
      FindInMiddle([], a, m + c, j);
      assert a + m + c == [] + a + (m + c);
    } else {
      assert AllBelow(a + m, j);
      FindInMiddle(a + m, c, [], j);
      assert a + m + c == (a + m) + c + [];
    }
  }

  /** Lookup after an insertion: the new value at `k`, the old ones elsewhere. */
  lemma FindUpsert(s: seq<Item>, k: Key, v: Value, j: Key)
    requires Sorted(s)
    ensures Find(Upsert(s, k, v), j) == if j == k then Some(v) else Find(s, j)
  {
    hide Find, Upsert, LowerBound, Sorted;
    var a, m, c := CutAt(s, k);
    OnCut(s, k, a, m, c, v);
    UpsertSorted(s, k, v);
    if j == k {
      OnCut(a + [Item(k, v)] + c, k, a, [Item(k, v)], c, v);
    } else {
      FindBeside(a, m, c, k, j);
      FindBeside(a, [Item(k, v)], c, k, j);
    }
  }

  /** Lookup after a removal: nothing at `k`, the old values elsewhere. */
  lemma FindWithout(s: seq<Item>, k: Key, j: Key)
    requires Sorted(s)
    ensures Find(Without(s, k), j) == if j == k then None else Find(s, j)
  {
    hide Find, Without, LowerBound, Sorted;
    var a, m, c := CutAt(s, k);
    OnCut(s, k, a, m, c, []);
    WithoutSorted(s, k);
    assert a + [] + c == a + c;
    if j == k {
      OnCut(a + c, k, a, [], c, []);
    } else {
      FindBeside(a, m, c, k, j);
      FindBeside(a, [], c, k, j);
    }
  }

  /** Upsert is map update. */
  lemma UpsertIsUpdate(s: seq<Item>, k: Key, v: Value)
    requires Sorted(s)
    ensures ToMap(Upsert(s, k, v)) == ToMap(s)[k := v]
  {
    hide Find, Upsert, Sorted;
    UpsertSorted(s, k, v);
    forall j
      ensures j in ToMap(Upsert(s, k, v)) <==> j in ToMap(s)[k := v]
      ensures j in ToMap(Upsert(s, k, v)) ==> ToMap(Upsert(s, k, v))[j] == ToMap(s)[k := v][j]
    {
      FindUpsert(s, k, v, j);
      MapAt(s, j);
      MapAt(Upsert(s, k, v), j);
    }
  }

  /** Without is map removal. */
  lemma WithoutIsRemoval(s: seq<Item>, k: Key)
    requires Sorted(s)
    ensures ToMap(Without(s, k)) == ToMap(s) - {k}
  {
    hide Find, Without, Sorted;
    WithoutSorted(s, k);
    forall j
      ensures j in ToMap(Without(s, k)) <==> j in ToMap(s) - {k}
      ensures j in ToMap(Without(s, k)) ==> ToMap(Without(s, k))[j] == (ToMap(s) - {k})[j]
    {
      FindWithout(s, k, j);
      MapAt(s, j);
      MapAt(Without(s, k), j);
    }
  }

  /** Upsert changes nothing exactly when the pair was there already. */
  lemma UpsertSame(s: seq<Item>, k: Key, v: Value)
    requires Sorted(s)
    ensures Upsert(s, k, v) == s <==> Find(s, k) == Some(v)
  {
    FindUpsert(s, k, v, k);
  }

  /** `m'` is the lower part of `m`: it lacks some keys, all above those it has. */
  ghost predicate LowerPart(m: map<Key, Value>, m': map<Key, Value>) {
    && m'.Keys < m.Keys
    && (forall j :: j in m' ==> m'[j] == m[j])
    && (forall j, l :: j in m' && l in m.Keys - m'.Keys ==> KeyLess(j, l))
  }

  lemma LowerPartOf(a: seq<Item>, b: seq<Item>)
    requires Sorted(a + b) && b != []
    ensures LowerPart(ToMap(a + b), ToMap(a))
  {
    hide Find, Sorted, LowerBound;
    var s := a + b;
    SortedParts(a, b);
    forall j | j in ToMap(a)
      ensures j in ToMap(s) && ToMap(s)[j] == ToMap(a)[j]
    {
      MapAt(a, j);
      var i := FoundItem(a, j, ToMap(a)[j]);
      assert s[i] == a[i];
      FoundAt(s, i);
      MapAt(s, j);
    }
    forall j, l | j in ToMap(a) && l in ToMap(s).Keys - ToMap(a).Keys
      ensures KeyLess(j, l)
    {
      MapAt(a, j);
      MapAt(a, l);
      MapAt(s, l);
      var i := FoundItem(a, j, ToMap(a)[j]);
      var m := FoundItem(s, l, ToMap(s)[l]);
      assert m < |a| ==> l in KeysOf(a);
      assert m >= |a| ==> s[m] == b[m - |a|];
    }
    var x := b[0];
    assert s[|a|] == x;
    FoundAt(s, |a|);
    MapAt(s, x.key);
    MapAt(a, x.key);
    if x.key in ToMap(a) {
      var i := FoundItem(a, x.key, ToMap(a)[x.key]);
      assert false;
    }
  }

  lemma SortedParts(a: seq<Item>, b: seq<Item>)
    requires Sorted(a + b)
    ensures Sorted(a) && Sorted(b)
    ensures forall i, j :: 0 <= i < |a| && 0 <= j < |b| ==> Pos(a[i].key) < Pos(b[j].key)
  {
    var s := a + b;
    assert forall i :: 0 <= i < |a| ==> s[i] == a[i];
    assert forall j :: 0 <= j < |b| ==> s[|a| + j] == b[j];
    forall i, j | 0 <= i < j < |b|
      ensures Pos(b[i].key) < Pos(b[j].key)
    {
      assert s[|a| + i] == b[i] && s[|a| + j] == b[j];
    }
    forall i, j | 0 <= i < |a| && 0 <= j < |b|
      ensures Pos(a[i].key) < Pos(b[j].key)
    {
      assert s[i] == a[i] && s[|a| + j] == b[j];
    }
  }
}
