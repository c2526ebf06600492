/** Keys are byte strings compared lexicographically (Rust's `Vec<u8>` order).

    Byte strings under that order embed into the reals. The proofs of the other
    modules compare the positions `Pos(k)` instead of the strings, so that the
    solver's arithmetic supplies transitivity and totality. */
module Keys {

  type Byte = b: int | 0 <= b < 256
  type Bytes = seq<Byte>
  type Key = Bytes

  /** The order of `Vec<u8>`: first difference decides, a proper prefix is smaller. */
  predicate LexLess(a: Key, b: Key)
    decreases |b|
  {
    b != [] && (a == [] || a[0] < b[0] || (a[0] == b[0] && LexLess(a[1..], b[1..])))
  }

  ghost function Rank(k: Key): (r: real)
    ensures 0.0 <= r < 1.0
  {
    if k == [] then 0.0 else (k[0] as real + 1.0 + Rank(k[1..])) / 257.0
  }

  lemma {:induction false} RankFollowsOrder(a: Key, b: Key)
    ensures LexLess(a, b) <==> Rank(a) < Rank(b)
    ensures Rank(a) == Rank(b) ==> a == b
    decreases |b|
  {
    if a != [] && b != [] {
      RankFollowsOrder(a[1..], b[1..]);
      assert a == [a[0]] + a[1..] && b == [b[0]] + b[1..];
    }
  }

  /** `f` places the keys on the real line in lexicographic order and `g` reads
      a key back from its place. */
  ghost predicate IsPlacement(f: Key -> real, g: real -> Key) {
    && (forall a: Key, b: Key {:trigger LexLess(a, b)} :: LexLess(a, b) <==> f(a) < f(b))
    && (forall k: Key {:trigger KeyReadsBack(f, g, k)} :: KeyReadsBack(f, g, k))
  }

  ghost predicate KeyReadsBack(f: Key -> real, g: real -> Key, k: Key) {
    g(f(k)) == k
  }

  ghost function KeyOfRank(r: real): Key {
    if exists k: Key :: Rank(k) == r then var k: Key :| Rank(k) == r; k else []
  }

  lemma PlacementExists()
    ensures exists f, g :: IsPlacement(f, g)
  {
    var f: Key -> real := (k: Key) => Rank(k);
    var g: real -> Key := (r: real) => KeyOfRank(r);
    forall a: Key, b: Key
      ensures LexLess(a, b) <==> f(a) < f(b)
    {
      RankFollowsOrder(a, b);
    }
    forall k: Key
      ensures KeyReadsBack(f, g, k)
    {
      RankFollowsOrder(k, KeyOfRank(Rank(k)));
    }
    assert IsPlacement(f, g);
  }

  ghost function Placement(): (fg: (Key -> real, real -> Key))
  {
    PlacementExists();
    var f, g :| IsPlacement(f, g);
    (f, g)
  }

  ghost function KeyAt(r: real): Key {
    Placement().1(r)
  }

  /** The position of a key on the real line; `KeyAt` undoes it, so distinct keys
      have distinct positions. */
  ghost function Pos(k: Key): (r: real)
    ensures KeyAt(r) == k
  {
    assert KeyReadsBack(Placement().0, Placement().1, k);
    Placement().0(k)
  }

  /** `a <= b`, as the source writes it on slices. */
  predicate KeyLeq(a: Key, b: Key)
    ensures KeyLeq(a, b) <==> Pos(a) <= Pos(b)
  {
    !LexLess(b, a)
  }

  predicate KeyLess(a: Key, b: Key)
    ensures KeyLess(a, b) <==> Pos(a) < Pos(b)
  {
    LexLess(a, b)
  }

  /** Lexicographic comparison is a strict total order. */
  lemma LexIsTotalOrder(a: Key, b: Key, c: Key)
    ensures !LexLess(a, a)
    ensures LexLess(a, b) && LexLess(b, c) ==> LexLess(a, c)
    ensures LexLess(a, b) || a == b || LexLess(b, a)
  {
    assert KeyLess(a, b) == LexLess(a, b) && KeyLess(b, c) == LexLess(b, c) && KeyLess(a, c) == LexLess(a, c);
    assert KeyLess(b, a) == LexLess(b, a) && KeyLess(a, a) == LexLess(a, a);
    assert KeyAt(Pos(a)) == a && KeyAt(Pos(b)) == b;
  }
}
