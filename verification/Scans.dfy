/** What a range scan returns: rows of the item sequence, and pages of rows. */
module Scans {
  import opened Sequences
  import opened Keys
  import opened Items

  datatype ScanArgs = ScanArgs(
    startBound: Option<Key>, endBound: Option<Key>,
    startInclusive: bool, endInclusive: bool, reverse: bool,
    offset: nat, limit: Option<nat>)

  /** The key lies before the start bound, seen in scan direction. */
  predicate BeforeStart(args: ScanArgs, k: Key) {
    args.startBound.Some? &&
    var sb := args.startBound.value;
    ((if args.reverse then KeyLess(sb, k) else KeyLess(k, sb)) || (k == sb && !args.startInclusive))
  }

  /** The key lies past the end bound, seen in scan direction. */
  predicate PastEnd(args: ScanArgs, k: Key) {
    args.endBound.Some? &&
    var eb := args.endBound.value;
    ((if args.reverse then KeyLess(k, eb) else KeyLess(eb, k)) || (k == eb && !args.endInclusive))
  }

  /** The bound checks of `next_in_scan`: only a reverse scan looks at the start
      bound again. */
  predicate Stops(args: ScanArgs, k: Key) {
    PastEnd(args, k) || (args.reverse && BeforeStart(args, k))
  }

  // ----- generic sequence functions

  /** The items up to the first one that stops the scan. */
  ghost function Upto(s: seq<Item>, args: ScanArgs): seq<Item> {
    if s == [] || Stops(args, s[0].key) then [] else [s[0]] + Upto(s[1..], args)
  }

  /** Passes over the start key itself when it is excluded. */
  ghost function SkipStart(s: seq<Item>, args: ScanArgs): seq<Item> {
    if args.startBound.Some? && !args.startInclusive && s != [] && s[0].key == args.startBound.value then s[1..] else s
  }

  /** Where a scan starts: the items in scan direction. A reverse scan starts one
      item too high when its bound falls in a gap between leaves (`gap`). */
  ghost function From(items: seq<Item>, args: ScanArgs, gap: bool): seq<Item>
    requires gap ==> args.startBound.Some? && LowerBound(KeysOf(items), args.startBound.value) < |items|
  {
    if args.startBound.None? then (if args.reverse then Reversed(items) else items) else
    var p := LowerBound(KeysOf(items), args.startBound.value);
    if !args.reverse then items[p..]
    else if gap || (p < |items| && items[p].key == args.startBound.value) then Reversed(items[..p + 1])
    else Reversed(items[..p])
  }

  ghost function Stream(items: seq<Item>, args: ScanArgs, gap: bool): seq<Item>
    requires gap ==> args.startBound.Some? && LowerBound(KeysOf(items), args.startBound.value) < |items|
  {
    SkipStart(Drop(From(items, args, gap), args.offset), args)
  }

  /** The rows a scan yields when nothing limits it. */
  ghost function Rows(items: seq<Item>, args: ScanArgs, gap: bool): seq<Item>
    requires gap ==> args.startBound.Some? && LowerBound(KeysOf(items), args.startBound.value) < |items|
  {
    Upto(Stream(items, args, gap), args)
  }

  // ----- the rows that were asked for

  predicate InBounds(args: ScanArgs, k: Key) {
    !BeforeStart(args, k) && !PastEnd(args, k)
  }

  ghost function Filter(s: seq<Item>, args: ScanArgs): seq<Item> {
    if s == [] then []
    else (if InBounds(args, s[0].key) then [s[0]] else []) + Filter(s[1..], args)
  }

  /** How many in-range items the offset takes away: an excluded start key that is
      present uses up one of it. */
  ghost function OffsetLeft(items: seq<Item>, args: ScanArgs): nat {
    if args.offset > 0 && args.startBound.Some? && !args.startInclusive && Find(items, args.startBound.value).Some?
    then args.offset - 1 else args.offset
  }

  /** The specification: the in-range items in scan direction, without the offset. */
  ghost function Wanted(items: seq<Item>, args: ScanArgs): seq<Item> {
    Drop(Filter(if args.reverse then Reversed(items) else items, args), OffsetLeft(items, args))
  }

  // ----- lemmas on the building blocks

  /** In scan direction, once a key stops the scan, all later ones do. */
  ghost predicate Monotone(s: seq<Item>, args: ScanArgs) {
    forall i, j :: 0 <= i < j < |s| && Stops(args, s[i].key) ==> Stops(args, s[j].key)
  }

  lemma {:induction false} UptoPrefix(s: seq<Item>, args: ScanArgs)
    ensures |Upto(s, args)| <= |s| && Upto(s, args) == s[..|Upto(s, args)|]
    ensures forall i :: 0 <= i < |Upto(s, args)| ==> !Stops(args, s[i].key)
    ensures |Upto(s, args)| < |s| ==> Stops(args, s[|Upto(s, args)|].key)
    decreases |s|
  {
    hide Stops;
    if s != [] && !Stops(args, s[0].key) {
      UptoPrefix(s[1..], args);
      var u := Upto(s[1..], args);
      assert Upto(s, args) == [s[0]] + u;
      assert forall i :: 0 < i < |u| + 1 ==> s[i] == s[1..][i - 1];
    }
  }

  /** The prefix is determined by where the scan stops. */
  lemma UptoIs(s: seq<Item>, args: ScanArgs, n: nat)
    requires n <= |s| && (forall i :: 0 <= i < n ==> !Stops(args, s[i].key))
    requires n < |s| ==> Stops(args, s[n].key)
    ensures Upto(s, args) == s[..n]
  {
    hide Stops, Upto;
    UptoPrefix(s, args);
    var m := |Upto(s, args)|;
    assert m == n;
  }

  lemma UptoDrop(s: seq<Item>, args: ScanArgs, n: nat)
    requires Monotone(s, args)
    ensures Upto(Drop(s, n), args) == Drop(Upto(s, args), n)
  {
    hide Stops, Upto;
    UptoPrefix(s, args);
    var m := |Upto(s, args)|;
    if n <= m {
      assert forall i :: 0 <= i < |s| - n ==> s[n..][i] == s[n + i];
      UptoIs(s[n..], args, m - n);
      assert s[n..][..m - n] == s[..m][n..];
    } else if n <= |s| {
      assert Stops(args, s[m].key);
      if n < |s| { assert s[n..][0] == s[n]; }
      UptoIs(s[n..], args, 0);
    } else {
      UptoIs([], args, 0);
    }
  }

  lemma {:induction false} FilterAppend(a: seq<Item>, b: seq<Item>, args: ScanArgs)
    ensures Filter(a + b, args) == Filter(a, args) + Filter(b, args)
    decreases |a|
  {
    hide InBounds;
    if a == [] {
      assert a + b == b;
    } else {
      FilterAppend(a[1..], b, args);
      assert (a + b)[1..] == a[1..] + b;
    }
  }

  lemma {:induction false} FilterNone(s: seq<Item>, args: ScanArgs)
    requires forall i :: 0 <= i < |s| ==> !InBounds(args, s[i].key)
    ensures Filter(s, args) == []
    decreases |s|
  {
    hide InBounds;
    if s != [] { FilterNone(s[1..], args); }
  }

  lemma {:induction false} FilterAll(s: seq<Item>, args: ScanArgs)
    requires forall i :: 0 <= i < |s| ==> InBounds(args, s[i].key)
    ensures Filter(s, args) == s
    decreases |s|
  {
    hide InBounds;
    if s != [] {
      FilterAll(s[1..], args);
      assert s == [s[0]] + s[1..];
    }
  }

  /** Past the start, what the scan runs through before it stops is exactly what is
      in range. */
  lemma UptoIsFilter(s: seq<Item>, args: ScanArgs)
    requires Monotone(s, args) && forall i :: 0 <= i < |s| ==> !BeforeStart(args, s[i].key)
    ensures Upto(s, args) == Filter(s, args)
  {
    hide Upto, Filter, PastEnd, BeforeStart;
    UptoPrefix(s, args);
    var m := |Upto(s, args)|;
    assert s == s[..m] + s[m..];
    FilterAppend(s[..m], s[m..], args);
    FilterAll(s[..m], args);
    forall i | 0 <= i < |s| - m
      ensures !InBounds(args, s[m..][i].key)
    {
      assert s[m..][i] == s[m + i];
      assert Stops(args, s[m + i].key);
    }
    FilterNone(s[m..], args);
  }

  // ----- rows are what was asked for

  /** Keys in scan direction. */
  ghost predicate Directed(s: seq<Item>, args: ScanArgs) {
    forall i, j :: 0 <= i < j < |s| ==> if args.reverse then Pos(s[j].key) < Pos(s[i].key) else Pos(s[i].key) < Pos(s[j].key)
  }

  ghost predicate Started(s: seq<Item>, args: ScanArgs) {
    forall i :: 0 <= i < |s| ==> !BeforeStart(args, s[i].key)
  }

  ghost predicate NotStarted(s: seq<Item>, args: ScanArgs) {
    forall i :: 0 <= i < |s| ==> BeforeStart(args, s[i].key)
  }

  lemma DirectedMonotone(s: seq<Item>, args: ScanArgs)
    requires Directed(s, args) && Started(s, args)
    ensures Monotone(s, args)
  {
    hide BeforeStart;
  }

  /** A directed sequence cut into what comes before the start, the excluded start
      key if it is there, and the rest. */
  ghost predicate StartCut(s: seq<Item>, args: ScanArgs, pre: seq<Item>, mid: seq<Item>, rest: seq<Item>) {
    && s == pre + mid + rest
    && NotStarted(pre, args) && NotStarted(mid, args) && Started(rest, args) && Directed(rest, args)
    && |mid| <= 1
    && (mid != [] ==> args.startBound.Some? && !args.startInclusive && mid[0].key == args.startBound.value)
  }

  lemma SkipStartDrop(args: ScanArgs, pre: seq<Item>, mid: seq<Item>, rest: seq<Item>)
    requires StartCut(pre + mid + rest, args, pre, mid, rest)
    ensures SkipStart(Drop(mid + rest, args.offset), args)
         == Drop(rest, if args.offset > 0 && mid != [] then args.offset - 1 else args.offset)
  {
    hide Directed, NotStarted;
    var n := args.offset;
    if mid != [] && n == 0 {
      assert (mid + rest)[1..] == rest;
      assert (mid + rest)[0..] == mid + rest;
      assert Drop(rest, 0) == rest;
    } else {
      var k := if mid != [] then n - 1 else n;
      assert Drop(mid + rest, n) == Drop(rest, k);
      if k < |rest| {
        assert Drop(rest, k)[0] == rest[k];
        assert !BeforeStart(args, rest[k].key);
      }
    }
  }

  lemma RowsOfCut(args: ScanArgs, pre: seq<Item>, mid: seq<Item>, rest: seq<Item>)
    requires StartCut(pre + mid + rest, args, pre, mid, rest)
    ensures Upto(SkipStart(Drop(mid + rest, args.offset), args), args)
         == Drop(Filter(pre + mid + rest, args), if args.offset > 0 && mid != [] then args.offset - 1 else args.offset)
  {
    hide Upto, Drop, SkipStart, Filter, Directed, BeforeStart, PastEnd, Monotone;
    SkipStartDrop(args, pre, mid, rest);
    DirectedMonotone(rest, args);
    UptoDrop(rest, args, if args.offset > 0 && mid != [] then args.offset - 1 else args.offset);
    UptoIsFilter(rest, args);
    FilterAppend(pre + mid, rest, args);
    FilterAppend(pre, mid, args);
    FilterNone(pre, args);
    FilterNone(mid, args);
    assert [] + [] + Filter(rest, args) == Filter(rest, args);
  }

  ghost function InDirection(items: seq<Item>, args: ScanArgs): seq<Item> {
    if args.reverse then Reversed(items) else items
  }

  /** Cutting the items at the start key. */
  lemma StartCutAt(items: seq<Item>, args: ScanArgs) returns (pre: seq<Item>, mid: seq<Item>, rest: seq<Item>)
    requires Sorted(items)
    ensures StartCut(InDirection(items, args), args, pre, mid, rest)
    ensures From(items, args, false) == mid + rest
    ensures mid != [] <==> args.startBound.Some? && !args.startInclusive && Find(items, args.startBound.value).Some?
  {
    hide Find, LowerBound, PastEnd, BeforeStart, Directed, Started, NotStarted, From, Reversed, Sorted;
    if args.startBound.None? {
      pre, mid, rest := [], [], InDirection(items, args);
      NoStart(items, args);
    } else {
      var k := args.startBound.value;
      var a, m, c := CutAt(items, k);
      OnCut(items, k, a, m, c, []);
      FromCut(items, args, a, m, c);
      var x := if args.reverse then Reversed(a) else c;
      pre := if args.reverse then Reversed(c) else a;
      mid, rest := if args.startInclusive then [] else m, if args.startInclusive then m + x else x;
      CutIsStartCut(items, args, a, m, c);
      if args.startInclusive { EmptySides(m + x, m + x); }
    }
  }

  lemma CutIsStartCut(items: seq<Item>, args: ScanArgs, a: seq<Item>, m: seq<Item>, c: seq<Item>)
    requires args.startBound.Some? && Cut(items, args.startBound.value, a, m, c) && Sorted(items)
    ensures var x := if args.reverse then Reversed(a) else c;
            StartCut(InDirection(items, args), args, if args.reverse then Reversed(c) else a,
              if args.startInclusive then [] else m, if args.startInclusive then m + x else x)
  {
    hide PastEnd, BeforeStart, Directed, Started, Reversed, Sorted;
    DirectedCut(items, args, a, m, c);
    ReversedParts(a, m, c);
    var pre, x := if args.reverse then Reversed(c) else a, if args.reverse then Reversed(a) else c;
    Associative3(pre, m, x);
  }

  lemma Associative3<T>(a: seq<T>, b: seq<T>, c: seq<T>)
    ensures a + [] + (b + c) == a + b + c
  {
  }

  lemma NoStart(items: seq<Item>, args: ScanArgs)
    requires Sorted(items) && args.startBound.None?
    ensures StartCut(InDirection(items, args), args, [], [], InDirection(items, args))
    ensures From(items, args, false) == [] + InDirection(items, args)
  {
    assert [] + [] + InDirection(items, args) == InDirection(items, args);
  }

  lemma ReversedParts<T>(a: seq<T>, m: seq<T>, c: seq<T>)
    requires |m| <= 1
    ensures Reversed(a + m + c) == Reversed(c) + m + Reversed(a)
  {
  }

  lemma ReversedUpTo<T>(a: seq<T>, m: seq<T>, c: seq<T>)
    requires |m| == 1
    ensures Reversed((a + m + c)[..|a| + 1]) == m + Reversed(a)
  {
    assert (a + m + c)[..|a| + 1] == a + m;
  }

  lemma FromCut(items: seq<Item>, args: ScanArgs, a: seq<Item>, m: seq<Item>, c: seq<Item>)
    requires args.startBound.Some? && Cut(items, args.startBound.value, a, m, c) && Sorted(items)
    requires LowerBound(KeysOf(items), args.startBound.value) == |a|
    ensures From(items, args, false) == if args.reverse then m + Reversed(a) else m + c
    ensures c != [] && m == [] && args.reverse ==> From(items, args, true) == [c[0]] + Reversed(a)
  {
    hide LowerBound, Sorted, Reversed, AllBelow, AllAbove;
    Halves(a, m, c);
    if m == [] {
      EmptySides(Reversed(a), Reversed(a));
      EmptySides(c, c);
      if c != [] { FirstOfThird(a, c); }
    } else {
      ReversedUpTo(a, m, c);
    }
    AtCut(items, args.startBound.value, a, m, c);
  }

  lemma Halves<T>(a: seq<T>, m: seq<T>, c: seq<T>)
    ensures (a + m + c)[..|a|] == a && (a + m + c)[|a|..] == m + c
  {
  }

  lemma FirstOfThird<T>(a: seq<T>, c: seq<T>)
    requires c != []
    ensures Reversed((a + [] + c)[..|a| + 1]) == [c[0]] + Reversed(a)
  {
    assert a + [] + c == a + [c[0]] + c[1..];
    ReversedUpTo(a, [c[0]], c[1..]);
  }

  lemma AtCut(items: seq<Item>, k: Key, a: seq<Item>, m: seq<Item>, c: seq<Item>)
    requires Cut(items, k, a, m, c)
    ensures |a| < |items| && items[|a|].key == k <==> m != []
    ensures |a| < |items| <==> m != [] || c != []
  {
    if m == [] && c != [] { assert items[|a|] == c[0]; }
  }

  lemma DirectedCut(items: seq<Item>, args: ScanArgs, a: seq<Item>, m: seq<Item>, c: seq<Item>)
    requires args.startBound.Some? && Cut(items, args.startBound.value, a, m, c) && Sorted(items)
    ensures var x := if args.reverse then Reversed(a) else c;
            && Directed(x, args) && Started(x, args) && Directed(m + x, args)
            && (args.startInclusive ==> Started(m + x, args))
            && NotStarted(if args.reverse then Reversed(c) else a, args)
            && (!args.startInclusive ==> NotStarted(m, args))
  {
    hide PastEnd;
    SortedParts(a + m, c);
    SortedParts(a, m);
    assert KeyAt(Pos(args.startBound.value)) == args.startBound.value;
  }

  /** Every scan that does not start in a gap between leaves returns the in-range
      items in its direction, from its offset on: all forward scans, and the
      reverse scans whose bound is absent, present, or inside a leaf. */
  lemma RowsAreWanted(items: seq<Item>, args: ScanArgs)
    requires Sorted(items)
    ensures Rows(items, args, false) == Wanted(items, args)
  {
    hide Upto, Drop, SkipStart, Filter, StartCut, From, Find, Reversed;
    var pre, mid, rest := StartCutAt(items, args);
    CutIs(InDirection(items, args), args, pre, mid, rest);
    RowsOfCut(args, pre, mid, rest);
  }

  lemma CutIs(s: seq<Item>, args: ScanArgs, pre: seq<Item>, mid: seq<Item>, rest: seq<Item>)
    requires StartCut(s, args, pre, mid, rest)
    ensures s == pre + mid + rest
  {
  }

  /** A reverse scan that starts in a gap returns what was asked for exactly when
      the item that it loses (offset zero) or repeats (a positive offset) is out of
      range or does not exist. */
  lemma GapRowsIff(items: seq<Item>, args: ScanArgs)
    requires Sorted(items) && args.reverse && args.startBound.Some? && Find(items, args.startBound.value).None?
    requires LowerBound(KeysOf(items), args.startBound.value) < |items|
    ensures var below := Reversed(items[..LowerBound(KeysOf(items), args.startBound.value)]);
            var n := if args.offset == 0 then 0 else args.offset - 1;
            Rows(items, args, true) == Wanted(items, args) <==> n >= |below| || PastEnd(args, below[n].key)
  {
    hide Upto, SkipStart, Filter, From, Find, LowerBound, PastEnd, BeforeStart, Directed, Started, Wanted, Drop,
      Reversed, Sorted;
    var k := args.startBound.value;
    var a, m, c := CutAt(items, k);
    OnCut(items, k, a, m, c, []);
    FromCut(items, args, a, m, c);
    DirectedCut(items, args, a, m, c);
    EmptySides(Reversed(a), Reversed(a));
    GapShape(items, args, a, m, c);
    GapStream(args, c[0], Reversed(a));
    RowsAreWanted(items, args);
    SkipStartNone(args, Drop(Reversed(a), args.offset));
    GapUpto(args, c[0], Reversed(a));
  }

  /** What it does return: nothing at all, or, with a positive offset, what a scan with
      an offset one smaller should. */
  lemma GapRowsAre(items: seq<Item>, args: ScanArgs)
    requires Sorted(items) && args.reverse && args.startBound.Some? && Find(items, args.startBound.value).None?
    requires LowerBound(KeysOf(items), args.startBound.value) < |items|
    ensures Rows(items, args, true) ==
              if args.offset == 0 then [] else Wanted(items, args.(offset := args.offset - 1))
  {
    hide Upto, SkipStart, Filter, From, Find, LowerBound, PastEnd, BeforeStart, Directed, Started, Wanted, Drop,
      Reversed, Sorted;
    var k := args.startBound.value;
    var a, m, c := CutAt(items, k);
    OnCut(items, k, a, m, c, []);
    FromCut(items, args, a, m, c);
    GapShape(items, args, a, m, c);
    GapStream(args, c[0], Reversed(a));
    StopsAtOnce(args, [c[0]] + Reversed(a));
    if args.offset > 0 {
      var less := args.(offset := args.offset - 1);
      FromCut(items, less, a, m, c);
      RowsAreWanted(items, less);
      RowsBelow(items, less, Reversed(a));
      UptoOffset(Drop(Reversed(a), less.offset), args, less.offset);
    }
  }

  lemma RowsBelow(items: seq<Item>, args: ScanArgs, below: seq<Item>)
    requires args.startBound.Some? && From(items, args, false) == [] + below
    requires forall i :: 0 <= i < |below| ==> below[i].key != args.startBound.value
    ensures Rows(items, args, false) == Upto(Drop(below, args.offset), args)
  {
    hide From, Upto, Drop, SkipStart;
    assert [] + below == below;
    NoneDropped(below, args.offset, args.startBound.value);
    SkipStartNone(args, Drop(below, args.offset));
  }

  lemma NoneDropped(s: seq<Item>, n: nat, k: Key)
    requires forall i :: 0 <= i < |s| ==> s[i].key != k
    ensures forall i :: 0 <= i < |Drop(s, n)| ==> Drop(s, n)[i].key != k
  {
  }

  lemma StopsAtOnce(args: ScanArgs, s: seq<Item>)
    requires s != [] && args.reverse && BeforeStart(args, s[0].key)
    ensures Upto(s, args) == []
  {
  }

  lemma UptoOffset(s: seq<Item>, args: ScanArgs, n: nat)
    ensures Upto(s, args.(offset := n)) == Upto(s, args)
  {
    UptoSame(s, args, args.(offset := n));
  }

  lemma GapShape(items: seq<Item>, args: ScanArgs, a: seq<Item>, m: seq<Item>, c: seq<Item>)
    requires args.startBound.Some? && args.reverse
    requires Cut(items, args.startBound.value, a, m, c) && m == [] && |a| < |items|
    ensures c != [] && items[..|a|] == a
    ensures forall i :: 0 <= i < |Reversed(a)| ==> Reversed(a)[i].key != args.startBound.value
    ensures c[0].key != args.startBound.value && BeforeStart(args, c[0].key)
  {
  }

  lemma SkipStartNone(args: ScanArgs, s: seq<Item>)
    requires forall i :: 0 <= i < |s| ==> args.startBound.Some? && s[i].key != args.startBound.value
    ensures SkipStart(s, args) == s
  {
  }

  lemma GapStream(args: ScanArgs, x: Item, below: seq<Item>)
    requires args.startBound.Some? && x.key != args.startBound.value
    requires forall i :: 0 <= i < |below| ==> below[i].key != args.startBound.value
    ensures SkipStart(Drop([x] + below, args.offset), args)
         == if args.offset == 0 then [x] + below else Drop(below, args.offset - 1)
    ensures forall i :: 0 <= i < |Drop(below, args.offset)| ==> Drop(below, args.offset)[i].key != args.startBound.value
  {
    var n := args.offset;
    if n > 0 && n - 1 <= |below| {
      assert ([x] + below)[n..] == below[n - 1..];
    }
  }

  lemma GapUpto(args: ScanArgs, x: Item, below: seq<Item>)
    requires args.reverse && BeforeStart(args, x.key) && Started(below, args) && Directed(below, args)
    ensures var n := if args.offset == 0 then 0 else args.offset - 1;
            var got := if args.offset == 0 then [x] + below else Drop(below, args.offset - 1);
            Upto(got, args) == Upto(Drop(below, args.offset), args) <==> n >= |below| || PastEnd(args, below[n].key)
  {
    hide BeforeStart, PastEnd;
    if args.offset == 0 {
      assert Upto([x] + below, args) == [];
      assert Drop(below, 0) == below;
    } else {
      var n := args.offset - 1;
      if n < |below| {
        var s := Drop(below, n);
        assert s[0] == below[n];
        assert s[1..] == Drop(below, n + 1);
        if !PastEnd(args, below[n].key) {
          assert Upto(s, args) == [s[0]] + Upto(s[1..], args);
          assert |Upto(s, args)| == 1 + |Upto(s[1..], args)|;
        } else {
          DropStops(args, below, n);
          DirectedMonotone(below, args);
          UptoDrop(below, args, n);
          UptoDrop(below, args, n + 1);
        }
      }
    }
  }

  lemma DropStops(args: ScanArgs, below: seq<Item>, n: nat)
    requires n < |below| && Stops(args, below[n].key)
    ensures Upto(Drop(below, n), args) == []
  {
  }

  // ----- pages

  datatype ScanPage = ScanPage(
    items: seq<Item>, hasNextPage: bool, hasPreviousPage: bool,
    nextPageCursor: Option<Key>, previousPageCursor: Option<Key>)

  ghost function FirstKey(s: seq<Item>): Option<Key> {
    if s == [] then None else Some(s[0].key)
  }

  /** The page of `scan`: its cursor is the first key of the next page. */
  ghost function PageOf(rows: seq<Item>, args: ScanArgs): ScanPage {
    var hasPrevious := args.offset > 0 || args.startBound.Some?;
    if args.limit.None? then ScanPage(rows, false, hasPrevious, None, FirstKey(rows))
    else if args.limit.value == 0 then ScanPage([], false, hasPrevious, None, None)
    else if |rows| > args.limit.value
    then ScanPage(rows[..args.limit.value], true, hasPrevious, Some(rows[args.limit.value].key), FirstKey(rows))
    else ScanPage(rows, false, hasPrevious, None, FirstKey(rows))
  }

  /** The page of `scan_sync`: its cursor is the last key of this page. */
  ghost function PageSyncOf(rows: seq<Item>, args: ScanArgs): ScanPage {
    var hasPrevious := args.offset > 0 || (args.startBound.Some? && args.reverse);
    if args.limit.Some? && |rows| > args.limit.value
    then ScanPage(rows[..args.limit.value], true, hasPrevious,
      (if args.limit.value == 0 then None else Some(rows[args.limit.value - 1].key)), FirstKey(rows))
    else ScanPage(rows, false, hasPrevious, None, FirstKey(rows))
  }

  /** The arguments for the page after one that ended in a cursor: inclusive from
      the cursor of `scan`, exclusive from the cursor of `scan_sync`. */
  ghost function NextArgs(args: ScanArgs, cursor: Key, inclusive: bool): ScanArgs {
    args.(startBound := Some(cursor), startInclusive := inclusive, offset := 0)
  }

  /** A stream is a suffix of the items, or a reversed prefix of them. */
  ghost function RunFrom(items: seq<Item>, args: ScanArgs, b: nat): seq<Item>
    requires b <= |items|
  {
    if args.reverse then Reversed(items[..b]) else items[b..]
  }

  lemma StreamIsRun(items: seq<Item>, args: ScanArgs, gap: bool) returns (b: nat)
    requires gap ==> args.startBound.Some? && LowerBound(KeysOf(items), args.startBound.value) < |items|
    ensures b <= |items| && Stream(items, args, gap) == RunFrom(items, args, b)
  {
    hide RunFrom, From, Drop, LowerBound;
    b := FromIsRun(items, args, gap);
    b := RunDropped(items, args, b, args.offset);
    if Stream(items, args, gap) != RunFrom(items, args, b) {
      RunLength(items, args, b);
      b := RunDropped(items, args, b, 1);
      DropOne(Drop(From(items, args, gap), args.offset));
    }
  }

  lemma FromIsRun(items: seq<Item>, args: ScanArgs, gap: bool) returns (b: nat)
    requires gap ==> args.startBound.Some? && LowerBound(KeysOf(items), args.startBound.value) < |items|
    ensures b <= |items| && From(items, args, gap) == RunFrom(items, args, b)
  {
    hide LowerBound, Reversed;
    if args.startBound.None? {
      b := if args.reverse then |items| else 0;
      assert items[..|items|] == items && items[0..] == items;
    } else {
      var p := LowerBound(KeysOf(items), args.startBound.value);
      b := if args.reverse && (gap || (p < |items| && items[p].key == args.startBound.value)) then p + 1 else p;
    }
  }

  lemma RunLength(items: seq<Item>, args: ScanArgs, b: nat)
    requires b <= |items|
    ensures |RunFrom(items, args, b)| == if args.reverse then b else |items| - b
  {
  }

  lemma DropOne<T>(s: seq<T>)
    requires s != []
    ensures Drop(s, 1) == s[1..]
  {
  }

  /** Dropping from a run gives a run. */
  lemma RunDropped(items: seq<Item>, args: ScanArgs, b: nat, n: nat) returns (c: nat)
    requires b <= |items|
    ensures c <= |items| && Drop(RunFrom(items, args, b), n) == RunFrom(items, args, c)
  {
    if args.reverse {
      c := if n <= b then b - n else 0;
      ReversedDropped(items, b, c);
    } else {
      c := if b + n <= |items| then b + n else |items|;
    }
  }

  lemma ReversedDropped<T>(s: seq<T>, b: nat, c: nat)
    requires c <= b <= |s|
    ensures Reversed(s[..b])[b - c..] == Reversed(s[..c])
  {
  }

  lemma UptoWithin(s: seq<Item>, args: ScanArgs, n: nat)
    requires n <= |Upto(s, args)|
    ensures n <= |s| && Upto(s[n..], args) == Upto(s, args)[n..]
  {
    hide Upto, Stops;
    UptoPrefix(s, args);
    var m := |Upto(s, args)|;
    assert forall i :: 0 <= i < |s| - n ==> s[n..][i] == s[n + i];
    UptoIs(s[n..], args, m - n);
    assert s[n..][..m - n] == s[..m][n..];
  }

  lemma {:induction false} UptoSame(s: seq<Item>, args: ScanArgs, args': ScanArgs)
    requires forall i :: 0 <= i < |s| ==> (Stops(args, s[i].key) <==> Stops(args', s[i].key))
    ensures Upto(s, args) == Upto(s, args')
    decreases |s|
  {
    hide Stops;
    if s != [] { UptoSame(s[1..], args, args'); }
  }

  /** The position in the items of row `n` of a run. */
  ghost function RowIndex(args: ScanArgs, b: nat, n: nat): int {
    if args.reverse then b - 1 - n else b + n
  }

  lemma RunAt(items: seq<Item>, args: ScanArgs, b: nat, n: nat)
    requires b <= |items| && n < |RunFrom(items, args, b)|
    ensures 0 <= RowIndex(args, b, n) < |items| && RunFrom(items, args, b)[n] == items[RowIndex(args, b, n)]
  {
  }

  lemma RunTail(items: seq<Item>, args: ScanArgs, b: nat, n: nat)
    requires b <= |items| && n <= |RunFrom(items, args, b)|
    ensures var c := if args.reverse then b - n else b + n;
            0 <= c <= |items| && RunFrom(items, args, b)[n..] == RunFrom(items, args, c)
  {
    if args.reverse { ReversedDropped(items, b, b - n); }
  }

  lemma RestartFrom(items: seq<Item>, args: ScanArgs, i: nat, inclusive: bool)
    requires Sorted(items) && i < |items|
    ensures From(items, NextArgs(args, items[i].key, inclusive), false)
         == RunFrom(items, args, if args.reverse then i + 1 else i)
  {
    hide LowerBound, Sorted, Reversed, Find;
    FoundAt(items, i);
  }

  /** A scan restarted at a row goes on with exactly the run from that row, or from
      the one after it when the row is excluded. */
  lemma RestartedStream(items: seq<Item>, args: ScanArgs, b: nat, n: nat, inclusive: bool)
    requires Sorted(items) && b <= |items| && n < |RunFrom(items, args, b)|
    ensures Stream(items, NextArgs(args, RunFrom(items, args, b)[n].key, inclusive), false)
         == RunFrom(items, args, b)[if inclusive then n else n + 1..]
  {
    hide LowerBound, Sorted, RunFrom, From;
    var run := RunFrom(items, args, b);
    RunAt(items, args, b, n);
    RestartFrom(items, args, RowIndex(args, b, n), inclusive);
    RunTail(items, args, b, n);
    assert run[n..][0] == run[n];
    assert run[n..][1..] == run[n + 1..];
    assert Drop(run[n..], 0) == run[n..];
  }

  /** The bound checks agree from the restart on. */
  lemma RestartedStops(items: seq<Item>, args: ScanArgs, b: nat, n: nat, inclusive: bool)
    requires Sorted(items) && b <= |items| && n < |RunFrom(items, args, b)|
    requires !Stops(args, RunFrom(items, args, b)[n].key)
    ensures var run := RunFrom(items, args, b);
            var args' := NextArgs(args, run[n].key, inclusive);
            forall j :: (if inclusive then n else n + 1) <= j < |run| ==>
                          (Stops(args, run[j].key) <==> Stops(args', run[j].key))
  {
    var run := RunFrom(items, args, b);
    forall j | (if inclusive then n else n + 1) <= j < |run|
      ensures Stops(args, run[j].key) <==> Stops(NextArgs(args, run[n].key, inclusive), run[j].key)
    {
      if args.reverse {
        assert run[j] == items[b - 1 - j] && run[n] == items[b - 1 - n];
        assert KeyAt(Pos(run[j].key)) == run[j].key && KeyAt(Pos(run[n].key)) == run[n].key;
      }
    }
  }

  /** The rows of the next page's scan are exactly the rows still to come. */
  lemma NextPageRows(items: seq<Item>, args: ScanArgs, gap: bool, n: nat, inclusive: bool)
    requires gap ==> args.startBound.Some? && LowerBound(KeysOf(items), args.startBound.value) < |items|
    requires Sorted(items) && n < |Rows(items, args, gap)|
    ensures Rows(items, NextArgs(args, Rows(items, args, gap)[n].key, inclusive), false)
         == Rows(items, args, gap)[if inclusive then n else n + 1..]
  {
    hide Stream, Upto, Stops, RunFrom, LowerBound, Sorted, NextArgs, RowIndex;
    var b := StreamIsRun(items, args, gap);
    var run := RunFrom(items, args, b);
    UptoPrefix(run, args);
    var args' := NextArgs(args, run[n].key, inclusive);
    var m := if inclusive then n else n + 1;
    RestartedStream(items, args, b, n, inclusive);
    RestartedStops(items, args, b, n, inclusive);
    assert forall j :: 0 <= j < |run| - m ==> run[m..][j] == run[m + j];
    UptoSame(run[m..], args, args');
    UptoWithin(run, args, m);
  }

  ghost predicate GapFits(items: seq<Item>, args: ScanArgs, gap: bool) {
    gap ==> args.startBound.Some? && LowerBound(KeysOf(items), args.startBound.value) < |items|
  }

  // ----- what is wanted, in plain terms

  /** The key is in the range: between the bounds, each with or without itself. Going
      backwards the start bound is the upper one. */
  ghost predicate Asked(args: ScanArgs, k: Key) {
    var lower, lowerIncluded := if args.reverse then args.endBound else args.startBound,
                                if args.reverse then args.endInclusive else args.startInclusive;
    var upper, upperIncluded := if args.reverse then args.startBound else args.endBound,
                                if args.reverse then args.startInclusive else args.endInclusive;
    && (lower.Some? ==> LexLess(lower.value, k) || (lowerIncluded && k == lower.value))
    && (upper.Some? ==> LexLess(k, upper.value) || (upperIncluded && k == upper.value))
  }

  ghost predicate InOrder(s: seq<Item>, reverse: bool) {
    forall i, j :: 0 <= i < j < |s| ==> if reverse then KeyLess(s[j].key, s[i].key) else KeyLess(s[i].key, s[j].key)
  }

  lemma AskedIs(args: ScanArgs, k: Key)
    ensures InBounds(args, k) <==> Asked(args, k)
  {
    if args.startBound.Some? { LexIsTotalOrder(args.startBound.value, k, k); }
    if args.endBound.Some? { LexIsTotalOrder(args.endBound.value, k, k); }
    assert forall b :: KeyLess(k, b) == LexLess(k, b) && KeyLess(b, k) == LexLess(b, k);
  }

  lemma {:induction false} FilterKeeps(s: seq<Item>, args: ScanArgs)
    ensures forall x :: x in Filter(s, args) <==> x in s && InBounds(args, x.key)
    ensures InOrder(s, args.reverse) ==> InOrder(Filter(s, args), args.reverse)
    decreases |s|
  {
    hide InBounds;
    if s != [] {
      FilterKeeps(s[1..], args);
      assert forall x :: x in s <==> x == s[0] || x in s[1..];
      if InOrder(s, args.reverse) { HeadInOrder(s, args.reverse, Filter(s[1..], args)); }
    }
  }

  lemma HeadInOrder(s: seq<Item>, reverse: bool, rest: seq<Item>)
    requires s != [] && InOrder(s, reverse) && (forall x :: x in rest ==> x in s[1..])
    ensures InOrder(s[1..], reverse) && (InOrder(rest, reverse) ==> InOrder([s[0]] + rest, reverse))
  {
    forall j | 0 <= j < |rest|
      ensures if reverse then KeyLess(rest[j].key, s[0].key) else KeyLess(s[0].key, rest[j].key)
    {
      assert rest[j] in rest;
      var m :| 0 <= m < |s[1..]| && s[1..][m] == rest[j];
      assert s[m + 1] == rest[j];
    }
  }

  lemma OrderOf(items: seq<Item>)
    requires Sorted(items)
    ensures InOrder(items, false) && InOrder(Reversed(items), true)
  {
  }

  lemma ReversedHas(items: seq<Item>)
    ensures forall x :: x in Reversed(items) <==> x in items
  {
    var r := Reversed(items);
    forall x | x in items
      ensures x in r
    {
      var i :| 0 <= i < |items| && items[i] == x;
      assert r[|items| - 1 - i] == x;
    }
  }

  /** What is wanted: the items with a key in the range, in scan direction, without the
      first ones. These are as many as the offset says, or one fewer when the start key
      is there, is excluded and the offset is positive. */
  lemma WantedIs(items: seq<Item>, args: ScanArgs)
    requires Sorted(items)
    ensures var all := Wanted(items, args.(offset := 0));
            && (forall x :: x in all <==> x in items && Asked(args, x.key)) && InOrder(all, args.reverse)
            && var atStart := args.startBound.Some? && exists x :: x in items && x.key == args.startBound.value;
               var n := if args.offset > 0 && atStart && !args.startInclusive then args.offset - 1 else args.offset;
               Wanted(items, args) == if n <= |all| then all[n..] else []
  {
    hide Filter, Find, InBounds, Asked;
    var s := if args.reverse then Reversed(items) else items;
    OrderOf(items);
    ReversedHas(items);
    FilterKeeps(s, args);
    FilterSame(s, args);
    forall x
      ensures x in Filter(s, args) <==> x in items && Asked(args, x.key)
    {
      AskedIs(args, x.key);
    }
    if args.startBound.Some? { FoundIsThere(items, args.startBound.value); }
  }

  /** The offset has no part in the range. */
  lemma {:induction false} FilterSame(s: seq<Item>, args: ScanArgs)
    ensures Filter(s, args.(offset := 0)) == Filter(s, args)
    decreases |s|
  {
    if s != [] { FilterSame(s[1..], args); }
  }

  lemma FoundIsThere(items: seq<Item>, k: Key)
    requires Sorted(items)
    ensures Find(items, k).Some? <==> exists x :: x in items && x.key == k
  {
    hide Find, Sorted;
    MapAt(items, k);
    if k in KeysOf(items) {
      var i :| 0 <= i < |items| && KeysOf(items)[i] == k;
      assert items[i] in items && items[i].key == k;
    }
    if x :| x in items && x.key == k {
      var i :| 0 <= i < |items| && items[i] == x;
      assert KeysOf(items)[i] == k;
    }
  }

  // ----- pages, field by field

  /** A page of `scan`: its rows, the key of the row after it as the cursor, and its
      first key; it has a page before it when there is an offset or a start bound. */
  lemma PageFields(rows: seq<Item>, args: ScanArgs)
    ensures var page := PageOf(rows, args);
            var n := if args.limit.Some? && args.limit.value < |rows| then args.limit.value else |rows|;
            && page.items == rows[..n]
            && (page.hasNextPage <==> n < |rows| && n > 0)
            && (page.hasPreviousPage <==> args.offset > 0 || args.startBound.Some?)
            && page.nextPageCursor == (if n < |rows| && n > 0 then Some(rows[n].key) else None)
            && page.previousPageCursor == (if n > 0 then Some(rows[0].key) else None)
  {
  }

  /** A page of `scan_sync`: its last key is the cursor, a limit of zero announces rows
      too, and only a reverse scan with a start bound, or an offset, has a page before. */
  lemma PageSyncFields(rows: seq<Item>, args: ScanArgs)
    ensures var page := PageSyncOf(rows, args);
            var n := if args.limit.Some? && args.limit.value < |rows| then args.limit.value else |rows|;
            && page.items == rows[..n]
            && (page.hasNextPage <==> n < |rows|)
            && (page.hasPreviousPage <==> args.offset > 0 || (args.startBound.Some? && args.reverse))
            && page.nextPageCursor == (if 0 < n < |rows| then Some(rows[n - 1].key) else None)
            && page.previousPageCursor == (if rows != [] then Some(rows[0].key) else None)
  {
  }
}
