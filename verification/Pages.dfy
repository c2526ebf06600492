/** The page functions of the tree, proved against the pages that `Scans`
    specifies. */
module Pages {
  import opened Keys
  import opened Items
  import opened Nodes
  import opened Trees
  import opened Store
  import opened Scans
  import opened Prolly
  import opened Cursors
  import opened Gaps

  /** The rows of a scan of a tree. */
  ghost function RowsIn(t: Option<Tree>, args: ScanArgs): seq<Item>
    requires GapFits(ItemsIn(t), args, GapIn(t, args))
  {
    Rows(ItemsIn(t), args, GapIn(t, args))
  }

  /** What the scan does with the items ahead of it. */
  lemma UptoStep(s: seq<Item>, args: ScanArgs)
    ensures Upto(s, args) == [] <==> s == [] || Stops(args, s[0].key)
    ensures Upto(s, args) != [] ==> Upto(s, args) == [s[0]] + Upto(s[1..], args)
  {
  }

  lemma Fetched(got: seq<Item>, x: Item, rest: seq<Item>)
    ensures got + ([x] + rest) == got + [x] + rest
    ensures FirstKey(got).None? <==> got == []
    ensures FirstKey(got + [x]) == if got == [] then Some(x.key) else FirstKey(got)
  {
    if got != [] { assert (got + [x])[0] == got[0]; }
  }

  lemma RowsAre(t: Option<Tree>, args: ScanArgs)
    requires GapFits(ItemsIn(t), args, GapIn(t, args))
    ensures RowsIn(t, args) == Upto(Stream(ItemsIn(t), args, GapIn(t, args)), args)
    ensures RowsIn(t, args) == [] + RowsIn(t, args) && FirstKey([]) == None
  {
  }

  /** The page, from what the loop of `scan` has fetched: `rest` is what follows. */
  lemma ScanEnds(rows: seq<Item>, args: ScanArgs, got: seq<Item>, rest: seq<Item>, nextItem: Option<Item>)
    requires rows == got + rest && (args.limit.Some? ==> |got| <= args.limit.value)
    requires args.limit == Some(0) ==> got == [] && nextItem.None?
    requires nextItem.Some? ==> args.limit == Some(|got|) && rest != [] && rest[0] == nextItem.value
    requires nextItem.None? ==> args.limit == Some(0) || rest == []
    ensures PageOf(rows, args) == ScanPage(got, nextItem.Some?, args.offset > 0 || args.startBound.Some?,
      if nextItem.Some? then Some(nextItem.value.key) else None, FirstKey(got))
  {
    if nextItem.Some? { assert rows[|got|] == rest[0]; }
  }

  /** The page, from what the loop of `scan_sync` has fetched. */
  lemma ScanSyncEnds(rows: seq<Item>, args: ScanArgs, got: seq<Item>, rest: seq<Item>)
    requires rows == got + rest
    requires if args.limit.Some? && |got| > args.limit.value then |got| == args.limit.value + 1 else rest == []
    ensures var more := args.limit.Some? && |got| > args.limit.value;
            var page := if more then got[..|got| - 1] else got;
            PageSyncOf(rows, args) == ScanPage(page, more, args.offset > 0 || (args.startBound.Some? && args.reverse),
              if more && |page| > 0 then Some(page[|page| - 1].key) else None, FirstKey(got))
  {
    if got != [] { assert rows[0] == got[0]; }
  }

  /** A page of `scan`. It fetches one item more than it returns and makes the key
      of that item the cursor. */
  method Scan(tree: ProllyTree, args: ScanArgs) returns (r: Result<ScanPage>)
    requires tree.Valid()
    ensures GapFits(ItemsIn(tree.tree), args, GapIn(tree.tree, args))
    ensures r == Ok(PageOf(RowsIn(tree.tree, args), args))
  {
    hide *;
    var created := Cursor.NewForScan(tree, args);
    match created { case Err(error) => return Err(error); case Ok(_) => }
    var cursor := created.value;
    ghost var rows := RowsIn(tree.tree, args);
    ghost var rest := rows;
    RowsAre(tree.tree, args);
    var itemsToFetch: Option<nat> :=
      match args.limit { case None => None case Some(limit) => Some(if limit > 0 then limit + 1 else 0) };
    var collected: seq<Item>, firstItemKey: Option<Key>, nextItem: Option<Item> := [], None, None;
    if itemsToFetch != Some(0) {
      var i := 0;
      while itemsToFetch.None? || i < itemsToFetch.value
        invariant cursor.Valid(args) && i == |collected|
        invariant collected + Upto(cursor.Pending(args), args) == rows && firstItemKey == FirstKey(collected)
        invariant args.limit.Some? ==> |collected| <= args.limit.value
        invariant nextItem.None?
        decreases |cursor.Pending(args)|
      {
        UptoStep(cursor.Pending(args), args);
        ghost var pending := cursor.Pending(args);
        rest := Upto(pending, args);
        var next := cursor.NextInScan(args);
        match next {
          case Err(error) => return Err(error);
          case Ok(None) => break;
          case Ok(Some(item)) =>
            Fetched(collected, item, Upto(pending[1..], args));
            if firstItemKey.None? { firstItemKey := Some(item.key); }
            if itemsToFetch.Some? && |collected| < args.limit.value {
              collected := collected + [item];
            } else if itemsToFetch.Some? && |collected| == args.limit.value {
              nextItem := Some(item);
              break;
            } else if itemsToFetch.None? {
              collected := collected + [item];
            }
        }
        i := i + 1;
      }
    }
    var hasPrevious := args.offset > 0 || (args.startBound.Some? && args.offset == 0);
    ScanEnds(rows, args, collected, rest, nextItem);
    return Ok(ScanPage(collected, nextItem.Some?, hasPrevious,
      if nextItem.Some? then Some(nextItem.value.key) else None, firstItemKey));
  }

  /** A page of `scan_sync`. It fetches one item too many as well, drops it, and
      makes the last key of the page the cursor. */
  method ScanSync(tree: ProllyTree, args: ScanArgs) returns (r: Result<ScanPage>)
    requires tree.Valid()
    ensures GapFits(ItemsIn(tree.tree), args, GapIn(tree.tree, args))
    ensures r == Ok(PageSyncOf(RowsIn(tree.tree, args), args))
  {
    hide *;
    var created := Cursor.NewForScan(tree, args);
    match created { case Err(error) => return Err(error); case Ok(_) => }
    var cursor := created.value;
    ghost var rows := RowsIn(tree.tree, args);
    ghost var rest := rows;
    RowsAre(tree.tree, args);
    var collected: seq<Item>, firstItemKey: Option<Key> := [], None;
    while args.limit.None? || |collected| < args.limit.value + 1
      invariant cursor.Valid(args)
      invariant collected + Upto(cursor.Pending(args), args) == rows && firstItemKey == FirstKey(collected)
      invariant args.limit.Some? ==> |collected| <= args.limit.value + 1
      decreases |cursor.Pending(args)|
    {
      UptoStep(cursor.Pending(args), args);
      ghost var pending := cursor.Pending(args);
      rest := Upto(pending, args);
      var next := cursor.NextInScan(args);
      match next {
        case Err(error) => return Err(error);
        case Ok(None) => break;
        case Ok(Some(item)) =>
          Fetched(collected, item, Upto(pending[1..], args));
          if firstItemKey.None? { firstItemKey := Some(item.key); }
          collected := collected + [item];
      }
    }
    var hasNextPage := false;
    ScanSyncEnds(rows, args, collected, Upto(cursor.Pending(args), args));
    if args.limit.Some? && |collected| > args.limit.value {
      hasNextPage := true;
      collected := collected[..|collected| - 1];
    }
    var cursorKey: Option<Key> :=
      if hasNextPage && |collected| > 0 then Some(collected[|collected| - 1].key) else None;
    var hasPrevious := args.offset > 0 || (args.startBound.Some? && args.reverse);
    return Ok(ScanPage(collected, hasNextPage, hasPrevious, cursorKey, firstItemKey));
  }

  // ----- following the pages of a tree

  ghost predicate Whole(cfg: TreeConfig, t: Option<Tree>) {
    cfg.Valid() && (t.Some? ==> WellFormed(cfg, t.value))
  }

  lemma WholeFits(cfg: TreeConfig, t: Option<Tree>, args: ScanArgs)
    requires Whole(cfg, t)
    ensures Sorted(ItemsIn(t)) && GapFits(ItemsIn(t), args, GapIn(t, args))
  {
    hide GapFits, RootShape, ItemsOf, BetweenLeaves, LeavesOf, Rows, Wanted;
    if t.Some? { ScanMeaning(cfg, t.value, args); } else { NothingFits(args); }
  }

  lemma NothingFits(args: ScanArgs)
    ensures GapFits([], args, false)
  {
  }

  /** The rows of a tree, in every case: what is wanted, but for a reverse scan from a
      gap, which has none, or those of an offset one smaller; none of an empty tree. */
  lemma RowsInTree(cfg: TreeConfig, t: Tree, args: ScanArgs)
    requires cfg.Valid() && WellFormed(cfg, t)
    ensures GapFits(ItemsIn(Some(t)), args, GapIn(Some(t), args)) && GapFits(ItemsIn(None), args, GapIn(None, args))
    ensures RowsIn(Some(t), args) ==
              if !StartsInGap(t, args) then Wanted(ItemsOf(t), args)
              else if args.offset == 0 then [] else Wanted(ItemsOf(t), args.(offset := args.offset - 1))
    ensures RowsIn(None, args) == []
  {
    hide Rows, ItemsOf, StartsInGap, Wanted, Sorted, RootShape;
    ScanRows(cfg, t, args);
    NoRows(args);
  }

  lemma NoRows(args: ScanArgs)
    ensures Rows([], args, false) == []
  {
    hide LowerBound;
  }

  /** Going on from a row, with it or after it, a scan of the same tree returns
      exactly the rows that were still to come. */
  lemma RowsGoOn(cfg: TreeConfig, t: Option<Tree>, args: ScanArgs, n: nat, inclusive: bool)
    requires Whole(cfg, t) && GapFits(ItemsIn(t), args, GapIn(t, args)) && n < |RowsIn(t, args)|
    ensures var next := NextArgs(args, RowsIn(t, args)[n].key, inclusive);
            && GapFits(ItemsIn(t), next, GapIn(t, next))
            && RowsIn(t, next) == RowsIn(t, args)[if inclusive then n else n + 1..]
  {
    hide Rows, RootShape, ItemsOf, StartsInGap, Wanted, NextArgs, Sorted;
    var next := NextArgs(args, RowsIn(t, args)[n].key, inclusive);
    WholeFits(cfg, t, args);
    WholeFits(cfg, t, next);
    NextPageRows(ItemsIn(t), args, GapIn(t, args), n, inclusive);
    if t.Some? { RestartHasNoGap(cfg, t.value, args, n, inclusive); }
  }

  /** The page of a tree that `scan_sync` (or else `scan`) returns. */
  ghost function PageIn(t: Option<Tree>, args: ScanArgs, sync: bool): ScanPage
    requires GapFits(ItemsIn(t), args, GapIn(t, args))
  {
    if sync then PageSyncOf(RowsIn(t, args), args) else PageOf(RowsIn(t, args), args)
  }

  /** A page with a cursor takes the first rows and leaves the others to the next. */
  lemma PageLeaves(cfg: TreeConfig, t: Option<Tree>, args: ScanArgs, sync: bool)
    requires Whole(cfg, t) && GapFits(ItemsIn(t), args, GapIn(t, args)) && PageIn(t, args, sync).nextPageCursor.Some?
    ensures var page := PageIn(t, args, sync);
            var next := NextArgs(args, page.nextPageCursor.value, !sync);
            && GapFits(ItemsIn(t), next, GapIn(t, next))
            && page.items + RowsIn(t, next) == RowsIn(t, args) && |RowsIn(t, next)| < |RowsIn(t, args)|
  {
    hide RowsIn, NextArgs, Whole;
    var n := args.limit.value;
    RowsGoOn(cfg, t, args, if sync then n - 1 else n, !sync);
    var rows := RowsIn(t, args);
    assert rows[..n] + rows[n..] == rows;
  }

  /** All pages of a scan of a tree, each from the cursor of the one before. */
  ghost function AllPages(cfg: TreeConfig, t: Option<Tree>, args: ScanArgs, sync: bool): seq<Item>
    requires Whole(cfg, t) && GapFits(ItemsIn(t), args, GapIn(t, args))
    decreases |RowsIn(t, args)|
  {
    hide *;
    var page := PageIn(t, args, sync);
    if page.nextPageCursor.None? then page.items
    else
      PageLeaves(cfg, t, args, sync);
      page.items + AllPages(cfg, t, NextArgs(args, page.nextPageCursor.value, !sync), sync)
  }

  /** Pagination tiles the range: on every tree the pages join to the rows of the
      unlimited scan, without a gap or a repeat, in either direction and for both
      kinds of page; and a page announces another one exactly when rows are left. */
  lemma {:induction false} PagesTile(cfg: TreeConfig, t: Option<Tree>, args: ScanArgs, sync: bool)
    requires Whole(cfg, t) && args.limit.Some? && args.limit.value > 0 && GapFits(ItemsIn(t), args, GapIn(t, args))
    ensures AllPages(cfg, t, args, sync) == RowsIn(t, args)
    ensures var page := PageIn(t, args, sync);
            && page.items <= RowsIn(t, args)
            && (page.hasNextPage <==> page.items != RowsIn(t, args))
            && (page.hasNextPage <==> page.nextPageCursor.Some?)
    decreases |RowsIn(t, args)|
  {
    hide RowsIn, Whole, GapFits;
    var page := PageIn(t, args, sync);
    if page.nextPageCursor.Some? {
      PageLeaves(cfg, t, args, sync);
      PagesTile(cfg, t, NextArgs(args, page.nextPageCursor.value, !sync), sync);
    }
  }

  /** So the pages of a tree join to what was asked for exactly under the condition
      for one scan: it concerns the first page alone. */
  lemma PagesMeaning(cfg: TreeConfig, t: Tree, args: ScanArgs, sync: bool)
    requires cfg.Valid() && WellFormed(cfg, t) && args.limit.Some? && args.limit.value > 0
    ensures NoneEmpty(LeavesOf(t)) && GapFits(ItemsOf(t), args, StartsInGap(t, args))
    ensures AllPages(cfg, Some(t), args, sync) == Wanted(ItemsOf(t), args) <==> LosesNothing(t, args)
  {
    hide Rows, RootShape, ItemsOf, LeavesOf, StartsInGap, Wanted, AllPages, LosesNothing, Sorted, GapFits, NoneEmpty, PageIn;
    ScanMeaning(cfg, t, args);
    PagesTile(cfg, Some(t), args, sync);
  }
}
