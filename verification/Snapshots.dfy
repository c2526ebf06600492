/** Reading a version while the tree changes. */
module Snapshots {
  import opened Items
  import opened Nodes
  import opened Heights
  import opened Store
  import opened Prolly
  import opened Scans
  import opened Cursors
  import opened Pages

  /** Makes one change; it only adds to the store. */
  method MakeChange(tree: ProllyTree, change: Change)
    requires tree.Valid()
    modifies tree, tree.store
    ensures tree.Valid() && Consistent(tree.store.e, tree.store.data)
    ensures Extends(old(tree.store.data), tree.store.data)
  {
    hide Trusted, Denotes, Consistent, Extends, LowerPart, MapOf;
    match change {
      case Setting(key, value) => var _ := tree.Insert(key, value);
      case Removal(key) => var _ := tree.Delete(key);
    }
  }

  /** A scan with changes made between its steps returns the rows of the tree as it was
      when the scan began. */
  method ScanAcross(tree: ProllyTree, args: ScanArgs, changes: seq<Change>) returns (r: Result<seq<Item>>)
    requires tree.Valid()
    modifies tree, tree.store
    ensures tree.Valid() && GapFits(ItemsIn(old(tree.tree)), args, GapIn(old(tree.tree), args))
    ensures r == Ok(RowsIn(old(tree.tree), args))
  {
    hide *;
    var created := Cursor.NewForScan(tree, args);
    match created { case Err(error) => return Err(error); case Ok(_) => }
    var cursor := created.value;
    ghost var rows := RowsIn(tree.tree, args);
    RowsAre(tree.tree, args);
    var collected: seq<Item> := [];
    var i := 0;
    while true
      invariant tree.Valid() && cursor.Valid(args) && cursor.store == tree.store
      invariant collected + Upto(cursor.Pending(args), args) == rows
      decreases |cursor.Pending(args)|
    {
      if i < |changes| {
        label before:
        MakeChange(tree, changes[i]);
        cursor.StaysValid@before(args);
        i := i + 1;
      }
      UptoStep(cursor.Pending(args), args);
      ghost var pending := cursor.Pending(args);
      var next := cursor.NextInScan(args);
      match next {
        case Err(error) => return Err(error);
        case Ok(None) =>
          assert collected + [] == collected;
          break;
        case Ok(Some(item)) =>
          Fetched(collected, item, Upto(pending[1..], args));
          collected := collected + [item];
      }
    }
    return Ok(collected);
  }
}
