/** Looking rows up from a root page that an update has replaced, as altering a table does. */
module StaleRoot {
  import opened Bytes
  import opened Options
  import opened PageFormat
  import opened PageStore
  import opened TreeSpec
  import opened TreeKeys
  import opened TreeInsert
  import opened BTreeInsert
  import opened BTreeDelete
  import opened BTreeRead
  import opened Table
  import opened AppendOnly

  /** A subtree is in order below any higher bound too. */
  lemma {:induction false} OrderedWiden(t: Tree, lo: int, hi: int, higher: int, h: nat)
    requires Ordered(t, lo, hi, h) && hi <= higher
    ensures Ordered(t, lo, higher, h)
    decreases t
  {
    if t.NodeT? {
      var m := |t.keys|;
      forall i | 0 <= i < |t.kids| ensures Ordered(t.kids[i], LowOf(t.keys, lo, i), HighOf(t.keys, higher, i), h - 1) {
        if i == m {
          OrderedWiden(t.kids[m], LowOf(t.keys, lo, m), hi, higher, h - 1);
        }
      }
    }
  }

  /** What the page that was the root is the root of now. */
  lemma OldRoot(ps: nat, nodes: map<nat, Node>, t: Tree, h: nat, page: nat)
    requires PageSizeOk(ps) && GoodOf(ps, nodes, [], [t], LO, HI, h) && Raised(t, page)
    ensures h > 0 && GoodOf(ps, nodes, [], [t.kids[0]], LO, HI, h - 1) && OrderedOf(t.keys, t.kids, LO, HI, h - 1)
    ensures t.keys[0] < HI && Ordered(t.kids[0], LO, t.keys[0], h - 1)
  {
    hide Repr, Separate, Ordered;
    NodeFacts(ps, nodes, t, LO, HI, h);
    var kid := t.kids[0];
    assert Ordered(kid, LowOf(t.keys, LO, 0), HighOf(t.keys, HI, 0), h - 1);
    GoodChild(ps, nodes, t.keys, t.kids, LO, HI, h - 1, 0);
    OrderedWiden(kid, LO, t.keys[0], HI, h - 1);
    GoodRepr(ps, nodes, kid, LO, t.keys[0], h - 1);
    SeparateAlone(ps, nodes, kid, LO, t.keys[0], h - 1);
    SingleRun(ps, nodes, kid, LO, HI, h - 1);
  }

  lemma SeparateAlone(ps: nat, nodes: map<nat, Node>, t: Tree, lo: int, hi: int, h: nat)
    requires PageSizeOk(ps) && GoodOf(ps, nodes, [], [t], lo, hi, h)
    ensures Separate(t)
  {
    assert Separate([t][0]);
  }

  /** The old root leads to exactly the rows below the separator of the new one. */
  lemma OldRootRows(t: Tree, h: nat, page: nat, rowid: int)
    requires Raised(t, page) && h > 0 && OrderedOf(t.keys, t.kids, LO, HI, h - 1)
    requires Ordered(t.kids[0], LO, t.keys[0], h - 1)
    ensures rowid in RowKeys(Rows(t.kids[0])) <==> rowid in RowKeys(Rows(t)) && rowid < t.keys[0]
  {
    hide Ordered, RowsOf, RowKeys;
    KeysInRange(t.kids[0], LO, t.keys[0], h - 1);
    KeysBelow(Rows(t.kids[0]), t.keys[0], rowid);
    if rowid !in RowKeys(Rows(t)) {
      KidKeys(t, 0, rowid);
    } else if rowid < t.keys[0] && rowid !in RowKeys(Rows(t.kids[0])) {
      KeyElsewhere(t, LO, HI, h, 0, rowid);
    }
  }

  lemma KeysBelow(rows: seq<Row>, bound: int, key: int)
    requires forall r :: r in rows ==> r.key < bound
    ensures key in RowKeys(rows) ==> key < bound
  {
    if key in RowKeys(rows) {
      var i :| 0 <= i < |rows| && RowKeys(rows)[i] == key;
      assert rows[i] in rows;
    }
  }

  /** Lookups from a replaced root find exactly the rows below the separator of the new root. */
  method FindFromOldRoot(table: BTreeTable, page: nat, rowid: int) returns (r: Option<seq<byte>>)
    requires table.Valid() && Raised(table.tree, page) && IsI64(rowid)
    ensures r ==
      if rowid in table.model && rowid < table.tree.keys[0] then Some(table.model[rowid]) else None
  {
    hide Pager.Valid, GoodOf, Linked, IsModel, Increasing, RowsOf, RowKeys, Ordered, OrderedOf;
    ghost var t, h := table.tree, table.height;
    OldRoot(table.pager.ps, table.pager.nodes, t, h, page);
    OldRootRows(t, h, page, rowid);
    KeysOfModel(Rows(t), table.model, rowid);
    ghost var k;
    r, k := FindByRowid(table.pager, page, rowid, t.kids[0], LO, HI, h - 1);
    if r.Some? {
      RowKeyAt(Rows(t.kids[0]), k);
      RowOfChild(t, 0, k);
      RowInModel(Rows(t), table.model, |RowsOf(t.kids[..0])| + k);
    }
  }

  /** With no leaf empty, such a row is lost. */
  lemma RowsAbove(t: Tree, h: nat, page: nat) returns (rowid: int)
    requires Raised(t, page) && h > 0 && OrderedOf(t.keys, t.kids, LO, HI, h - 1) && NoEmptyLeaf(t)
    ensures rowid in RowKeys(Rows(t)) && rowid >= t.keys[0]
  {
    hide RowsOf;
    NoEmptyRows(t.kids[1]);
    assert Ordered(t.kids[1], LowOf(t.keys, LO, 1), HighOf(t.keys, HI, 1), h - 1);
    KeysInRange(t.kids[1], t.keys[0], HI, h - 1);
    var row := Rows(t.kids[1])[0];
    assert row in Rows(t.kids[1]);
    rowid := row.key;
    RowOfChild(t, 1, 0);
    RowKeyAt(Rows(t), |RowsOf(t.kids[..1])|);
  }

  /**
   * Altering a table updates its rows one by one and goes on from the root it started with.  The
   * other rows are found from there exactly when the update did not replace the root, or, one by
   * one, exactly below its separator.
   */
  method UpdateAndFind(table: BTreeTable, rowid: int, payload: seq<byte>, other: int) returns (r: Option<seq<byte>>)
    requires table.Valid() && IsI64(rowid) && IsI64(other) && |payload| < U32_LIMIT
    requires CanUpdate(table.pager.ps, table.pager.nodes, table.tree, rowid, InlineSize(table.pager.ps, payload), LO)
    requires table.pager.total + ChainLen(table.pager.ps, payload) + table.height + 2 <= MAX_PAGES
    modifies table, table.pager
    ensures table.Valid() && table.model == old(table.model)[rowid := payload]
    ensures table.root == old(table.root) || Raised(table.tree, old(table.root))
    ensures (r == if other in table.model then Some(table.model[other]) else None) <==>
      (table.root == old(table.root) || other !in table.model || other < table.tree.keys[0])
  {
    hide Pager.Valid, GoodOf, Linked, IsModel, Increasing, CanUpdate, Others, Foot;
    var page := table.root;
    var _ := table.Update(rowid, payload);
    if table.root == page {
      r := table.Find(other);
    } else {
      r := FindFromOldRoot(table, page, other);
    }
  }
}
