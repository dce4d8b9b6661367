/** Tables whose cells all have one size: new rows may go anywhere, with no assumption about splits. */
module FixedWidth {
  import opened Bytes
  import opened PageFormat
  import opened PageStore
  import opened TreeSpec
  import opened TreeKeys
  import opened TreeInsert
  import opened BTree
  import opened BTreeInsert
  import opened BTreeDelete
  import opened SplitFit
  import opened Table
  import opened AppendOnly

  /** Every row takes a cell of size `s` on its leaf. */
  ghost predicate OneSize(ps: nat, rows: seq<Row>, s: nat)
    requires PageSizeOk(ps)
  {
    forall r :: r in rows ==> InlineSize(ps, r.payload) == s
  }

  lemma RowCellSize(ps: nat, nodes: map<nat, Node>, r: Row)
    requires PageSizeOk(ps) && RowRepr(ps, nodes, r)
    ensures CellSize(CellOf(r)) == InlineSize(ps, r.payload)
  {
  }

  lemma LeafCellSizes(ps: nat, nodes: map<nat, Node>, t: Tree, lo: int, hi: int, s: nat)
    requires PageSizeOk(ps) && t.LeafT? && GoodOf(ps, nodes, [], [t], lo, hi, 0) && OneSize(ps, t.rows, s)
    ensures forall c :: c in CellsOf(t.rows) ==> CellSize(c) == s
  {
    hide RowRepr, CellOf, CellSize, InlineSize;
    LeafFacts(ps, nodes, t, lo, hi);
    forall c | c in CellsOf(t.rows) ensures CellSize(c) == s {
      var i :| 0 <= i < |t.rows| && CellsOf(t.rows)[i] == c;
      assert t.rows[i] in t.rows;
      RowCellSize(ps, nodes, t.rows[i]);
    }
  }

  lemma LeafCanInsert(ps: nat, nodes: map<nat, Node>, t: Tree, lo: int, hi: int, key: int, s: nat)
    requires PageSizeOk(ps) && t.LeafT? && GoodOf(ps, nodes, [], [t], lo, hi, 0) && LeavesFit(ps, nodes)
    requires OneSize(ps, t.rows, s) && key !in RowKeys(t.rows) && (t.rows != [] || lo < key) && s <= 12 + MaxInline(ps)
    ensures CanInsert(ps, nodes, t, key, s, lo)
  {
    hide GoodOf, SplitFits, LeafRoom, OneSize;
    PageKind(ps, nodes, t, lo, hi, 0);
    LeafRowsAre(ps, nodes, t, lo, hi);
    LeafCellSizes(ps, nodes, t, lo, hi, s);
    var cells := nodes[t.page].cells;
    LeafFits(ps, nodes, t.page);
    forall k: nat | IsUpperBound(CellKeys(cells), key, k) ensures SplitFits(ps, cells, k, s) {
      EqualSizeSplitFits(ps, cells, k, s);
    }
  }

  lemma KidOneSize(ps: nat, t: Tree, i: nat, s: nat)
    requires PageSizeOk(ps) && t.NodeT? && i < |t.kids| && OneSize(ps, Rows(t), s)
    ensures OneSize(ps, Rows(t.kids[i]), s)
  {
    hide RowsOf, InlineSize;
    forall r | r in Rows(t.kids[i]) ensures r in Rows(t) {
      var k :| 0 <= k < |Rows(t.kids[i])| && Rows(t.kids[i])[k] == r;
      RowOfChild(t, i, k);
    }
  }

  /** A new key meets every split hypothesis, whatever leaf it goes to. */
  lemma {:induction false} FixedCanInsert(
      ps: nat, nodes: map<nat, Node>, t: Tree, lo: int, hi: int, h: nat, key: int, s: nat)
    requires PageSizeOk(ps) && GoodOf(ps, nodes, [], [t], lo, hi, h) && LeavesFit(ps, nodes)
    requires OneSize(ps, Rows(t), s) && key !in RowKeys(Rows(t)) && s <= 12 + MaxInline(ps)
    requires NoEmptyLeaf(t) || (t.LeafT? && lo < key)
    ensures CanInsert(ps, nodes, t, key, s, lo)
    decreases t
  {
    hide GoodOf, LeavesFit, RowsOf, OneSize, RowKeys;
    PageKind(ps, nodes, t, lo, hi, h);
    if t.LeafT? {
      LeafCanInsert(ps, nodes, t, lo, hi, key, s);
    } else {
      NodeFacts(ps, nodes, t, lo, hi, h);
      forall i: nat | IsUpperBound(t.keys, key, i)
        ensures CanInsert(ps, nodes, t.kids[i], key, s, LowOf(t.keys, lo, i))
      {
        GoodChild(ps, nodes, t.keys, t.kids, lo, hi, h - 1, i);
        KidKeys(t, i, key);
        KidOneSize(ps, t, i, s);
        FixedCanInsert(ps, nodes, t.kids[i], LowOf(t.keys, lo, i), HighOf(t.keys, hi, i), h - 1, key, s);
      }
    }
  }

  /** Every payload of the table takes a cell of size `s`. */
  ghost predicate OneWidth(ps: nat, m: map<int, seq<byte>>, s: nat)
    requires PageSizeOk(ps)
  {
    forall k :: k in m ==> InlineSize(ps, m[k]) == s
  }

  lemma ModelOneSize(ps: nat, rows: seq<Row>, m: map<int, seq<byte>>, s: nat)
    requires PageSizeOk(ps) && IsModel(rows, m) && OneWidth(ps, m, s)
    ensures OneSize(ps, rows, s)
  {
    hide InlineSize;
    forall r | r in rows ensures InlineSize(ps, r.payload) == s {
      var i :| 0 <= i < |rows| && rows[i] == r;
      assert rows[i].key in m;
    }
  }

  /** Inserting a new rowid at any position of a table whose cells have one size needs only pages. */
  method InsertFixed(table: BTreeTable, rowid: int, payload: seq<byte>) returns (ok: bool)
    requires table.Valid() && Growing(table) && IsI64(rowid) && rowid !in table.model
    requires OneWidth(table.pager.ps, table.model, InlineSize(table.pager.ps, payload))
    requires |payload| < U32_LIMIT ==>
      table.pager.total + ChainLen(table.pager.ps, payload) + table.height + 2 <= MAX_PAGES
    modifies table, table.pager
    ensures table.Valid() && Growing(table)
    ensures OneWidth(table.pager.ps, table.model, InlineSize(table.pager.ps, payload))
    ensures ok <==> |payload| < U32_LIMIT
    ensures table.model == if ok then old(table.model)[rowid := payload] else old(table.model)
  {
    hide Pager.Valid, GoodOf, Linked, CanInsert, IsModel, LeavesFit, Increasing, OneSize;
    var pager := table.pager;
    if |payload| >= U32_LIMIT {
      return false;
    }
    PagesFit(pager);
    ghost var s := InlineSize(pager.ps, payload);
    ModelOneSize(pager.ps, Rows(table.tree), table.model, s);
    KeysOfModel(Rows(table.tree), table.model, rowid);
    FixedCanInsert(pager.ps, pager.nodes, table.tree, LO, HI, table.height, rowid, s);
    ghost var stray;
    ok, stray := table.Insert(rowid, payload);
  }
}
