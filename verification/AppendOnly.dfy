/**
 * Tables that only grow at the end, as tables with generated rowids do: every insertion
 * succeeds with no assumption about splits, and the cursor lists the table.
 */
module AppendOnly {
  import opened Options
  import opened Bytes
  import opened PageFormat
  import opened PageStore
  import opened TreeSpec
  import opened TreeKeys
  import opened TreeInsert
  import opened BTree
  import opened BTreeInsert
  import opened BTreeDelete
  import opened BTreeRead
  import opened SplitFit
  import opened Table
  import opened Cursor

  ghost predicate AllBelow(rows: seq<Row>, key: int) { forall r :: r in rows ==> r.key < key }

  ghost predicate LeavesFit(ps: nat, nodes: map<nat, Node>)
  {
    forall n :: n in nodes && nodes[n].Leaf? ==> LeafRoom(ps, nodes[n].cells) >= 0
  }

  lemma {:induction false} NoEmptyRows(t: Tree)
    requires NoEmptyLeaf(t)
    ensures Rows(t) != []
    decreases t
  {
    if t.NodeT? {
      NoEmptyRows(t.kids[0]);
      RowsOfHead(t.kids);
    }
  }

  lemma KidBelow(t: Tree, i: nat, key: int)
    requires t.NodeT? && i < |t.kids| && AllBelow(Rows(t), key)
    ensures AllBelow(Rows(t.kids[i]), key)
  {
    hide RowsOf;
    NodeRows(t);
    RowsOfSplit(t.kids, i);
    var a, b, c := RowsOf(t.kids[..i]), Rows(t.kids[i]), RowsOf(t.kids[i + 1..]);
    forall r | r in b ensures r in Rows(t) {
      var j :| 0 <= j < |b| && b[j] == r;
      assert (a + b + c)[|a| + j] == r;
    }
  }

  /** A separator is at most a key of the child after it, so a key above all rows is above all separators. */
  lemma SeparatorBelow(ps: nat, nodes: map<nat, Node>, t: Tree, lo: int, hi: int, h: nat, key: int, j: nat)
    requires PageSizeOk(ps) && t.NodeT? && GoodOf(ps, nodes, [], [t], lo, hi, h)
    requires NoEmptyLeaf(t) && AllBelow(Rows(t), key) && j < |t.keys|
    ensures t.keys[j] < key
  {
    hide GoodOf, RowsOf, Repr, Separate;
    NodeFacts(ps, nodes, t, lo, hi, h);
    GoodChild(ps, nodes, t.keys, t.kids, lo, hi, h - 1, j + 1);
    var kid := t.kids[j + 1];
    KidBelow(t, j + 1, key);
    NoEmptyRows(kid);
    GoodOrdered(ps, nodes, kid, LowOf(t.keys, lo, j + 1), HighOf(t.keys, hi, j + 1), h - 1);
    KeysInRange(kid, LowOf(t.keys, lo, j + 1), HighOf(t.keys, hi, j + 1), h - 1);
    assert Rows(kid)[0] in Rows(kid);
  }

  lemma GoodOrdered(ps: nat, nodes: map<nat, Node>, t: Tree, lo: int, hi: int, h: nat)
    requires PageSizeOk(ps) && GoodOf(ps, nodes, [], [t], lo, hi, h)
    ensures Ordered(t, lo, hi, h)
  {
    assert Ordered([t][0], LowOf([], lo, 0), HighOf([], hi, 0), h);
  }

  lemma LeafFits(ps: nat, nodes: map<nat, Node>, n: nat)
    requires LeavesFit(ps, nodes) && n in nodes && nodes[n].Leaf?
    ensures LeafRoom(ps, nodes[n].cells) >= 0
  {
  }

  lemma LeafCanAppend(ps: nat, nodes: map<nat, Node>, t: Tree, lo: int, hi: int, key: int, size: nat)
    requires PageSizeOk(ps) && t.LeafT? && GoodOf(ps, nodes, [], [t], lo, hi, 0) && LeavesFit(ps, nodes)
    requires AllBelow(t.rows, key) && (t.rows != [] || lo < key) && size <= 12 + MaxInline(ps)
    ensures CanInsert(ps, nodes, t, key, size, lo)
  {
    hide GoodOf, SplitFits, LeafRoom;
    PageKind(ps, nodes, t, lo, hi, 0);
    LeafRowsAre(ps, nodes, t, lo, hi);
    var cells := nodes[t.page].cells;
    BelowKeys(t.rows, key);
    LeafFits(ps, nodes, t.page);
    forall k: nat | IsUpperBound(CellKeys(cells), key, k) ensures SplitFits(ps, cells, k, size) {
      OnlyAtEnd(RowKeys(t.rows), key, k);
      RightEdgeSplitFits(ps, cells, size);
    }
  }

  lemma OnlyAtEnd(ks: seq<int>, key: int, k: nat)
    requires forall j :: 0 <= j < |ks| ==> ks[j] < key
    ensures IsUpperBound(ks, key, k) ==> k == |ks|
  {
    if k < |ks| {
      assert ks[k] < key;
    }
  }

  lemma BelowKeys(rows: seq<Row>, key: int)
    requires AllBelow(rows, key)
    ensures forall j :: 0 <= j < |RowKeys(rows)| ==> RowKeys(rows)[j] < key
    ensures key !in RowKeys(rows)
  {
    forall j | 0 <= j < |rows| ensures RowKeys(rows)[j] < key {
      assert rows[j] in rows;
    }
  }

  /** A key above every row goes to the right edge, where every split fits. */
  lemma {:induction false} AppendCanInsert(
      ps: nat, nodes: map<nat, Node>, t: Tree, lo: int, hi: int, h: nat, key: int, size: nat)
    requires PageSizeOk(ps) && GoodOf(ps, nodes, [], [t], lo, hi, h) && LeavesFit(ps, nodes)
    requires AllBelow(Rows(t), key) && (NoEmptyLeaf(t) || (t.LeafT? && lo < key)) && size <= 12 + MaxInline(ps)
    ensures CanInsert(ps, nodes, t, key, size, lo)
    decreases t
  {
    hide GoodOf, LeavesFit, RowsOf;
    PageKind(ps, nodes, t, lo, hi, h);
    if t.LeafT? {
      LeafCanAppend(ps, nodes, t, lo, hi, key, size);
    } else {
      NodeFacts(ps, nodes, t, lo, hi, h);
      var m := |t.keys|;
      forall j | 0 <= j < m ensures t.keys[j] < key {
        SeparatorBelow(ps, nodes, t, lo, hi, h, key, j);
      }
      GoodChild(ps, nodes, t.keys, t.kids, lo, hi, h - 1, m);
      KidBelow(t, m, key);
      AppendCanInsert(ps, nodes, t.kids[m], LowOf(t.keys, lo, m), HighOf(t.keys, hi, m), h - 1, key, size);
      forall i: nat | IsUpperBound(t.keys, key, i)
        ensures CanInsert(ps, nodes, t.kids[i], key, size, LowOf(t.keys, lo, i))
      {
        OnlyAtEnd(t.keys, key, i);
      }
    }
  }

  lemma PagesFit(pager: Pager)
    requires pager.Valid()
    ensures LeavesFit(pager.ps, pager.nodes)
  {
    hide Pager.Valid;
    forall n | n in pager.nodes && pager.nodes[n].Leaf? ensures LeafRoom(pager.ps, pager.nodes[n].cells) >= 0 {
      pager.LeafPage(n);
    }
  }

  /** What holds of a table from its creation on while rows are only added. */
  ghost predicate Growing(table: BTreeTable)
    reads table, table.pager
  {
    || NoEmptyLeaf(table.tree)
    || (table.tree == LeafT(table.root, []) && table.root in table.pager.nodes
        && table.pager.nodes[table.root] == Leaf([], table.pager.ps, 0, 0))
  }

  ghost predicate AboveAll(m: map<int, seq<byte>>, key: int) { forall k :: k in m ==> k < key }

  lemma ModelBelow(rows: seq<Row>, m: map<int, seq<byte>>, key: int)
    requires IsModel(rows, m)
    ensures AboveAll(m, key) <==> AllBelow(rows, key)
  {
    hide RowKeys;
    forall k | k in m && AllBelow(rows, key) ensures k < key {
      RowOfKey(rows, k);
    }
    forall r | r in rows && AboveAll(m, key) ensures r.key < key {
      var i :| 0 <= i < |rows| && rows[i] == r;
    }
  }

  lemma RowOfKey(rows: seq<Row>, key: int)
    requires key in RowKeys(rows)
    ensures exists r :: r in rows && r.key == key
  {
    var i :| 0 <= i < |rows| && RowKeys(rows)[i] == key;
    assert rows[i] in rows;
  }

  method CreateTable(pager: Pager) returns (table: BTreeTable)
    requires pager.Valid() && pager.total < MAX_PAGES
    modifies pager
    ensures fresh(table) && table.pager == pager && table.Valid() && Growing(table) && table.model == map[]
  {
    table := new BTreeTable(pager);
  }

  /** Appending above every rowid needs no room, fit or freshness hypothesis, only pages. */
  method Append(table: BTreeTable, rowid: int, payload: seq<byte>) returns (ok: bool)
    requires table.Valid() && Growing(table) && IsI64(rowid) && AboveAll(table.model, rowid)
    requires |payload| < U32_LIMIT ==>
      table.pager.total + ChainLen(table.pager.ps, payload) + table.height + 2 <= MAX_PAGES
    modifies table, table.pager
    ensures table.Valid() && Growing(table)
    ensures ok <==> |payload| < U32_LIMIT
    ensures table.model == if ok then old(table.model)[rowid := payload] else old(table.model)
  {
    hide Pager.Valid, GoodOf, Linked, CanInsert, IsModel, LeavesFit, Increasing;
    var pager := table.pager;
    if |payload| >= U32_LIMIT {
      return false;
    }
    PagesFit(pager);
    ModelBelow(Rows(table.tree), table.model, rowid);
    AppendCanInsert(pager.ps, pager.nodes, table.tree, LO, HI, table.height, rowid, InlineSize(pager.ps, payload));
    ghost var stray;
    ok, stray := table.Insert(rowid, payload);
  }

  lemma {:induction false} LastLeafFilled(t: Tree)
    requires NoEmptyLeaf(t)
    ensures LastLeafRows(t) != []
    decreases t
  {
    if t.NodeT? {
      LastLeafFilled(t.kids[|t.kids| - 1]);
    }
  }

  lemma LastIsGreatest(rows: seq<Row>, key: int)
    requires Increasing(RowKeys(rows)) && rows != [] && key > rows[|rows| - 1].key
    ensures AllBelow(rows, key)
  {
    forall r | r in rows ensures r.key < key {
      var i :| 0 <= i < |rows| && rows[i] == r;
      assert RowKeys(rows)[i] <= RowKeys(rows)[|rows| - 1];
    }
  }

  /**
   * `max_rowid` plus one: above every rowid exactly when the last leaf holds a row, or every rowid
   * is below 1, which it always is on a table that only grew.
   */
  method NextRowid(table: BTreeTable) returns (rowid: int)
    requires table.Valid()
    ensures AboveAll(table.model, rowid) <==> LastLeafRows(table.tree) != [] || AboveAll(table.model, 1)
    ensures LastLeafRows(table.tree) == [] ==> rowid == 1
    ensures LastLeafRows(table.tree) != [] ==> rowid - 1 in table.model
    ensures Growing(table) ==> AboveAll(table.model, rowid)
  {
    hide Pager.Valid, GoodOf, Linked, IsModel;
    var max := MaxRowid(table.pager, table.root, table.tree, LO, HI, table.height);
    rowid := max + 1;
    if LastLeafRows(table.tree) != [] {
      LastIsGreatest(Rows(table.tree), rowid);
      RowKeyOfLast(Rows(table.tree), table.model);
      ModelBelow(Rows(table.tree), table.model, rowid);
    } else if NoEmptyLeaf(table.tree) {
      LastLeafFilled(table.tree);
    } else if Growing(table) {
      EmptyModel(table.model, table.tree);
    }
  }

  lemma RowKeyOfLast(rows: seq<Row>, m: map<int, seq<byte>>)
    requires IsModel(rows, m) && rows != []
    ensures rows[|rows| - 1].key in m
  {
  }

  lemma EmptyModel(m: map<int, seq<byte>>, t: Tree)
    requires t.LeafT? && t.rows == [] && IsModel(Rows(t), m)
    ensures m == map[]
  {
    forall key ensures key !in m {
      KeysOfModel(Rows(t), m, key);
    }
    assert m.Keys == {};
  }

  lemma EmptyModelRows(rows: seq<Row>, m: map<int, seq<byte>>)
    requires IsModel(rows, m)
    ensures m == map[] ==> rows == []
  {
    if rows != [] {
      assert rows[0].key in m;
    }
  }

  /** What the stops show is the whole table, once, in ascending key order. */
  ghost predicate ShowsTable(out: seq<Option<(int, seq<byte>)>>, m: map<int, seq<byte>>)
  {
    exists ps :: |ps| == |out| && ListsInOrder(ps, m) && forall i :: 0 <= i < |out| ==> out[i] == Some(ps[i])
  }

  /**
   * The cursor, walked from `table_start`, lists the table exactly when no deletion left a leaf empty,
   * or all rows are gone.
   */
  method WalkTable(table: BTreeTable) returns (out: seq<Option<(int, seq<byte>)>>)
    requires table.Valid()
    ensures out == ShownAll(table.pager.pages, Visited(table.tree))
    ensures ShowsTable(out, table.model) <==> NoEmptyLeaf(table.tree) || table.model == map[]
  {
    hide Pager.Valid, Linked, IsModel, Increasing, ListsInOrder, Visited, ShownAll, GoodOf, ShowsTable, Rows;
    ghost var t, ps, nodes := table.tree, table.pager.ps, table.pager.nodes;
    GoodRepr(ps, nodes, t, LO, HI, table.height);
    out := Walk(table.pager, table.root, t);
    ShowsTableIff(ps, nodes, t, table.pager.pages, table.model, out);
  }

  lemma ShowsTableIff(
      ps: nat, nodes: map<nat, Node>, t: Tree, pages: map<nat, seq<byte>>, m: map<int, seq<byte>>,
      out: seq<Option<(int, seq<byte>)>>)
    requires PageSizeOk(ps) && Repr(ps, nodes, t) && IsModel(Rows(t), m) && Increasing(RowKeys(Rows(t)))
    requires out == ShownAll(pages, Visited(t))
    ensures ShowsTable(out, m) <==> NoEmptyLeaf(t) || m == map[]
  {
    hide Repr, Rows, Visited, NoEmptyLeaf, Shown, IsModel, Increasing;
    ModelSize(Rows(t), m);
    EmptyModelRows(Rows(t), m);
    StopCountIff(ps, nodes, t);
    WalkIsScanIff(ps, nodes, t, pages);
    if NoEmptyLeaf(t) || m == map[] {
      PairsListModel(Rows(t), m);
      assert ListsInOrder(Pairs(Rows(t)), m);
    } else {
      assert |out| != |m|;
    }
  }

  /** Deleting the only row of a later leaf and walking the table shows the deleted row again. */
  method DeleteAndWalk(table: BTreeTable, rowid: int) returns (out: seq<Option<(int, seq<byte>)>>)
    requires table.Valid() && IsI64(rowid) && rowid in table.model
    requires |table.model[rowid]| <= MaxInline(table.pager.ps)
    modifies table, table.pager
    ensures table.Valid() && table.model == old(table.model) - {rowid}
    ensures LeafEmptied(table.tree, rowid) && FirstRows(table.tree) != [] ==>
      Some((rowid, old(table.model)[rowid])) in out
  {
    hide Pager.Valid, Linked, IsModel, Increasing, Visited, ShownAll, GoodOf, ShowsTable, LeafEmptied, StillLeadsTo;
    var found := table.Delete(rowid);
    out := WalkTable(table);
    if LeafEmptied(table.tree, rowid) {
      DeletedRowShown(table.pager.pages, table.tree, rowid, old(table.model)[rowid]);
    }
  }
}
