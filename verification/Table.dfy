/** A table over the paged B-tree, proved to be a map from rowid to payload:
    every operation keeps `Valid()`, so every run of operations does. */
module Table {
  import opened Bytes
  import opened SlottedPage
  import opened PageFormat
  import opened Options
  import opened PageStore
  import opened TreeSpec
  import opened TreeKeys
  import opened OverflowChain
  import opened TreeInsert
  import opened BTree
  import opened BTreeInsert
  import opened BTreeDelete
  import opened BTreeRead

  /** Bounds outside the `i64` range: no separator bounds the whole tree. */
  const LO := I64_MIN - 1
  const HI := I64_MAX + 1

  /** The rows list `m` exactly. */
  ghost predicate IsModel(rows: seq<Row>, m: map<int, seq<byte>>) {
    && (forall i :: 0 <= i < |rows| ==> rows[i].key in m && m[rows[i].key] == rows[i].payload)
    && (forall key :: key in m ==> key in RowKeys(rows))
  }

  lemma ModelInsert(rows: seq<Row>, m: map<int, seq<byte>>, k: nat, row: Row)
    requires IsModel(rows, m) && k <= |rows| && row.key !in RowKeys(rows)
    ensures IsModel(Insert(rows, k, row), m[row.key := row.payload])
  {
    var rows', m' := Insert(rows, k, row), m[row.key := row.payload];
    forall i | 0 <= i < |rows'| ensures rows'[i].key in m' && m'[rows'[i].key] == rows'[i].payload {
      if i != k {
        assert RowKeys(rows)[if i < k then i else i - 1] == rows'[i].key;
      }
    }
    forall key | key in m' ensures key in RowKeys(rows') {
      if key == row.key {
        assert RowKeys(rows')[k] == key;
      } else {
        var i :| 0 <= i < |rows| && RowKeys(rows)[i] == key;
        assert RowKeys(rows')[if i < k then i else i + 1] == key;
      }
    }
  }

  lemma ModelRemove(rows: seq<Row>, m: map<int, seq<byte>>, k: nat)
    requires IsModel(rows, m) && k < |rows| && Increasing(RowKeys(rows))
    ensures IsModel(Remove(rows, k), m - {rows[k].key})
  {
    var rows', m' := Remove(rows, k), m - {rows[k].key};
    forall i | 0 <= i < |rows'| ensures rows'[i].key in m' && m'[rows'[i].key] == rows'[i].payload {
      var j := if i < k then i else i + 1;
      assert RowKeys(rows)[j] != RowKeys(rows)[k];
    }
    forall key | key in m' ensures key in RowKeys(rows') {
      var i :| 0 <= i < |rows| && RowKeys(rows)[i] == key;
      assert RowKeys(rows')[if i < k then i else i - 1] == key;
    }
  }

  lemma {:induction false} ModelSize(rows: seq<Row>, m: map<int, seq<byte>>)
    requires IsModel(rows, m) && Increasing(RowKeys(rows))
    ensures |m| == |rows|
  {
    if rows == [] {
      forall key ensures key !in m {
        KeysOfModel(rows, m, key);
      }
      assert m.Keys == {};
    } else {
      var k := |rows| - 1;
      ModelRemove(rows, m, k);
      var rows', m' := Remove(rows, k), m - {rows[k].key};
      IncreasingRemove(rows, k);
      ModelSize(rows', m');
      assert m.Keys == m'.Keys + {rows[k].key};
    }
  }

  lemma IncreasingRemove(rows: seq<Row>, k: nat)
    requires Increasing(RowKeys(rows)) && k < |rows|
    ensures Increasing(RowKeys(Remove(rows, k)))
  {
  }

  /** A search tree lists its rows in strictly ascending key order. */
  lemma {:induction false} RowsIncreasing(t: Tree, lo: int, hi: int, h: nat)
    requires Ordered(t, lo, hi, h)
    ensures Increasing(RowKeys(Rows(t)))
    decreases t, 0
  {
    if t.NodeT? {
      RowsOfIncreasing(t.keys, t.kids, lo, hi, h - 1);
    }
  }

  lemma {:induction false} RowsOfIncreasing(keys: seq<int>, kids: seq<Tree>, lo: int, hi: int, h: nat)
    requires OrderedOf(keys, kids, lo, hi, h)
    ensures Increasing(RowKeys(RowsOf(kids)))
    decreases kids, 1
  {
    hide Rows, Ordered;
    var high := HighOf(keys, hi, 0);
    assert Ordered(kids[0], LowOf(keys, lo, 0), high, h);
    RowsIncreasing(kids[0], lo, high, h);
    KeysInRange(kids[0], lo, high, h);
    if |kids| > 1 {
      OrderedCut(keys, kids, lo, hi, h, 0);
      RowsOfIncreasing(keys[1..], kids[1..], keys[0], hi, h);
      KeysOfInRange(keys[1..], kids[1..], keys[0], hi, h);
    }
    IncreasingJoin(Rows(kids[0]), RowsOf(kids[1..]), high);
  }

  lemma IncreasingJoin(a: seq<Row>, b: seq<Row>, mid: int)
    requires Increasing(RowKeys(a)) && Increasing(RowKeys(b))
    requires (forall r :: r in a ==> r.key < mid) && (forall r :: r in b ==> mid <= r.key)
    ensures Increasing(RowKeys(a + b))
  {
  }

  /** What a scan must return for the map `m`: all of it, once, in ascending key order. */
  ghost predicate ListsInOrder(out: seq<(int, seq<byte>)>, m: map<int, seq<byte>>) {
    && |out| == |m|
    && (forall i, j :: 0 <= i < j < |out| ==> out[i].0 < out[j].0)
    && (forall i :: 0 <= i < |out| ==> out[i].0 in m && m[out[i].0] == out[i].1)
  }

  lemma PairsListModel(rows: seq<Row>, m: map<int, seq<byte>>)
    requires IsModel(rows, m) && Increasing(RowKeys(rows))
    ensures ListsInOrder(Pairs(rows), m)
  {
    ModelSize(rows, m);
    forall i, j | 0 <= i < j < |rows| ensures Pairs(rows)[i].0 < Pairs(rows)[j].0 {
      assert RowKeys(rows)[i] < RowKeys(rows)[j];
    }
  }

  /** The new root above the two halves of the old one. */
  lemma RootGrown(ps: nat, nodes: map<nat, Node>, root: nat, key: int, ts: seq<Tree>, h: nat)
    requires PageSizeOk(ps) && |ts| == 2 && GoodOf(ps, nodes, [key], ts, LO, HI, h) && root !in nodes
    requires Linked(nodes, LeavesOf(ts))
    ensures var nodes' := nodes[root := Interior([Sep(ts[0].page, key)], ts[1].page)];
            && GoodOf(ps, nodes', [], [NodeT(root, [key], ts)], LO, HI, h + 1)
            && Linked(nodes', LeavesOf(ts)) && Foot(NodeT(root, [key], ts)) == FootOf(ts) + {root}
            && FootOf(ts) <= nodes.Keys
  {
    hide Repr, Separate, Ordered, Foot, FootOf, LeavesOf, Linked;
    var t' := NodeT(root, [key], ts);
    var nodes' := nodes[root := Interior([Sep(ts[0].page, key)], ts[1].page)];
    FootOfRepr(ps, nodes, ts);
    assert SepsOf([key], ts) == [Sep(ts[0].page, key)];
    KidsKept(ps, nodes, nodes', ts);
    LinkedKept(nodes, nodes', LeavesOf(ts));
    NodeRun(ps, nodes', root, [key], ts, LO, HI, h);
    SingleRun(ps, nodes', t', LO, HI, h + 1);
    NodeFoot(t');
  }

  /** Pages of the pager that do not belong to the table. */
  ghost function Others(nodes: map<nat, Node>, foot: set<nat>): map<nat, Node> {
    nodes - foot
  }

  lemma OthersKept(nodes: map<nat, Node>, nodes': map<nat, Node>, foot: set<nat>, foot': set<nat>)
    requires Framed(nodes, nodes', foot, foot') && Untouched(nodes, nodes', foot, [])
    ensures Others(nodes', foot') == Others(nodes, foot)
  {
  }

  lemma OthersFreed(nodes: map<nat, Node>, nodes': map<nat, Node>, foot: set<nat>, foot': set<nat>, gone: set<nat>)
    requires Freed(nodes, nodes', foot, foot', gone)
    ensures Others(nodes', foot') == Others(nodes, foot)
  {
  }

  lemma DividerOk(ps: nat, nodes: map<nat, Node>, key: int, ts: seq<Tree>, h: nat)
    requires PageSizeOk(ps) && |ts| == 2 && GoodOf(ps, nodes, [key], ts, LO, HI, h)
    ensures IsI64(key) && ts[0].page in nodes
  {
    PairKey(key, ts, LO, HI, h);
    assert Repr(ps, nodes, ts[0]);
  }

  /** The root case of `insert`: a new interior page over the old root and the new page. */
  method GrowRoot(pager: Pager, left: nat, divider: int, right: nat) returns (root: nat)
    requires pager.Valid() && pager.total < MAX_PAGES && IsI64(divider) && left in pager.nodes && right < U32_LIMIT
    modifies pager
    ensures pager.Valid() && root !in old(pager.nodes)
    ensures pager.nodes == old(pager.nodes)[root := Interior([Sep(left, divider)], right)]
  {
    hide Pager.Valid;
    pager.Facts();
    var r := pager.Allocate();
    root := r.value;
    pager.InitInterior(root, right);
    pager.SetRoot(root, divider, left);
  }

  method NewTable(pager: Pager) returns (root: nat)
    requires pager.Valid() && pager.total < MAX_PAGES
    modifies pager
    ensures pager.Valid() && root !in old(pager.nodes)
    ensures pager.nodes == old(pager.nodes)[root := Leaf([], pager.ps, 0, 0)]
  {
    hide Pager.Valid;
    var r := pager.Allocate();
    root := r.value;
    pager.InitLeaf(root);
  }

  lemma EmptyTree(ps: nat, before: map<nat, Node>, nodes: map<nat, Node>, root: nat)
    requires PageSizeOk(ps) && root !in before && nodes == before[root := Leaf([], ps, 0, 0)]
    ensures var t := LeafT(root, []);
            && GoodOf(ps, nodes, [], [t], LO, HI, 0) && Linked(nodes, Leaves(t)) && Rows(t) == []
            && Others(nodes, Foot(t)) == before
  {
    var t := LeafT(root, []);
    assert Foot(t) == {root};
    SingleRun(ps, nodes, t, LO, HI, 0);
    assert LinkOk(nodes, [root], 0);
    assert nodes - {root} == before;
  }

  /** A short payload sits in its leaf cell. */
  lemma RowCell(ps: nat, nodes: map<nat, Node>, t: Tree, h: nat, k: nat, m: map<int, seq<byte>>)
    requires PageSizeOk(ps) && GoodOf(ps, nodes, [], [t], LO, HI, h) && IsModel(Rows(t), m) && k < |Rows(t)|
    ensures var row := Rows(t)[k];
      && row.key in m && m[row.key] == row.payload
      && (|row.payload| <= MaxInline(ps) ==> row.chain == [] && CellOf(row) == Inline(row.key, row.payload))
  {
    hide GoodOf, RowsOf, IsModel;
    GoodRepr(ps, nodes, t, LO, HI, h);
    RowStored(ps, nodes, t, k);
    RowInModel(Rows(t), m, k);
  }

  lemma RowInModel(rows: seq<Row>, m: map<int, seq<byte>>, k: nat)
    requires IsModel(rows, m) && k < |rows|
    ensures rows[k].key in m && m[rows[k].key] == rows[k].payload
  {
  }

  lemma {:induction false} RowStored(ps: nat, nodes: map<nat, Node>, t: Tree, k: nat)
    requires PageSizeOk(ps) && Repr(ps, nodes, t) && k < |Rows(t)|
    ensures RowRepr(ps, nodes, Rows(t)[k])
    decreases t, 0
  {
    if t.NodeT? {
      RowStoredOf(ps, nodes, t.kids, k);
    }
  }

  lemma {:induction false} RowStoredOf(ps: nat, nodes: map<nat, Node>, kids: seq<Tree>, k: nat)
    requires PageSizeOk(ps) && ReprOf(ps, nodes, kids) && k < |RowsOf(kids)|
    ensures RowRepr(ps, nodes, RowsOf(kids)[k])
    decreases kids, 1
  {
    hide RowRepr, Repr, Rows;
    RowsOfHead(kids);
    assert Repr(ps, nodes, kids[0]);
    if k < |Rows(kids[0])| {
      RowStored(ps, nodes, kids[0], k);
    } else {
      assert forall i :: 0 <= i < |kids[1..]| ==> kids[1..][i] == kids[i + 1];
      RowStoredOf(ps, nodes, kids[1..], k - |Rows(kids[0])|);
    }
  }

  lemma {:induction false} ChainSize(chain: seq<nat>)
    requires NoDup(chain)
    ensures |PagesOf(chain)| == |chain|
  {
    if chain != [] {
      ChainSize(chain[1..]);
      assert PagesOf(chain) == PagesOf(chain[1..]) + {chain[0]};
    }
  }

  lemma StraysApart(before: map<nat, Node>, nodes: map<nat, Node>, foot: set<nat>, stray: set<nat>)
    requires foot <= before.Keys && stray !! before.Keys && nodes.Keys == before.Keys + stray
    requires forall p :: p in before ==> nodes[p] == before[p]
    ensures stray <= Others(nodes, foot).Keys && Others(nodes, foot) - stray == Others(before, foot)
  {
  }

  /** A chain that no leaf leads to leaves the tree as it was. */
  lemma ChainStrays(ps: nat, before: map<nat, Node>, nodes: map<nat, Node>, t: Tree, h: nat, row: Row)
    requires PageSizeOk(ps) && GoodOf(ps, before, [], [t], LO, HI, h) && Linked(before, Leaves(t))
    requires RowReady(ps, before, nodes, row)
    ensures GoodOf(ps, nodes, [], [t], LO, HI, h) && Linked(nodes, Leaves(t))
    ensures var stray := PagesOf(row.chain);
      && stray <= Others(nodes, Foot(t)).Keys && stray !! before.Keys
      && Others(nodes, Foot(t)) - stray == Others(before, Foot(t)) && |stray| == ChainLen(ps, row.payload)
  {
    hide Repr, Separate, Ordered, Foot, FootOf, Linked, NoDup, Others, Leaves;
    GoodRepr(ps, before, t, LO, HI, h);
    ReprFoot(ps, before, t);
    KidsKept(ps, before, nodes, [t]);
    LinkedKept(before, nodes, Leaves(t));
    ChainSize(row.chain);
    StraysApart(before, nodes, Foot(t), PagesOf(row.chain));
  }

  /** A new root above the page that was the root, and one more page. */
  ghost predicate Raised(t: Tree, page: nat)
  {
    t.NodeT? && |t.keys| == 1 && |t.kids| == 2 && t.kids[0].page == page && t.page != page
  }

  class BTreeTable {
    const pager: Pager
    var root: nat
    ghost var tree: Tree
    ghost var height: nat
    ghost var model: map<int, seq<byte>>

    ghost predicate Valid()
      reads this, pager
    {
      && pager.Valid() && PageSizeOk(pager.ps) && tree.page == root
      && GoodOf(pager.ps, pager.nodes, [], [tree], LO, HI, height)
      && Linked(pager.nodes, Leaves(tree))
      && IsModel(Rows(tree), model) && Increasing(RowKeys(Rows(tree)))
      && (forall key :: key in model ==> IsI64(key))
    }

    /** `create_table`, for a pager that is not full. */
    constructor (p: Pager)
      requires p.Valid() && p.total < MAX_PAGES
      modifies p
      ensures Valid() && pager == p && model == map[]
      ensures tree == LeafT(root, []) && root in p.nodes && p.nodes[root] == Leaf([], p.ps, 0, 0)
      ensures Others(p.nodes, Foot(tree)) == old(p.nodes)
    {
      var n := NewTable(p);
      pager, root := p, n;
      tree, height, model := LeafT(n, []), 0, map[];
      new;
      p.Facts();
      hide Pager.Valid, GoodOf, Linked, Others;
      EmptyTree(p.ps, old(p.nodes), p.nodes, root);
    }

    /**
     * `insert`: false is the UNIQUE-constraint or the oversized-payload error.  The overflow chain is
     * written before a duplicate is found: its pages, `stray`, stay allocated and belong to no table.
     */
    method Insert(rowid: int, payload: seq<byte>) returns (ok: bool, ghost stray: set<nat>)
      requires Valid() && IsI64(rowid)
      requires |payload| < U32_LIMIT ==>
                 && CanInsert(pager.ps, pager.nodes, tree, rowid, InlineSize(pager.ps, payload), LO)
                 && pager.total + ChainLen(pager.ps, payload) + height + 2 <= MAX_PAGES
      modifies this, pager
      ensures Valid()
      ensures ok <==> rowid !in old(model) && |payload| < U32_LIMIT
      ensures model == if ok then old(model)[rowid := payload] else old(model)
      ensures stray <= Others(pager.nodes, Foot(tree)).Keys && stray !! old(pager.nodes).Keys
      ensures Others(pager.nodes, Foot(tree)) - stray == old(Others(pager.nodes, Foot(tree)))
      ensures |stray| == if |payload| < U32_LIMIT && rowid in old(model) then ChainLen(pager.ps, payload) else 0
      ensures ok && StaysFilled(old(pager.nodes), old(tree), InlineSize(pager.ps, payload)) ==> NoEmptyLeaf(tree)
      ensures root == old(root) || Raised(tree, old(root))
      ensures ok && old(tree).LeafT? ==>
        (root == old(root) <==> LeafHasRoom(old(pager.nodes), old(tree), InlineSize(pager.ps, payload)))
    {
      hide NoEmptyLeaf, NoEmptyLeaves, StaysFilled, LeafHasRoom;
      hide Pager.Valid, GoodOf, Linked, Rows, Leaves, RowKeys, Inserted, CanInsert, Others, Foot, Increasing, IsModel;
      hide SlottedPage.Insert;
      stray := {};
      if |payload| >= U32_LIMIT {
        return false, stray;
      }
      ghost var before, t := pager.nodes, tree;
      pager.Facts();
      KeysOfModel(Rows(tree), model, rowid);
      assert [] + Leaves(tree) + [] == Leaves(tree);
      var r, ks, ts, row, k := InsertIntoPage(pager, root, rowid, payload, tree, LO, HI, height, [], []);
      pager.Facts();
      if r.Duplicate? {
        ChainStrays(pager.ps, before, pager.nodes, tree, height, row);
        return false, PagesOf(row.chain);
      }
      InsertedTop(pager.ps, before, pager.nodes, t, ks, ts, height, row, k, model);
      if r.Done? {
        tree := ts[0];
        OneTree(ts);
        NoEmptyRuns(ts, root, []);
      } else {
        ghost var nodes := pager.nodes;
        DividerOk(pager.ps, nodes, r.divider, ts, height);
        var newRoot := GrowRoot(pager, root, r.divider, r.newPage);
        RootGrown(pager.ps, nodes, newRoot, r.divider, ts, height);
        OthersRoot(before, nodes, newRoot, Foot(t), FootOf(ts), pager.nodes[newRoot]);
        tree, height, root := NodeT(newRoot, [r.divider], ts), height + 1, newRoot;
        NoEmptyRuns(ts, newRoot, [r.divider]);
        NodeRows(tree);
        NodeLeaves(tree);
      }
      model := model[rowid := payload];
      GoodRepr(pager.ps, pager.nodes, tree, LO, HI, height);
      RowsIncreasing(tree, LO, HI, height);
      return true, stray;
    }

    /** `delete_by_rowid`. */
    method Delete(rowid: int) returns (found: bool)
      requires Valid() && IsI64(rowid)
      modifies this, pager
      ensures Valid() && pager.total == old(pager.total) && height == old(height) && root == old(root)
      ensures found <==> rowid in old(model)
      ensures model == old(model) - {rowid}
      ensures found && |old(model)[rowid]| <= MaxInline(pager.ps) ==>
        StillLeadsTo(pager.pages, tree, rowid, Inline(rowid, old(model)[rowid]))
      ensures Others(pager.nodes, Foot(tree)) == old(Others(pager.nodes, Foot(tree)))
      ensures forall size: nat ::
        CanUpdate(pager.ps, old(pager.nodes), old(tree), rowid, size, LO) ==>
          CanInsert(pager.ps, pager.nodes, tree, rowid, size, LO)
    {
      hide CanUpdate, CanInsert, StillLeadsTo;
      hide Pager.Valid, GoodOf, Linked, Rows, Leaves, RowKeys, Freed, Others, Foot, Increasing, IsModel, Remove;
      ghost var before, t := pager.nodes, tree;
      pager.Facts();
      KeysOfModel(Rows(tree), model, rowid);
      ghost var k;
      found, tree, k := DeleteFromPage(pager, root, rowid, tree, LO, HI, height);
      if found {
        RowCell(pager.ps, before, t, height, k, model);
        RowKeyAt(Rows(t), k);
        ModelRemove(Rows(t), model, k);
        IncreasingRemove(Rows(t), k);
        OthersFreed(before, pager.nodes, Foot(t), Foot(tree), PagesOf(Rows(t)[k].chain));
        LinkedFreed(before, pager.nodes, Leaves(t), Foot(t), Foot(tree), PagesOf(Rows(t)[k].chain));
        model := model - {rowid};
      } else {
        assert model - {rowid} == model;
      }
    }

    /** `update_row`: delete, then insert the new payload; a payload over 32 bits long loses the row. */
    method Update(rowid: int, payload: seq<byte>) returns (ok: bool)
      requires Valid() && IsI64(rowid)
      requires |payload| < U32_LIMIT ==>
        CanUpdate(pager.ps, pager.nodes, tree, rowid, InlineSize(pager.ps, payload), LO)
      requires |payload| < U32_LIMIT ==> pager.total + ChainLen(pager.ps, payload) + height + 2 <= MAX_PAGES
      modifies this, pager
      ensures Valid() && (ok <==> |payload| < U32_LIMIT)
      ensures model == if ok then old(model)[rowid := payload] else old(model) - {rowid}
      ensures Others(pager.nodes, Foot(tree)) == old(Others(pager.nodes, Foot(tree)))
      ensures root == old(root) || Raised(tree, old(root))
    {
      hide Pager.Valid, GoodOf, Linked, CanInsert, CanUpdate, Others, Foot, Increasing, IsModel;
      var found := Delete(rowid);
      ghost var stray;
      ok, stray := Insert(rowid, payload);
    }

    /** `find_by_rowid` is map lookup. */
    method Find(rowid: int) returns (r: Option<seq<byte>>)
      requires Valid() && IsI64(rowid)
      ensures r == if rowid in model then Some(model[rowid]) else None
    {
      var res, k := FindByRowid(pager, root, rowid, tree, LO, HI, height);
      if res.Some? {
        RowKeyAt(Rows(tree), k);
      }
      r := res;
    }

    /** `scan_all` lists the map in ascending rowid order. */
    method Scan() returns (out: seq<(int, seq<byte>)>)
      requires Valid()
      ensures ListsInOrder(out, model)
    {
      out := ScanAll(pager, root, tree, LO, HI, height);
      PairsListModel(Rows(tree), model);
    }

    /** `scan_all_reverse` is the exact reverse of an ascending listing of the map. */
    method ScanReverse() returns (out: seq<(int, seq<byte>)>)
      requires Valid()
      ensures ListsInOrder(Reversed(out), model)
    {
      out := ScanAllReverse(pager, root, tree, LO, HI, height);
      PairsListModel(Rows(tree), model);
      assert Reversed(out) == Pairs(Rows(tree));
    }

    /** `count_rows` is the size of the map. */
    method Count() returns (n: nat)
      requires Valid()
      ensures n == |model|
    {
      n := CountRows(pager, root, tree, LO, HI, height);
      ModelSize(Rows(tree), model);
    }
  }

  lemma NoEmptyRuns(ts: seq<Tree>, page: nat, keys: seq<int>)
    requires ts != []
    ensures NoEmptyLeaves(ts) ==> NoEmptyLeaf(ts[0]) && NoEmptyLeaf(NodeT(page, keys, ts))
  {
  }

  lemma KeysOfModel(rows: seq<Row>, m: map<int, seq<byte>>, key: int)
    requires IsModel(rows, m)
    ensures key in m <==> key in RowKeys(rows)
  {
  }

  lemma LinkedFreed(
      nodes: map<nat, Node>, nodes': map<nat, Node>, ls: seq<nat>, foot: set<nat>, foot': set<nat>, gone: set<nat>)
    requires Linked(nodes, ls) && Freed(nodes, nodes', foot, foot', gone)
    ensures Linked(nodes', ls)
  {
    LinkedSame(nodes, nodes', ls);
  }

  lemma NodeLeaves(t: Tree)
    requires t.NodeT?
    ensures Leaves(t) == LeavesOf(t.kids)
  {
  }

  lemma OneTree(ts: seq<Tree>)
    requires |ts| == 1
    ensures ts == [ts[0]] && RowsOf(ts) == Rows(ts[0]) && LeavesOf(ts) == Leaves(ts[0]) && FootOf(ts) == Foot(ts[0])
  {
  }

  lemma OthersRoot(
      before: map<nat, Node>, nodes: map<nat, Node>, root: nat, foot: set<nat>, foot': set<nat>, node: Node)
    requires Others(nodes, foot') == Others(before, foot) && root !in nodes
    ensures Others(nodes[root := node], foot' + {root}) == Others(before, foot)
  {
  }

  /** The insertion seen from the root. */
  lemma InsertedTop(
      ps: nat, before: map<nat, Node>, nodes: map<nat, Node>, t: Tree, ks: seq<int>, ts: seq<Tree>, h: nat, row: Row,
      k: nat, m: map<int, seq<byte>>)
    requires PageSizeOk(ps) && Inserted(ps, before, nodes, t, ks, ts, LO, HI, h, row, k, [], [])
    requires IsModel(Rows(t), m) && row.key !in RowKeys(Rows(t))
    ensures GoodOf(ps, nodes, ks, ts, LO, HI, h) && ts[0].page == t.page
    ensures IsModel(RowsOf(ts), m[row.key := row.payload]) && Linked(nodes, LeavesOf(ts))
    ensures Others(nodes, FootOf(ts)) == Others(before, Foot(t))
  {
    hide GoodOf, Linked, RowsOf, Rows, LeavesOf, Foot, FootOf, IsModel, Insert, Framed, Untouched, Others;
    assert [] + LeavesOf(ts) + [] == LeavesOf(ts);
    ModelInsert(Rows(t), m, k, row);
    OthersKept(before, nodes, Foot(t), FootOf(ts));
  }
}
