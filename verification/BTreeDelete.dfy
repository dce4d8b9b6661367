/** `delete_from_page`: one cell pointer is dropped and its overflow chain freed. */
module BTreeDelete {
  import opened Options
  import opened Bytes
  import opened SlottedPage
  import opened PageFormat
  import opened PageStore
  import opened TreeSpec
  import opened OverflowChain
  import opened TreeInsert
  import opened TreeKeys
  import opened BTree
  import opened BTreeInsert

  /** Row `k` of `t` is gone and its chain's pages are free; nothing else changed. */
  ghost predicate Deleted(
      ps: nat, nodes: map<nat, Node>, nodes': map<nat, Node>, t: Tree, t': Tree, lo: int, hi: int, h: nat, k: nat)
    requires PageSizeOk(ps)
  {
    && k < |Rows(t)| && t'.page == t.page
    && GoodOf(ps, nodes', [], [t'], lo, hi, h)
    && Rows(t') == Remove(Rows(t), k) && Leaves(t') == Leaves(t)
    && Freed(nodes, nodes', Foot(t), Foot(t'), PagesOf(Rows(t)[k].chain))
  }

  ghost predicate Freed(
    nodes: map<nat, Node>, nodes': map<nat, Node>, foot: set<nat>, foot': set<nat>, gone: set<nat>)
  {
    && gone <= foot && foot' == foot - gone && nodes'.Keys == nodes.Keys - gone
    && (forall p :: p in nodes' && p !in foot ==> nodes'[p] == nodes[p])
    && (forall p :: p in nodes && nodes[p].Leaf? ==>
          && p in nodes' && nodes'[p].Leaf? && nodes'[p].co == nodes[p].co
          && nodes'[p].next == nodes[p].next && nodes'[p].prev == nodes[p].prev)
  }

  /** The cells of a leaf once the one with `key`, if any, is deleted. */
  ghost function WithoutKey(cells: seq<LeafCell>, key: int): seq<LeafCell>
  {
    if cells == [] then []
    else (if cells[0].key == key then [] else [cells[0]]) + WithoutKey(cells[1..], key)
  }

  lemma {:induction false} WithoutAbsent(cells: seq<LeafCell>, key: int)
    requires key !in CellKeys(cells)
    ensures WithoutKey(cells, key) == cells
  {
    if cells != [] {
      assert CellKeys(cells)[0] == cells[0].key;
      assert CellKeys(cells)[1..] == CellKeys(cells[1..]);
      WithoutAbsent(cells[1..], key);
    }
  }

  lemma {:induction false} WithoutIsRemove(cells: seq<LeafCell>, k: nat)
    requires k < |cells| && Increasing(CellKeys(cells))
    ensures WithoutKey(cells, cells[k].key) == Remove(cells, k)
  {
    hide Increasing, CellKeys, Remove;
    HeadAndTail(cells, k);
    RemoveTail(cells, k);
    if k == 0 {
      WithoutAbsent(cells[1..], cells[0].key);
    } else {
      WithoutIsRemove(cells[1..], k - 1);
    }
  }

  lemma RemoveTail(cells: seq<LeafCell>, k: nat)
    requires k < |cells|
    ensures k == 0 ==> Remove(cells, k) == [] + cells[1..]
    ensures k > 0 ==> Remove(cells, k) == [cells[0]] + Remove(cells[1..], k - 1)
  {
  }

  lemma HeadAndTail(cells: seq<LeafCell>, k: nat)
    requires k < |cells| && Increasing(CellKeys(cells))
    ensures Increasing(CellKeys(cells[1..])) && cells[0].key !in CellKeys(cells[1..])
    ensures k > 0 ==> cells[0].key != cells[k].key
  {
    var ks := CellKeys(cells);
    assert ks[1..] == CellKeys(cells[1..]);
    assert forall j :: 1 <= j < |ks| ==> ks[0] < ks[j];
  }

  /**
   * What `update_row` relies on, in terms of the tree it starts from: once the row is deleted, which
   * reclaims its pointer but not its content, the leaf has room for the new cell, or can be split well.
   */
  ghost predicate CanUpdate(ps: nat, nodes: map<nat, Node>, t: Tree, key: int, size: nat, lo: int)
    decreases t
  {
    match t
    case LeafT(page, rows) =>
      && page in nodes && nodes[page].Leaf?
      && var rest := WithoutKey(nodes[page].cells, key);
      && (LEAF_HEADER_SIZE + 2 * |rest| + 2 + size <= nodes[page].co
          || ((rest != [] || lo < key) && LeafSplitOk(ps, rest, key, size)))
    case NodeT(_, keys, kids) =>
      && |kids| == |keys| + 1
      && forall i: nat :: IsUpperBound(keys, key, i) ==> CanUpdate(ps, nodes, kids[i], key, size, LowOf(keys, lo, i))
  }

  lemma LeafCanInsert(ps: nat, nodes: map<nat, Node>, nodes': map<nat, Node>, t: Tree, t': Tree, key: int, lo: int)
    requires t.LeafT? && t'.LeafT? && t'.page == t.page && t.page in nodes && nodes[t.page].Leaf?
    requires t.page in nodes' && nodes'[t.page].Leaf? && nodes'[t.page].co == nodes[t.page].co
    requires nodes'[t.page].cells == WithoutKey(nodes[t.page].cells, key) == CellsOf(t'.rows)
    requires key !in RowKeys(t'.rows)
    ensures forall size: nat :: CanUpdate(ps, nodes, t, key, size, lo) ==> CanInsert(ps, nodes', t', key, size, lo)
  {
    hide LeafSplitOk, CellsOf;
    CellsOfLength(t'.rows);
  }

  lemma CellsOfLength(rows: seq<Row>)
    ensures |CellsOf(rows)| == |rows|
  {
  }

  lemma NodeCanInsert(
      ps: nat, nodes: map<nat, Node>, nodes': map<nat, Node>, t: Tree, i: nat, kid: Tree, key: int, lo: int)
    requires t.NodeT? && |t.kids| == |t.keys| + 1 && IsUpperBound(t.keys, key, i) && i < |t.kids|
    requires forall size: nat ::
      CanUpdate(ps, nodes, t.kids[i], key, size, LowOf(t.keys, lo, i)) ==>
        CanInsert(ps, nodes', kid, key, size, LowOf(t.keys, lo, i))
    ensures forall size: nat ::
      CanUpdate(ps, nodes, t, key, size, lo) ==>
        CanInsert(ps, nodes', NodeT(t.page, t.keys, t.kids[i := kid]), key, size, lo)
  {
    var t' := NodeT(t.page, t.keys, t.kids[i := kid]);
    forall size: nat | CanUpdate(ps, nodes, t, key, size, lo) ensures CanInsert(ps, nodes', t', key, size, lo) {
      forall j: nat | IsUpperBound(t.keys, key, j)
        ensures CanInsert(ps, nodes', t'.kids[j], key, size, LowOf(t.keys, lo, j))
      {
        OneUpperBound(t.keys, key, i, j);
      }
    }
  }

  lemma OneUpperBound(ks: seq<int>, key: int, i: nat, j: nat)
    requires IsUpperBound(ks, key, i)
    ensures IsUpperBound(ks, key, j) ==> i == j
  {
    if j < i {
      NotUpperBound(ks, key, j);
    } else if i < j && j <= |ks| {
      assert key < ks[i];
    }
  }

  lemma CellsOfRemove(rows: seq<Row>, k: nat)
    requires k < |rows|
    ensures CellsOf(Remove(rows, k)) == Remove(CellsOf(rows), k)
  {
  }

  lemma ChainPagesRemove(page: nat, rows: seq<Row>, k: nat)
    requires k < |rows| && Separate(LeafT(page, rows))
    ensures PagesOf(rows[k].chain) <= ChainPages(rows)
    ensures ChainPages(Remove(rows, k)) == ChainPages(rows) - PagesOf(rows[k].chain)
  {
    hide NoDup;
    var rows' := Remove(rows, k);
    forall p | p in ChainPages(rows') ensures p in ChainPages(rows) && p !in PagesOf(rows[k].chain) {
      var i :| 0 <= i < |rows'| && p in rows'[i].chain;
      if i < k {
        assert Disjoint(rows[i].chain, rows[k].chain);
      } else {
        assert rows'[i] == rows[i + 1];
        assert Disjoint(rows[k].chain, rows[i + 1].chain);
      }
    }
    forall p | p in ChainPages(rows) && p !in PagesOf(rows[k].chain) ensures p in ChainPages(rows') {
      var i :| 0 <= i < |rows| && p in rows[i].chain;
      assert rows[i] == rows'[if i < k then i else i - 1];
    }
    assert forall p :: p in PagesOf(rows[k].chain) ==> p in rows[k].chain;
  }

  lemma SeparateRemove(page: nat, rows: seq<Row>, k: nat)
    requires k < |rows| && Separate(LeafT(page, rows))
    ensures Separate(LeafT(page, Remove(rows, k)))
  {
  }

  lemma OrderedRemove(page: nat, rows: seq<Row>, k: nat, lo: int, hi: int)
    requires k < |rows| && Ordered(LeafT(page, rows), lo, hi, 0)
    ensures Ordered(LeafT(page, Remove(rows, k)), lo, hi, 0)
  {
  }

  lemma LeafShrunk(ps: nat, nodes: map<nat, Node>, nodes': map<nat, Node>, t: Tree, k: nat, lo: int, hi: int)
    requires PageSizeOk(ps) && t.LeafT? && GoodOf(ps, nodes, [], [t], lo, hi, 0) && k < |t.rows|
    requires t.page in nodes && nodes[t.page].Leaf? && k < |nodes[t.page].cells|
    requires nodes' ==
      nodes[t.page := nodes[t.page].(cells := Remove(nodes[t.page].cells, k))] - PagesOf(t.rows[k].chain)
    ensures Deleted(ps, nodes, nodes', t, LeafT(t.page, Remove(t.rows, k)), lo, hi, 0, k)
  {
    hide RowRepr, NoDup, Disjoint, Increasing, CellsOf, Separate, Ordered;
    var rows' := Remove(t.rows, k);
    var t' := LeafT(t.page, rows');
    LeafFacts(ps, nodes, t, lo, hi);
    ReprFoot(ps, nodes, t);
    CellsOfRemove(t.rows, k);
    ChainPagesRemove(t.page, t.rows, k);
    PageNotInChains(t.page, t.rows);
    SeparateRemove(t.page, t.rows, k);
    OrderedRemove(t.page, t.rows, k, lo, hi);
    forall p | p in PagesOf(t.rows[k].chain) ensures p in nodes && nodes[p].Overflow? {
      ChainNotLeaf(ps, nodes, t.rows[k], p);
    }
    forall i | 0 <= i < |rows'| ensures RowRepr(ps, nodes', rows'[i]) {
      var j := if i < k then i else i + 1;
      assert rows'[i] == t.rows[j] && RowRepr(ps, nodes, t.rows[j]);
      forall p | p in rows'[i].chain ensures p in nodes' && nodes'[p] == nodes[p] {
        ChainNotLeaf(ps, nodes, t.rows[j], p);
        assert p in ChainPages(rows');
      }
      RowReprFrame(ps, nodes, nodes', rows'[i]);
    }
    SingleRun(ps, nodes', t', lo, hi, 0);
  }

  lemma RowsReplace(kids: seq<Tree>, i: nat, kid: Tree, k: nat)
    requires i < |kids| && k < |Rows(kids[i])| && Rows(kid) == Remove(Rows(kids[i]), k)
    requires Leaves(kid) == Leaves(kids[i])
    ensures var at := |RowsOf(kids[..i])| + k;
            at < |RowsOf(kids)| && RowsOf(kids)[at] == Rows(kids[i])[k]
            && RowsOf(kids[i := kid]) == Remove(RowsOf(kids), at)
    ensures LeavesOf(kids[i := kid]) == LeavesOf(kids)
  {
    hide RowsOf, Rows, LeavesOf, Leaves, Remove;
    var kids' := kids[i := kid];
    assert kids'[..i] == kids[..i] && kids'[i + 1..] == kids[i + 1..];
    RowsOfSplit(kids, i);
    RowsOfSplit(kids', i);
    LeavesOfSplit(kids, i);
    LeavesOfSplit(kids', i);
    RemoveMiddle(RowsOf(kids[..i]), Rows(kids[i]), RowsOf(kids[i + 1..]), k);
  }

  lemma RemoveMiddle<T>(a: seq<T>, b: seq<T>, c: seq<T>, k: nat)
    requires k < |b|
    ensures (a + (b + c))[|a| + k] == b[k]
    ensures a + (Remove(b, k) + c) == Remove(a + (b + c), |a| + k)
  {
  }

  /** Deleting inside child `i` leaves the parent's page as it is. */
  lemma NodeShrunk(
      ps: nat, nodes: map<nat, Node>, nodes': map<nat, Node>, t: Tree, i: nat, kid: Tree, lo: int, hi: int, h: nat,
      k: nat)
    requires PageSizeOk(ps) && t.NodeT? && GoodOf(ps, nodes, [], [t], lo, hi, h) && h > 0 && |t.kids| == |t.keys| + 1
    requires i < |t.kids|
    requires Deleted(ps, nodes, nodes', t.kids[i], kid, LowOf(t.keys, lo, i), HighOf(t.keys, hi, i), h - 1, k)
    ensures Deleted(ps, nodes, nodes', t, NodeT(t.page, t.keys, t.kids[i := kid]), lo, hi, h, |RowsOf(t.kids[..i])| + k)
  {
    hide RowsOf, LeavesOf, Repr, Separate, Ordered, Foot, FootOf, Remove, SeparateOf, ReprOf, OrderedOf;
    var kids' := t.kids[i := kid];
    var t' := NodeT(t.page, t.keys, kids');
    var gone := PagesOf(Rows(t.kids[i])[k].chain);
    NodeFacts(ps, nodes, t, lo, hi, h);
    RowsReplace(t.kids, i, kid, k);
    FootOfRepr(ps, nodes, t.kids);
    KidsShrunk(ps, nodes, nodes', t.keys, t.kids, i, kid, lo, hi, h - 1, gone);
    SamePages(t.keys, t.kids, i, kid);
    KidFoot(t.kids, i, i);
    NodeFoot(t);
    NodeFoot(t');
    NodeRun(ps, nodes', t.page, t.keys, kids', lo, hi, h - 1);
    SingleRun(ps, nodes', t', lo, hi, h);
  }

  lemma NodeFoot(t: Tree)
    requires t.NodeT?
    ensures Foot(t) == {t.page} + FootOf(t.kids)
  {
  }

  lemma SamePages(keys: seq<int>, kids: seq<Tree>, i: nat, kid: Tree)
    requires |kids| == |keys| + 1 && i < |kids| && kid.page == kids[i].page
    ensures NodeOf(keys, kids[i := kid]) == NodeOf(keys, kids)
  {
  }

  lemma FootReplace(kids: seq<Tree>, i: nat, kid: Tree, gone: set<nat>)
    requires i < |kids| && SeparateOf(kids) && gone <= Foot(kids[i]) && Foot(kid) == Foot(kids[i]) - gone
    ensures FootOf(kids[i := kid]) == FootOf(kids) - gone && gone <= FootOf(kids)
    ensures forall j :: 0 <= j < |kids| && j != i ==> Foot(kids[j]) !! Foot(kids[i])
  {
    hide Foot, Separate;
    var kids' := kids[i := kid];
    forall j | 0 <= j < |kids| && j != i ensures Foot(kids[j]) !! Foot(kids[i]) {
      KidFoot(kids, i, j);
    }
    forall p | p in FootOf(kids') ensures p in FootOf(kids) && p !in gone {
      var j :| 0 <= j < |kids'| && p in Foot(kids'[j]);
      assert p in Foot(kids[j]);
    }
    forall p | p in FootOf(kids) && p !in gone ensures p in FootOf(kids') {
      var j :| 0 <= j < |kids| && p in Foot(kids[j]);
      assert p in Foot(kids'[j]);
    }
    KidFoot(kids, i, i);
  }

  lemma KidsShrunk(
      ps: nat, nodes: map<nat, Node>, nodes': map<nat, Node>, keys: seq<int>, kids: seq<Tree>, i: nat, kid: Tree,
      lo: int, hi: int, h: nat, gone: set<nat>)
    requires PageSizeOk(ps) && GoodOf(ps, nodes, keys, kids, lo, hi, h) && i < |kids| && |kids| == |keys| + 1
    requires GoodOf(ps, nodes', [], [kid], LowOf(keys, lo, i), HighOf(keys, hi, i), h)
    requires Freed(nodes, nodes', Foot(kids[i]), Foot(kid), gone)
    ensures GoodOf(ps, nodes', keys, kids[i := kid], lo, hi, h)
    ensures FootOf(kids[i := kid]) == FootOf(kids) - gone && gone <= FootOf(kids)
  {
    hide Repr, Separate, Ordered, Foot, FootOf;
    var kids' := kids[i := kid];
    FootReplace(kids, i, kid, gone);
    assert [kid][0] == kid;
    assert Ordered([kid][0], LowOf(keys, lo, i), HighOf(keys, hi, i), h);
    forall j | 0 <= j < |kids'| ensures Repr(ps, nodes', kids'[j]) {
      if j != i {
        ReprFoot(ps, nodes, kids[j]);
        ReprFrame(ps, nodes, nodes', kids[j]);
      }
    }
    forall a, b | 0 <= a < b < |kids'| ensures Foot(kids'[a]) !! Foot(kids'[b]) {
      KidFoot(kids, a, b);
    }
    forall j | 0 <= j < |kids'| ensures Ordered(kids'[j], LowOf(keys, lo, j), HighOf(keys, hi, j), h) {
      assert Ordered(kids[j], LowOf(keys, lo, j), HighOf(keys, hi, j), h);
    }
  }

  lemma RowKeyAt(rows: seq<Row>, k: nat)
    requires k < |rows|
    ensures rows[k].key in RowKeys(rows)
  {
  }

  /** If the leaf for `key` is empty, its first slot still leads to the cell `c`. */
  ghost predicate StillLeadsTo(pages: map<nat, seq<byte>>, t: Tree, key: int, c: LeafCell)
    decreases t
  {
    match t
    case LeafT(page, rows) => rows == [] ==> page in pages && SlotCell(pages[page], 0) == Some(c)
    case NodeT(_, keys, kids) =>
      |kids| == |keys| + 1 && forall i: nat :: IsUpperBound(keys, key, i) ==> StillLeadsTo(pages, kids[i], key, c)
  }

  lemma NodeStillLeadsTo(pages: map<nat, seq<byte>>, t: Tree, i: nat, kid: Tree, key: int, c: LeafCell)
    requires t.NodeT? && |t.kids| == |t.keys| + 1 && IsUpperBound(t.keys, key, i) && i < |t.kids|
    requires StillLeadsTo(pages, kid, key, c)
    ensures StillLeadsTo(pages, NodeT(t.page, t.keys, t.kids[i := kid]), key, c)
  {
    forall j: nat | IsUpperBound(t.keys, key, j) ensures StillLeadsTo(pages, t.kids[i := kid][j], key, c) {
      OneUpperBound(t.keys, key, i, j);
    }
  }

  /** `delete_from_page`. */
  method DeleteFromPage(pager: Pager, n: nat, key: int, ghost t: Tree, ghost lo: int, ghost hi: int, ghost h: nat)
    returns (found: bool, ghost t': Tree, ghost k: nat)
    requires pager.Valid() && t.page == n && GoodOf(pager.ps, pager.nodes, [], [t], lo, hi, h) && lo <= key < hi
    modifies pager
    ensures pager.Valid() && pager.total == old(pager.total)
    ensures found ==> Deleted(pager.ps, old(pager.nodes), pager.nodes, t, t', lo, hi, h, k) && Rows(t)[k].key == key
    ensures !found ==> pager.nodes == old(pager.nodes) && t' == t && key !in RowKeys(Rows(t))
    ensures found && Rows(t)[k].chain == [] ==> StillLeadsTo(pager.pages, t', key, CellOf(Rows(t)[k]))
    ensures forall size: nat ::
      CanUpdate(pager.ps, old(pager.nodes), t, key, size, lo) ==> CanInsert(pager.ps, pager.nodes, t', key, size, lo)
    decreases h
  {
    hide Pager.Valid, GoodOf, RowsOf, Rows, Leaves, Freed, RowKeys, IsUpperBound, Foot, Increasing, CanUpdate;
    hide CanInsert, StillLeadsTo, CellOf;
    ghost var before := pager.nodes;
    pager.Facts();
    PageKind(pager.ps, before, t, lo, hi, h);
    if pager.IsLeafPage(n) {
      found, t', k := DeleteFromLeaf(pager, n, key, t, lo, hi);
    } else {
      NodePrep(pager.ps, before, t, lo, hi, h);
      var child, i := pager.FindChild(n, key);
      NodeFacts(pager.ps, before, t, lo, hi, h);
      ChildInterval(t.keys, lo, hi, key, i);
      UpperBoundRange(t.keys, key, i);
      GoodChild(pager.ps, before, t.keys, t.kids, lo, hi, h - 1, i);
      ghost var kid;
      found, kid, k := DeleteFromPage(pager, child, key, t.kids[i], LowOf(t.keys, lo, i), HighOf(t.keys, hi, i), h - 1);
      if found {
        NodeShrunk(pager.ps, before, pager.nodes, t, i, kid, lo, hi, h, k);
        t' := NodeT(n, t.keys, t.kids[i := kid]);
        NodeCanInsert(pager.ps, before, pager.nodes, t, i, kid, key, lo);
        if Rows(t.kids[i])[k].chain == [] {
          NodeStillLeadsTo(pager.pages, t, i, kid, key, CellOf(Rows(t.kids[i])[k]));
        }
        RowOfChild(t, i, k);
        k := |RowsOf(t.kids[..i])| + k;
      } else {
        t' := t;
        KeyElsewhere(t, lo, hi, h, i, key);
        NodeCanInsert(pager.ps, before, pager.nodes, t, i, kid, key, lo);
        assert t.kids[i := kid] == t.kids;
      }
    }
  }

  method DeleteFromLeaf(pager: Pager, n: nat, key: int, ghost t: Tree, ghost lo: int, ghost hi: int)
    returns (found: bool, ghost t': Tree, ghost k: nat)
    requires pager.Valid() && t.LeafT? && t.page == n && GoodOf(pager.ps, pager.nodes, [], [t], lo, hi, 0)
    modifies pager
    ensures pager.Valid() && pager.total == old(pager.total)
    ensures found ==> Deleted(pager.ps, old(pager.nodes), pager.nodes, t, t', lo, hi, 0, k) && Rows(t)[k].key == key
    ensures !found ==> pager.nodes == old(pager.nodes) && t' == t && key !in RowKeys(Rows(t))
    ensures found && Rows(t)[k].chain == [] ==> StillLeadsTo(pager.pages, t', key, CellOf(Rows(t)[k]))
    ensures forall size: nat ::
      CanUpdate(pager.ps, old(pager.nodes), t, key, size, lo) ==> CanInsert(pager.ps, pager.nodes, t', key, size, lo)
  {
    hide Pager.Valid, GoodOf, RowRepr, Freed, IsUpperBound, Foot, ChainRepr, CellsOf, CellOf, Separate, CanUpdate;
    hide CanInsert, WithoutKey;
    ghost var before := pager.nodes;
    pager.Facts();
    LeafRowsAre(pager.ps, before, t, lo, hi);
    var idx;
    found, idx := pager.FindInLeaf(n, key);
    k, t' := idx, t;
    if found {
      ghost var row := t.rows[idx];
      LeafRow(pager.ps, before, t, lo, hi, idx);
      var c := pager.ReadCell(n, idx);
      pager.DeleteCell(n, idx);
      t' := LeafT(n, Remove(t.rows, k));
      if c.Stub? {
        ChainAfterEdit(pager.ps, before, pager.nodes, n, row);
        FreeChain(pager, c.first, row.chain, Chunks(row.payload, pager.ps - 4));
      } else {
        assert PagesOf(row.chain) == {};
        assert pager.nodes - PagesOf(row.chain) == pager.nodes;
      }
      LeafShrunk(pager.ps, before, pager.nodes, t, k, lo, hi);
      WithoutIsRemove(before[n].cells, idx);
      CellsOfRemove(t.rows, k);
      RemovedKey(t.rows, k);
      FreedOffset(before, pager.nodes, Foot(t), Foot(t'), PagesOf(row.chain), n);
    } else {
      WithoutAbsent(before[n].cells, key);
    }
    LeafRowsAre(pager.ps, pager.nodes, t', lo, hi);
    LeafCanInsert(pager.ps, before, pager.nodes, t, t', key, lo);
  }

  lemma FreedOffset(
      nodes: map<nat, Node>, nodes': map<nat, Node>, foot: set<nat>, foot': set<nat>, gone: set<nat>, n: nat)
    requires Freed(nodes, nodes', foot, foot', gone) && n in nodes && nodes[n].Leaf?
    ensures n in nodes' && nodes'[n].Leaf? && nodes'[n].co == nodes[n].co
  {
  }

  lemma RemovedKey(rows: seq<Row>, k: nat)
    requires k < |rows| && Increasing(RowKeys(rows))
    ensures rows[k].key !in RowKeys(Remove(rows, k))
  {
    var ks, rest := RowKeys(rows), RowKeys(Remove(rows, k));
    forall j | 0 <= j < |rest| ensures rest[j] != rows[k].key {
      assert ks[if j < k then j else j + 1] != ks[k];
    }
  }

  lemma LeafRowsAre(ps: nat, nodes: map<nat, Node>, t: Tree, lo: int, hi: int)
    requires PageSizeOk(ps) && t.LeafT? && GoodOf(ps, nodes, [], [t], lo, hi, 0)
    ensures t.page in nodes && nodes[t.page].Leaf? && nodes[t.page].cells == CellsOf(t.rows)
    ensures |nodes[t.page].cells| == |t.rows|
    ensures CellKeys(nodes[t.page].cells) == RowKeys(t.rows) && Increasing(CellKeys(nodes[t.page].cells))
  {
    LeafFacts(ps, nodes, t, lo, hi);
    CellKeysOf(t.rows);
  }

  lemma LeafRow(ps: nat, nodes: map<nat, Node>, t: Tree, lo: int, hi: int, i: nat)
    requires PageSizeOk(ps) && t.LeafT? && GoodOf(ps, nodes, [], [t], lo, hi, 0) && i < |t.rows|
    ensures RowRepr(ps, nodes, t.rows[i]) && NoDup(t.rows[i].chain) && i < |CellsOf(t.rows)|
    ensures CellsOf(t.rows)[i] == CellOf(t.rows[i])
    ensures CellOf(t.rows[i]).Inline? ==> t.rows[i].chain == [] && CellOf(t.rows[i]).payload == t.rows[i].payload
    ensures CellOf(t.rows[i]).Stub? ==>
      && t.rows[i].chain != [] && CellOf(t.rows[i]).first == t.rows[i].chain[0]
      && CellOf(t.rows[i]).total == |t.rows[i].payload|
    ensures CellOf(t.rows[i]).key == t.rows[i].key
  {
    hide NoDup, Disjoint;
    LeafFacts(ps, nodes, t, lo, hi);
  }

  lemma ChainAfterEdit(ps: nat, before: map<nat, Node>, nodes: map<nat, Node>, page: nat, row: Row)
    requires PageSizeOk(ps) && RowRepr(ps, before, row) && row.chain != [] && page in before && before[page].Leaf?
    requires page in nodes && nodes == before[page := nodes[page]]
    ensures ChainRepr(ps, nodes, row.chain, Chunks(row.payload, ps - 4)) && |row.payload| > MaxInline(ps)
  {
  }
}
