/** Updates that need no split: the leaf has room for the new cell beside the deleted one. */
module Updates {
  import opened Bytes
  import opened PageFormat
  import opened PageStore
  import opened TreeSpec
  import opened TreeKeys
  import opened TreeInsert
  import opened BTree
  import opened BTreeInsert
  import opened BTreeDelete
  import opened Table

  /** Bytes left for a cell and its pointer on the leaf for `key`, once its old cell is deleted. */
  ghost predicate HasRoom(nodes: map<nat, Node>, t: Tree, key: int, size: nat)
    decreases t
  {
    match t
    case LeafT(page, _) =>
      && page in nodes && nodes[page].Leaf?
      && LEAF_HEADER_SIZE + 2 * |WithoutKey(nodes[page].cells, key)| + 2 + size <= nodes[page].co
    case NodeT(_, keys, kids) =>
      |kids| == |keys| + 1 && forall i: nat :: IsUpperBound(keys, key, i) ==> HasRoom(nodes, kids[i], key, size)
  }

  /** With room no split is made, so nothing else matters: not even that the leaf's only row sits at its separator. */
  lemma {:induction false} RoomCanUpdate(ps: nat, nodes: map<nat, Node>, t: Tree, key: int, size: nat, lo: int)
    requires HasRoom(nodes, t, key, size)
    ensures CanUpdate(ps, nodes, t, key, size, lo)
    decreases t
  {
    if t.NodeT? {
      forall i: nat | IsUpperBound(t.keys, key, i)
        ensures CanUpdate(ps, nodes, t.kids[i], key, size, LowOf(t.keys, lo, i))
      {
        RoomCanUpdate(ps, nodes, t.kids[i], key, size, LowOf(t.keys, lo, i));
      }
    }
  }

  /** The one row that a split at the right edge leaves on a new leaf can be updated to any payload. */
  lemma SoleRowHasRoom(ps: nat, nodes: map<nat, Node>, page: nat, c: LeafCell, size: nat)
    requires PageSizeOk(ps) && CellSize(c) <= 12 + MaxInline(ps) && size <= 12 + MaxInline(ps)
    requires page in nodes && nodes[page].Leaf? && nodes[page].cells == [c] && nodes[page].co == ps - CellSize(c)
    ensures forall rows :: HasRoom(nodes, LeafT(page, rows), c.key, size)
  {
    assert [c][1..] == [];
    assert WithoutKey([c], c.key) == [];
  }

  lemma NodeHasRoom(nodes: map<nat, Node>, t: Tree, i: nat, key: int, size: nat)
    requires t.NodeT? && |t.kids| == |t.keys| + 1 && IsUpperBound(t.keys, key, i)
    requires HasRoom(nodes, t.kids[i], key, size)
    ensures HasRoom(nodes, t, key, size)
  {
    forall j: nat | IsUpperBound(t.keys, key, j) ensures HasRoom(nodes, t.kids[j], key, size) {
      OneUpperBound(t.keys, key, i, j);
    }
  }

  lemma ChildHasRoom(nodes: map<nat, Node>, t: Tree, i: nat, key: int, size: nat)
    requires t.NodeT? && |t.kids| == |t.keys| + 1 && IsUpperBound(t.keys, key, i)
    ensures HasRoom(nodes, t, key, size) ==> HasRoom(nodes, t.kids[i], key, size)
  {
  }

  /** Whether the leaf for `key` has room. */
  method FindRoom(pager: Pager, n: nat, key: int, size: nat, ghost t: Tree, ghost lo: int, ghost hi: int, ghost h: nat)
    returns (ok: bool)
    requires pager.Valid() && t.page == n && GoodOf(pager.ps, pager.nodes, [], [t], lo, hi, h) && lo <= key < hi
    ensures ok <==> HasRoom(pager.nodes, t, key, size)
    decreases h
  {
    hide Pager.Valid, GoodOf, IsUpperBound;
    pager.Facts();
    PageKind(pager.ps, pager.nodes, t, lo, hi, h);
    if pager.IsLeafPage(n) {
      LeafRowsAre(pager.ps, pager.nodes, t, lo, hi);
      pager.LeafPage(n);
      var found, idx := pager.FindInLeaf(n, key);
      var room := pager.Available(n);
      if found {
        WithoutIsRemove(pager.nodes[n].cells, idx);
        ok := size <= room;
      } else {
        WithoutAbsent(pager.nodes[n].cells, key);
        ok := size + 2 <= room;
      }
    } else {
      NodePrep(pager.ps, pager.nodes, t, lo, hi, h);
      var child, i := pager.FindChild(n, key);
      NodeFacts(pager.ps, pager.nodes, t, lo, hi, h);
      ChildInterval(t.keys, lo, hi, key, i);
      UpperBoundRange(t.keys, key, i);
      GoodChild(pager.ps, pager.nodes, t.keys, t.kids, lo, hi, h - 1, i);
      ok := FindRoom(pager, child, key, size, t.kids[i], LowOf(t.keys, lo, i), HighOf(t.keys, hi, i), h - 1);
      ChildHasRoom(pager.nodes, t, i, key, size);
      if ok {
        NodeHasRoom(pager.nodes, t, i, key, size);
      }
    }
  }

  /** An update that looks for room first needs no hypothesis about splits. */
  method UpdateInRoom(table: BTreeTable, rowid: int, payload: seq<byte>) returns (ok: bool)
    requires table.Valid() && IsI64(rowid) && |payload| < U32_LIMIT
    requires table.pager.total + ChainLen(table.pager.ps, payload) + table.height + 2 <= MAX_PAGES
    modifies table, table.pager
    ensures table.Valid()
    ensures ok <==> HasRoom(
      old(table.pager.nodes), old(table.tree), rowid, InlineSize(table.pager.ps, payload))
    ensures table.model == if ok then old(table.model)[rowid := payload] else old(table.model)
  {
    hide Pager.Valid, GoodOf, Linked, IsModel, Increasing, CanUpdate, HasRoom;
    var pager := table.pager;
    var size := InlineSize(pager.ps, payload);
    ok := FindRoom(pager, table.root, rowid, size, table.tree, LO, HI, table.height);
    if ok {
      RoomCanUpdate(pager.ps, pager.nodes, table.tree, rowid, size, LO);
      ok := table.Update(rowid, payload);
    }
  }
}
