/** `insert_into_page`, proved to do to the pages what `TreeInsert.Inserted` says. */
module BTreeInsert {
  import opened Bytes
  import opened SlottedPage
  import opened PageFormat
  import opened PageStore
  import opened TreeSpec
  import opened OverflowChain
  import opened TreeInsert
  import opened TreeKeys
  import opened BTree

  function NeedsOverflow(ps: nat, payload: seq<byte>): bool
    requires PageSizeOk(ps)
  {
    |payload| > MaxInline(ps)
  }

  function InlineSize(ps: nat, payload: seq<byte>): nat
    requires PageSizeOk(ps)
  {
    if NeedsOverflow(ps, payload) then 20 else 12 + |payload|
  }

  ghost function ChainLen(ps: nat, payload: seq<byte>): nat
    requires PageSizeOk(ps)
  {
    if NeedsOverflow(ps, payload) then |Chunks(payload, ps - 4)| else 0
  }

  /** What the code relies on without checking: when the leaf for `key` has no room, the key is new, both
      halves of the cut fit, and an emptied leaf is not cut at its own lower separator. */
  ghost predicate CanInsert(ps: nat, nodes: map<nat, Node>, t: Tree, key: int, size: nat, lo: int)
    decreases t
  {
    match t
    case LeafT(page, rows) =>
      && page in nodes && nodes[page].Leaf?
      && (LEAF_HEADER_SIZE + 2 * |nodes[page].cells| + 2 + size <= nodes[page].co
          || (key !in RowKeys(rows) && (rows != [] || lo < key) && LeafSplitOk(ps, nodes[page].cells, key, size)))
    case NodeT(_, keys, kids) =>
      && |kids| == |keys| + 1
      && forall i: nat :: IsUpperBound(keys, key, i) ==> CanInsert(ps, nodes, kids[i], key, size, LowOf(keys, lo, i))
  }

  ghost predicate LeafSplitOk(ps: nat, cells: seq<LeafCell>, key: int, size: nat) {
    forall k: nat :: IsUpperBound(CellKeys(cells), key, k) ==> SplitFits(ps, cells, k, size)
  }

  lemma RowReadyInline(ps: nat, nodes: map<nat, Node>, key: int, payload: seq<byte>)
    requires PageSizeOk(ps) && IsI64(key) && |payload| <= MaxInline(ps)
    ensures RowReady(ps, nodes, nodes, Row(key, payload, []))
  {
  }

  lemma RowReadyChained(
      ps: nat, before: map<nat, Node>, nodes: map<nat, Node>, key: int, payload: seq<byte>, chain: seq<nat>)
    requires PageSizeOk(ps) && IsI64(key) && MaxInline(ps) < |payload| < U32_LIMIT
    requires Built(ps, before, nodes, chain, Chunks(payload, ps - 4))
    ensures RowReady(ps, before, nodes, Row(key, payload, chain))
  {
  }

  lemma CellKeysOf(rows: seq<Row>)
    ensures CellKeys(CellsOf(rows)) == RowKeys(rows)
  {
  }

  /** Store the payload outside the leaf if it is long, and make the leaf cell for it. */
  method MakeCell(pager: Pager, key: int, payload: seq<byte>) returns (c: LeafCell, ghost row: Row)
    requires pager.Valid() && IsI64(key) && |payload| < U32_LIMIT
    requires pager.total + ChainLen(pager.ps, payload) <= MAX_PAGES
    modifies pager
    ensures pager.Valid() && pager.total <= old(pager.total) + ChainLen(pager.ps, payload)
    ensures RowReady(pager.ps, old(pager.nodes), pager.nodes, row) && row.key == key && row.payload == payload
    ensures !NeedsOverflow(pager.ps, payload) ==> pager.nodes == old(pager.nodes)
    ensures c == CellOf(row) && c.key == key && CellOk(c) && CellSize(c) == InlineSize(pager.ps, payload)
  {
    hide Pager.Valid, ChainRepr, Chunks, RowRepr;
    ghost var before := pager.nodes;
    pager.Facts();
    if NeedsOverflow(pager.ps, payload) {
      var first, chain := WriteChain(pager, payload);
      pager.Facts();
      c, row := Stub(key, |payload|, first), Row(key, payload, chain);
      RowReadyChained(pager.ps, before, pager.nodes, key, payload, chain);
      assert first in PagesOf(chain);
    } else {
      c, row := Inline(key, payload), Row(key, payload, []);
      RowReadyInline(pager.ps, pager.nodes, key, payload);
    }
  }

  lemma CutKeyAbove(rows: seq<Row>, lo: int, pos: nat)
    requires Increasing(RowKeys(rows)) && rows != [] && pos < |rows|
    requires forall i :: 0 <= i < |rows| ==> lo <= rows[i].key
    requires |rows| > 1 || lo < rows[0].key
    ensures CutPoint(|rows|, pos) < |rows| && lo < rows[CutPoint(|rows|, pos)].key
  {
    var ks, m := RowKeys(rows), CutPoint(|rows|, pos);
    if m > 0 {
      assert ks[0] < ks[m];
    }
  }

  lemma LeafPrep(ps: nat, nodes: map<nat, Node>, t: Tree, lo: int, hi: int, pre: seq<nat>, post: seq<nat>)
    requires PageSizeOk(ps) && t.LeafT? && GoodOf(ps, nodes, [], [t], lo, hi, 0) && Linked(nodes, pre + [t.page] + post)
    requires 0 !in nodes
    ensures t.page in nodes && nodes[t.page].Leaf? && nodes[t.page].cells == CellsOf(t.rows)
    ensures CellKeys(nodes[t.page].cells) == RowKeys(t.rows) && Increasing(RowKeys(t.rows))
    ensures var next := nodes[t.page].next; next != t.page && (next != 0 ==> next in nodes && nodes[next].Leaf?)
  {
    hide RowRepr, CellsOf;
    LeafFacts(ps, nodes, t, lo, hi);
    CellKeysOf(t.rows);
    var ls := pre + [t.page] + post;
    assert ls[|pre|] == t.page;
    NextNotSelf(nodes, ls, |pre|);
  }

  /** A leaf at the top of `t` has room for a cell of this size and its pointer. */
  ghost predicate LeafHasRoom(nodes: map<nat, Node>, t: Tree, size: nat)
  {
    t.page in nodes && nodes[t.page].Leaf?
    && LEAF_HEADER_SIZE + 2 * |nodes[t.page].cells| + 2 + size <= nodes[t.page].co
  }

  /** An insertion leaves no leaf empty: none was, or the only leaf was and has room for the row. */
  ghost predicate StaysFilled(nodes: map<nat, Node>, t: Tree, size: nat)
  {
    NoEmptyLeaf(t) || LeafHasRoom(nodes, t, size)
  }

  /** A cut of at least two rows leaves neither half empty. */
  lemma CutNotEmpty(page: nat, right: nat, rows: seq<Row>, pos: nat, m: nat)
    requires |rows| >= 2 && m == CutPoint(|rows|, pos)
    ensures NoEmptyLeaves([LeafT(page, rows[..m]), LeafT(right, rows[m..])])
  {
  }

  lemma GrownNotEmpty(page: nat, rows: seq<Row>, k: nat, row: Row)
    requires k <= |rows|
    ensures NoEmptyLeaves([LeafT(page, Insert(rows, k, row))]) && |Insert(rows, k, row)| == |rows| + 1
  {
  }

  method InsertIntoLeaf(
      pager: Pager, n: nat, key: int, payload: seq<byte>, ghost t: Tree, ghost lo: int, ghost hi: int,
      ghost pre: seq<nat>, ghost post: seq<nat>)
    returns (r: InsertResult, ghost ks: seq<int>, ghost ts: seq<Tree>, ghost row: Row, ghost k: nat)
    requires pager.Valid() && t.LeafT? && t.page == n
    requires GoodOf(pager.ps, pager.nodes, [], [t], lo, hi, 0) && Linked(pager.nodes, pre + [n] + post)
    requires lo <= key < hi && IsI64(key) && |payload| < U32_LIMIT
    requires CanInsert(pager.ps, pager.nodes, t, key, InlineSize(pager.ps, payload), lo)
    requires pager.total + ChainLen(pager.ps, payload) + 1 <= MAX_PAGES
    modifies pager
    ensures pager.Valid() && pager.total <= old(pager.total) + ChainLen(pager.ps, payload) + 1
    ensures r.Duplicate? <==> key in RowKeys(t.rows)
    ensures row.key == key && row.payload == payload
    ensures r.Duplicate? ==> RowReady(pager.ps, old(pager.nodes), pager.nodes, row)
    ensures !r.Duplicate? ==> Inserted(pager.ps, old(pager.nodes), pager.nodes, t, ks, ts, lo, hi, 0, row, k, pre, post)
    ensures !r.Duplicate? && StaysFilled(old(pager.nodes), t, InlineSize(pager.ps, payload)) ==> NoEmptyLeaves(ts)
    ensures r.Done? ==> ks == [] && |ts| == 1 && LeafHasRoom(old(pager.nodes), t, InlineSize(pager.ps, payload))
    ensures r.Split? ==> ks == [r.divider] && |ts| == 2 && ts[1].page == r.newPage && 0 < r.newPage < U32_LIMIT
    ensures r.Split? ==> !LeafHasRoom(old(pager.nodes), t, InlineSize(pager.ps, payload))
  {
    hide Pager.Valid, GoodOf, Linked, RowRepr, Insert, Inserted, IsUpperBound, SplitFits, SplitPages, CellsOf, CellOf;
    hide CellOk, CellSize, Increasing, LeafSplitOk;
    ghost var before := pager.nodes;
    pager.Facts();
    LeafPrep(pager.ps, before, t, lo, hi, pre, post);
    var room := pager.Available(n);
    var size := InlineSize(pager.ps, payload);
    var c;
    c, row := MakeCell(pager, key, payload);
    ghost var nodes := pager.nodes;
    pager.Facts();
    assert nodes[n] == before[n];
    pager.LeafPage(n);
    if size + 2 <= room {
      var ok;
      ok, k := pager.InsertCell(n, c);
      if !ok {
        return Duplicate, [], [], row, k;
      }
      UpperBoundRange(RowKeys(t.rows), key, k);
      ks, ts := [], [LeafT(n, Insert(t.rows, k, row))];
      GrownNotEmpty(n, t.rows, k, row);
      LeafGrown(pager.ps, before, nodes, t, row, k, lo, hi, pre, post);
      r := Done;
    } else {
      r, ks, ts, k := InsertBySplit(pager, n, c, before, t, row, lo, hi, pre, post);
    }
  }

  /** The case without room: the leaf is split around the new row. */
  method InsertBySplit(
      pager: Pager, n: nat, c: LeafCell, ghost before: map<nat, Node>, ghost t: Tree, ghost row: Row, ghost lo: int,
      ghost hi: int, ghost pre: seq<nat>, ghost post: seq<nat>)
    returns (r: InsertResult, ghost ks: seq<int>, ghost ts: seq<Tree>, ghost k: nat)
    requires pager.Valid() && t.LeafT? && t.page == n && pager.total < MAX_PAGES && CellOk(c) && c == CellOf(row)
    requires GoodOf(pager.ps, before, [], [t], lo, hi, 0) && Linked(before, pre + [n] + post) && 0 !in before
    requires RowReady(pager.ps, before, pager.nodes, row) && c.key == row.key
    requires lo <= row.key < hi && row.key !in RowKeys(t.rows) && (t.rows != [] || lo < row.key)
    requires n in before && before[n].Leaf? && LeafSplitOk(pager.ps, before[n].cells, row.key, CellSize(c))
    modifies pager
    ensures pager.Valid() && pager.total <= old(pager.total) + 1
    ensures Inserted(pager.ps, before, pager.nodes, t, ks, ts, lo, hi, 0, row, k, pre, post)
    ensures t.rows != [] ==> NoEmptyLeaves(ts)
    ensures r.Split? && ks == [r.divider] && |ts| == 2 && ts[1].page == r.newPage && 0 < r.newPage < U32_LIMIT
  {
    hide Pager.Valid, GoodOf, Linked, RowRepr, Insert, Inserted, IsUpperBound, SplitFits, SplitPages, CellsOf, CellOf;
    hide CellOk, CellSize, Increasing, HalvesWritten, NoDup;
    ghost var nodes := pager.nodes;
    pager.Facts();
    LeafPrep(pager.ps, before, t, lo, hi, pre, post);
    assert nodes[n] == before[n];
    var ok, divider, right, pos, m := SplitLeaf(pager, n, c);
    k := pos;
    UpperBoundRange(RowKeys(t.rows), row.key, k);
    ghost var rows := Insert(t.rows, k, row);
    CellsOfInsert(t.rows, k, row);
    HalvesRefilled(pager.ps, nodes, pager.nodes, n, right, CellsOf(rows), m, ok);
    CutHypotheses(pager.ps, before, nodes, t, row, k, lo, hi);
    LeafCut(pager.ps, before, nodes, t, row, k, rows, m, right, lo, hi, pre, post);
    ks, ts := [rows[m].key], [LeafT(n, rows[..m]), LeafT(right, rows[m..])];
    if t.rows != [] {
      CutNotEmpty(n, right, rows, pos, m);
    }
    CellsOfAt(rows, m);
    r := Split(divider, right);
  }

  lemma UpperBoundRange(ks: seq<int>, key: int, k: nat)
    requires IsUpperBound(ks, key, k)
    ensures k <= |ks|
  {
  }

  lemma CellsOfAt(rows: seq<Row>, m: nat)
    requires m < |rows|
    ensures |CellsOf(rows)| == |rows| && CellsOf(rows)[m].key == rows[m].key
  {
  }

  lemma CutHypotheses(
      ps: nat, before: map<nat, Node>, nodes: map<nat, Node>, t: Tree, row: Row, k: nat, lo: int, hi: int)
    requires PageSizeOk(ps) && t.LeafT? && GoodOf(ps, before, [], [t], lo, hi, 0)
    requires RowReady(ps, before, nodes, row) && lo <= row.key < hi && (t.rows != [] || lo < row.key)
    requires IsUpperBound(RowKeys(t.rows), row.key, k) && row.key !in RowKeys(t.rows)
    ensures var rows := Insert(t.rows, k, row);
            var m := CutPoint(|t.rows| + 1, k);
            |rows| == |t.rows| + 1 && m < |rows| && lo < rows[m].key
  {
    hide RowRepr, Separate;
    RowAdded(ps, before, nodes, t, row, k, lo, hi);
    CutKeyAbove(Insert(t.rows, k, row), lo, k);
  }

  lemma NodePrep(ps: nat, nodes: map<nat, Node>, t: Tree, lo: int, hi: int, h: nat)
    requires PageSizeOk(ps) && t.NodeT? && GoodOf(ps, nodes, [], [t], lo, hi, h)
    ensures h > 0 && |t.kids| == |t.keys| + 1 && Increasing(t.keys)
    ensures t.page in nodes && nodes[t.page] == NodeOf(t.keys, t.kids) && nodes[t.page].Interior?
    ensures FootOf(t.kids) <= nodes.Keys
    ensures SepKeys(nodes[t.page].seps) == t.keys && NonDecreasing(SepKeys(nodes[t.page].seps))
    ensures |nodes[t.page].seps| == |t.keys|
  {
    NodeFacts(ps, nodes, t, lo, hi, h);
    FootOfRepr(ps, nodes, t.kids);
    SepKeysOf(t.keys, t.kids);
  }

  /** The state in which the recursion enters child `i`. */
  lemma EnterChild(
      ps: nat, nodes: map<nat, Node>, t: Tree, lo: int, hi: int, h: nat, key: int, size: nat, i: nat, pre: seq<nat>,
      post: seq<nat>)
    requires PageSizeOk(ps) && t.NodeT? && GoodOf(ps, nodes, [], [t], lo, hi, h)
    requires Linked(nodes, pre + Leaves(t) + post)
    requires CanInsert(ps, nodes, t, key, size, lo) && lo <= key < hi && IsUpperBound(t.keys, key, i)
    ensures h > 0 && i < |t.kids| && |t.kids| == |t.keys| + 1
    ensures var kid := t.kids[i];
            && GoodOf(ps, nodes, [], [kid], LowOf(t.keys, lo, i), HighOf(t.keys, hi, i), h - 1)
            && LowOf(t.keys, lo, i) <= key < HighOf(t.keys, hi, i)
            && CanInsert(ps, nodes, kid, key, size, LowOf(t.keys, lo, i))
            && (key in RowKeys(Rows(kid)) <==> key in RowKeys(Rows(t)))
            && Linked(nodes, (pre + LeavesOf(t.kids[..i])) + Leaves(kid) + (LeavesOf(t.kids[i + 1..]) + post))
  {
    hide Linked, GoodOf, LeavesOf, Leaves, RowsOf, Rows, RowKeys, CanInsert, Foot;
    NodeFacts(ps, nodes, t, lo, hi, h);
    ChildInterval(t.keys, lo, hi, key, i);
    CanInsertChild(ps, nodes, t, key, size, lo, i);
    GoodChild(ps, nodes, t.keys, t.kids, lo, hi, h - 1, i);
    ChildLeaves(t, i, pre, post);
    KeyInChild(ps, nodes, t, lo, hi, h, i, key);
  }

  lemma KeyInChild(ps: nat, nodes: map<nat, Node>, t: Tree, lo: int, hi: int, h: nat, i: nat, key: int)
    requires PageSizeOk(ps) && t.NodeT? && GoodOf(ps, nodes, [], [t], lo, hi, h) && i < |t.kids|
    requires IsUpperBound(t.keys, key, i)
    ensures key in RowKeys(Rows(t.kids[i])) <==> key in RowKeys(Rows(t))
  {
    hide ReprOf, SeparateOf, OrderedOf, RowsOf, Rows, RowKeys, IsUpperBound;
    NodeFacts(ps, nodes, t, lo, hi, h);
    if key in RowKeys(Rows(t)) {
      if key !in RowKeys(Rows(t.kids[i])) {
        KeyElsewhere(t, lo, hi, h, i, key);
      }
    } else {
      KidKeys(t, i, key);
    }
  }

  lemma GoodChild(ps: nat, nodes: map<nat, Node>, keys: seq<int>, kids: seq<Tree>, lo: int, hi: int, h: nat, i: nat)
    requires PageSizeOk(ps) && GoodOf(ps, nodes, keys, kids, lo, hi, h) && i < |kids| && |kids| == |keys| + 1
    ensures GoodOf(ps, nodes, [], [kids[i]], LowOf(keys, lo, i), HighOf(keys, hi, i), h)
  {
  }

  lemma ChildLeaves(t: Tree, i: nat, pre: seq<nat>, post: seq<nat>)
    requires t.NodeT? && i < |t.kids|
    ensures pre + Leaves(t) + post ==
      (pre + LeavesOf(t.kids[..i])) + Leaves(t.kids[i]) + (LeavesOf(t.kids[i + 1..]) + post)
  {
    hide LeavesOf;
    LeavesContext(t.kids, i, pre, post);
  }

  lemma CanInsertChild(ps: nat, nodes: map<nat, Node>, t: Tree, key: int, size: nat, lo: int, i: nat)
    requires t.NodeT? && CanInsert(ps, nodes, t, key, size, lo) && IsUpperBound(t.keys, key, i)
    ensures |t.kids| == |t.keys| + 1 && CanInsert(ps, nodes, t.kids[i], key, size, LowOf(t.keys, lo, i))
  {
  }

  /** `insert_into_page`. */
  method InsertIntoPage(
      pager: Pager, n: nat, key: int, payload: seq<byte>, ghost t: Tree, ghost lo: int, ghost hi: int, ghost h: nat,
                        ghost pre: seq<nat>, ghost post: seq<nat>)
    returns (r: InsertResult, ghost ks: seq<int>, ghost ts: seq<Tree>, ghost row: Row, ghost k: nat)
    requires pager.Valid() && t.page == n
    requires GoodOf(pager.ps, pager.nodes, [], [t], lo, hi, h) && Linked(pager.nodes, pre + Leaves(t) + post)
    requires lo <= key < hi && IsI64(key) && |payload| < U32_LIMIT
    requires CanInsert(pager.ps, pager.nodes, t, key, InlineSize(pager.ps, payload), lo)
    requires pager.total + ChainLen(pager.ps, payload) + h + 1 <= MAX_PAGES
    modifies pager
    ensures pager.Valid() && pager.total <= old(pager.total) + ChainLen(pager.ps, payload) + h + 1
    ensures r.Duplicate? <==> key in RowKeys(Rows(t))
    ensures row.key == key && row.payload == payload
    ensures r.Duplicate? ==> RowReady(pager.ps, old(pager.nodes), pager.nodes, row)
    ensures !r.Duplicate? ==> Inserted(pager.ps, old(pager.nodes), pager.nodes, t, ks, ts, lo, hi, h, row, k, pre, post)
    ensures !r.Duplicate? && StaysFilled(old(pager.nodes), t, InlineSize(pager.ps, payload)) ==> NoEmptyLeaves(ts)
    ensures r.Done? ==> ks == [] && |ts| == 1
    ensures r.Split? ==> ks == [r.divider] && |ts| == 2 && ts[1].page == r.newPage && 0 < r.newPage < U32_LIMIT
    ensures t.LeafT? && !r.Duplicate? ==>
      (r.Done? <==> LeafHasRoom(old(pager.nodes), t, InlineSize(pager.ps, payload)))
    decreases h
  {
    hide Pager.Valid, Linked, Inserted, GoodOf, CanInsert, RowsOf, LeavesOf, Insert, SepsOf, SpliceKids, SpliceKeys;
    hide NoEmptyLeaf, NoEmptyLeaves, StaysFilled, LeafHasRoom;
    ghost var before := pager.nodes;
    pager.Facts();
    PageKind(pager.ps, before, t, lo, hi, h);
    if pager.IsLeafPage(n) {
      r, ks, ts, row, k := InsertIntoLeaf(pager, n, key, payload, t, lo, hi, pre, post);
    } else {
      NodePrep(pager.ps, before, t, lo, hi, h);
      var child, i := pager.FindChild(n, key);
      EnterChild(pager.ps, before, t, lo, hi, h, key, InlineSize(pager.ps, payload), i, pre, post);
      NoEmptyChild(before, t, i, InlineSize(pager.ps, payload));
      ghost var lo', hi' := LowOf(t.keys, lo, i), HighOf(t.keys, hi, i);
      assert child == t.kids[i].page;
      r, ks, ts, row, k := InsertIntoPage(pager, child, key, payload, t.kids[i], lo', hi', h - 1,
                                          pre + LeavesOf(t.kids[..i]), LeavesOf(t.kids[i + 1..]) + post);
      if r.Duplicate? {
        return;
      }
      r, ks, ts, k := PropagateSplit(pager, n, child, i, r, before, t, lo, hi, h, ks, ts, row, k, pre, post);
    }
  }

  lemma NoEmptyChild(nodes: map<nat, Node>, t: Tree, i: nat, size: nat)
    requires t.NodeT? && i < |t.kids| && t.page in nodes && nodes[t.page].Interior?
    ensures StaysFilled(nodes, t, size) ==> NoEmptyLeaf(t)
    ensures NoEmptyLeaf(t) ==> StaysFilled(nodes, t.kids[i], size)
  {
  }

  lemma PageKind(ps: nat, nodes: map<nat, Node>, t: Tree, lo: int, hi: int, h: nat)
    requires PageSizeOk(ps) && GoodOf(ps, nodes, [], [t], lo, hi, h)
    ensures t.page in nodes && (t.LeafT? <==> nodes[t.page].Leaf?) && (t.NodeT? <==> nodes[t.page].Interior?)
    ensures (h == 0 <==> t.LeafT?)
    ensures t.LeafT? ==> Leaves(t) == [t.page] && Rows(t) == t.rows
  {
    assert Repr(ps, nodes, [t][0]);
    assert Ordered([t][0], LowOf([], lo, 0), HighOf([], hi, 0), h);
  }

  /** The tail of the interior case: nothing to do, one more separator, or an interior split. */
  method PropagateSplit(
      pager: Pager, n: nat, child: nat, i: nat, r0: InsertResult, ghost before: map<nat, Node>, ghost t: Tree,
                        ghost lo: int, ghost hi: int, ghost h: nat, ghost ks0: seq<int>,
                        ghost ts0: seq<Tree>, ghost row: Row, ghost k0: nat,
                        ghost pre: seq<nat>, ghost post: seq<nat>)
    returns (r: InsertResult, ghost ks: seq<int>, ghost ts: seq<Tree>, ghost k: nat)
    requires pager.Valid() && t.NodeT? && t.page == n && pager.total < MAX_PAGES && h > 0 && !r0.Duplicate?
    requires GoodOf(pager.ps, before, [], [t], lo, hi, h) && |t.kids| == |t.keys| + 1 && i < |t.kids|
    requires child == t.kids[i].page
    requires Inserted(pager.ps, before, pager.nodes, t.kids[i], ks0, ts0,
                      LowOf(t.keys, lo, i), HighOf(t.keys, hi, i), h - 1, row, k0,
                      pre + LeavesOf(t.kids[..i]), LeavesOf(t.kids[i + 1..]) + post)
    requires NoEmptyLeaf(t) ==> NoEmptyLeaves(ts0)
    requires r0.Done? ==> ks0 == [] && |ts0| == 1
    requires r0.Split? ==> ks0 == [r0.divider] && |ts0| == 2 && ts0[1].page == r0.newPage && 0 < r0.newPage < U32_LIMIT
    modifies pager
    ensures pager.Valid() && pager.total <= old(pager.total) + 1
    ensures !r.Duplicate? && Inserted(pager.ps, before, pager.nodes, t, ks, ts, lo, hi, h, row, k, pre, post)
    ensures NoEmptyLeaf(t) ==> NoEmptyLeaves(ts)
    ensures r.Done? ==> ks == [] && |ts| == 1
    ensures r.Split? ==> ks == [r.divider] && |ts| == 2 && ts[1].page == r.newPage && 0 < r.newPage < U32_LIMIT
  {
    hide Pager.Valid, Linked, RowsOf, LeavesOf, Insert, SepsOf, SpliceKids, SpliceKeys, OrderedOf, ReprOf, SeparateOf;
    hide Foot, FootOf, Framed;
    hide NoEmptyLeaf, NoEmptyLeaves, Untouched, Rows, Leaves;
    ghost var nodes := pager.nodes;
    pager.Facts();
    NodePrep(pager.ps, before, t, lo, hi, h);
    KidInserted(pager.ps, before, nodes, t, i, ks0, ts0, lo, hi, h, row, k0, pre, post);
    k := |RowsOf(t.kids[..i])| + k0;
    ghost var keys, kids := SpliceKeys(t.keys, i, ks0), SpliceKids(t.kids, i, ts0);
    NodesNotEmpty(t, i, ts0, n, keys);
    if r0.Done? {
      SpliceOne(t.keys, t.kids, i, ts0);
      NodeGrown(pager.ps, before, nodes, t, keys, kids, lo, hi, h - 1, row, k, pre, post);
      assert nodes[n := NodeOf(keys, kids)] == nodes;
      return Done, [], [NodeT(n, keys, kids)], k;
    }
    SplitPrep(pager.ps, nodes, t, i, r0.divider, ts0, lo, hi, h);
    var e := Sep(child, r0.divider);
    ghost var full := SepAdded(nodes[n], i, e, r0.newPage);
    pager.InteriorPage(n);
    var room := pager.Available(n);
    if 12 + 2 <= room {
      AddSeparator(pager, n, i, e, r0.newPage);
      NodeGrown(pager.ps, before, nodes, t, keys, kids, lo, hi, h - 1, row, k, pre, post);
      return Done, [], [NodeT(n, keys, kids)], k;
    }
    var promoted, newPage, m := SplitInterior(pager, n, i, e, r0.newPage);
    NodeCut(pager.ps, before, nodes, t, keys, kids, m, newPage, lo, hi, h - 1, row, k, pre, post);
    NodeHalves(keys, kids, m);
    NodesNotEmptyCut(t, n, newPage, keys, kids, m);
    r, ks := Split(promoted, newPage), [promoted];
    ts := [NodeT(n, keys[..m], kids[..m + 1]), NodeT(newPage, keys[m + 1..], kids[m + 1..])];
  }

  lemma NodesNotEmpty(t: Tree, i: nat, ts: seq<Tree>, n: nat, keys: seq<int>)
    requires t.NodeT? && i < |t.kids| && 1 <= |ts| && (NoEmptyLeaf(t) ==> NoEmptyLeaves(ts))
    ensures NoEmptyLeaf(t) ==> NoEmptyLeaf(NodeT(n, keys, SpliceKids(t.kids, i, ts)))
    ensures NoEmptyLeaf(t) ==> NoEmptyLeaves([NodeT(n, keys, SpliceKids(t.kids, i, ts))])
  {
  }

  lemma NodesNotEmptyCut(t: Tree, n: nat, right: nat, keys: seq<int>, kids: seq<Tree>, m: nat)
    requires |kids| == |keys| + 1 && m < |keys| && (NoEmptyLeaf(t) ==> NoEmptyLeaf(NodeT(n, keys, kids)))
    ensures NoEmptyLeaf(t) ==>
      NoEmptyLeaves([NodeT(n, keys[..m], kids[..m + 1]), NodeT(right, keys[m + 1..], kids[m + 1..])])
  {
  }

  lemma NodeHalves(keys: seq<int>, kids: seq<Tree>, m: nat)
    requires |kids| == |keys| + 1 && m < |keys|
    ensures var full := NodeOf(keys, kids);
            && |full.seps| == |keys| && full.seps[m].key == keys[m]
            && Interior(full.seps[..m], full.seps[m].child) == NodeOf(keys[..m], kids[..m + 1])
            && Interior(full.seps[m + 1..], full.right) == NodeOf(keys[m + 1..], kids[m + 1..])
  {
  }

  /** The divider returned by the child lies strictly inside the child's interval. */
  lemma SplitPrep(ps: nat, nodes: map<nat, Node>, t: Tree, i: nat, key: int, ts: seq<Tree>, lo: int, hi: int, h: nat)
    requires PageSizeOk(ps) && h > 0 && t.NodeT? && |t.kids| == |t.keys| + 1 && i < |t.kids| && Increasing(t.keys)
    requires t.page in nodes && nodes[t.page] == NodeOf(t.keys, t.kids) && |ts| == 2 && ts[0].page == t.kids[i].page
    requires OrderedOf([key], ts, LowOf(t.keys, lo, i), HighOf(t.keys, hi, i), h - 1)
    requires OrderedOf(SpliceKeys(t.keys, i, [key]), SpliceKids(t.kids, i, ts), lo, hi, h - 1)
    requires forall p :: p in nodes ==> p < U32_LIMIT
    requires ReprOf(ps, nodes, SpliceKids(t.kids, i, ts))
    ensures IsI64(key) && key !in t.keys && forall j: nat :: IsUpperBound(t.keys, key, j) ==> j == i
    ensures t.kids[i].page < U32_LIMIT
    ensures |SpliceKids(t.kids, i, ts)| == |SpliceKeys(t.keys, i, [key])| + 1
    ensures SepAdded(nodes[t.page], i, Sep(t.kids[i].page, key), ts[1].page) ==
      NodeOf(SpliceKeys(t.keys, i, [key]), SpliceKids(t.kids, i, ts))
    ensures SepsOk(SepAdded(nodes[t.page], i, Sep(t.kids[i].page, key), ts[1].page).seps)
  {
    hide ReprOf, SpliceKids, SpliceKeys, SepAdded, NodeOf, SepsOk, OrderedOf, Increasing, IsUpperBound;
    PairKey(key, ts, LowOf(t.keys, lo, i), HighOf(t.keys, hi, i), h - 1);
    RunLength(SpliceKeys(t.keys, i, [key]), SpliceKids(t.kids, i, ts), lo, hi, h - 1);
    DividerPosition(t.keys, lo, hi, i, key);
    SepAddedIsNode(t.keys, t.kids, i, key, ts);
    var keys, kids := SpliceKeys(t.keys, i, [key]), SpliceKids(t.kids, i, ts);
    NodeSepsOk(ps, nodes, keys, kids, lo, hi, h - 1);
    SplicedPage(ps, nodes, t.kids, i, ts);
  }

  lemma PairKey(key: int, ts: seq<Tree>, lo: int, hi: int, h: nat)
    requires OrderedOf([key], ts, lo, hi, h)
    ensures lo < key < hi && IsI64(key)
  {
    assert [key][0] == key;
  }

  lemma RunLength(keys: seq<int>, kids: seq<Tree>, lo: int, hi: int, h: nat)
    requires OrderedOf(keys, kids, lo, hi, h)
    ensures |kids| == |keys| + 1
  {
  }

  lemma SplicedPage(ps: nat, nodes: map<nat, Node>, kids: seq<Tree>, i: nat, ts: seq<Tree>)
    requires PageSizeOk(ps) && i < |kids| && |ts| == 2 && ReprOf(ps, nodes, SpliceKids(kids, i, ts))
    requires forall p :: p in nodes ==> p < U32_LIMIT
    ensures ts[0].page < U32_LIMIT
  {
    assert SpliceKids(kids, i, ts)[i] == ts[0];
  }

  lemma NodeSepsOk(ps: nat, nodes: map<nat, Node>, keys: seq<int>, kids: seq<Tree>, lo: int, hi: int, h: nat)
    requires PageSizeOk(ps) && OrderedOf(keys, kids, lo, hi, h) && ReprOf(ps, nodes, kids)
    requires forall p :: p in nodes ==> p < U32_LIMIT
    ensures SepsOk(NodeOf(keys, kids).seps)
  {
  }
}
