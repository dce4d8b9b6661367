/** What an insertion does to a tree: the statement proved of `insert_into_page`, and
    the steps that carry it from a leaf up through interior pages. */
module TreeInsert {
  import opened Bytes
  import opened SlottedPage
  import opened PageFormat
  import opened PageStore
  import opened TreeSpec
  import opened OverflowChain

  ghost predicate GoodOf(ps: nat, nodes: map<nat, Node>, ks: seq<int>, ts: seq<Tree>, lo: int, hi: int, h: nat)
    requires PageSizeOk(ps)
  {
    ReprOf(ps, nodes, ts) && SeparateOf(ts) && OrderedOf(ks, ts, lo, hi, h)
  }

  /** Pages outside the tree keep their contents; new pages were free before. */
  ghost predicate Framed(nodes: map<nat, Node>, nodes': map<nat, Node>, foot: set<nat>, foot': set<nat>) {
    && foot <= foot' && foot' * nodes.Keys <= foot
    && nodes'.Keys == nodes.Keys + foot'
    && Kept(nodes, nodes', nodes.Keys - foot)
  }

  /** The only page outside the tree that may change at all is a leaf of `post`, by its back link. */
  ghost predicate Untouched(nodes: map<nat, Node>, nodes': map<nat, Node>, foot: set<nat>, post: seq<nat>) {
    forall p :: p in nodes && p !in foot && p !in post ==> p in nodes' && nodes'[p] == nodes[p]
  }

  /** Subtree `t` became the run `ts` (one tree, or two around `ks[0]`): it holds the old rows and
      `row` at position `k`, in order and at the same height, and the whole leaf list
      `pre + leaves + post` is still linked. */
  ghost predicate Inserted(ps: nat, nodes: map<nat, Node>, nodes': map<nat, Node>, t: Tree, ks: seq<int>, ts: seq<Tree>,
                           lo: int, hi: int, h: nat, row: Row, k: nat, pre: seq<nat>, post: seq<nat>)
    requires PageSizeOk(ps)
  {
    && 1 <= |ts| <= 2 && ts[0].page == t.page
    && GoodOf(ps, nodes', ks, ts, lo, hi, h)
    && k <= |Rows(t)| && RowsOf(ts) == Insert(Rows(t), k, row)
    && Linked(nodes', pre + LeavesOf(ts) + post)
    && Framed(nodes, nodes', Foot(t), FootOf(ts)) && Untouched(nodes, nodes', Foot(t), post)
  }

  // ---- leaf level ----

  /** `row` is stored apart from its leaf cell: its overflow chain, if any, is in place. */
  ghost predicate RowReady(ps: nat, before: map<nat, Node>, nodes: map<nat, Node>, row: Row)
    requires PageSizeOk(ps)
  {
    && RowRepr(ps, nodes, row) && NoDup(row.chain)
    && PagesOf(row.chain) !! before.Keys && nodes.Keys == before.Keys + PagesOf(row.chain)
    && forall p :: p in before ==> nodes[p] == before[p]
  }

  lemma CellsOfInsert(rows: seq<Row>, k: nat, row: Row)
    requires k <= |rows|
    ensures CellsOf(Insert(rows, k, row)) == Insert(CellsOf(rows), k, CellOf(row))
  {
  }

  lemma ChainPagesInsert(rows: seq<Row>, k: nat, row: Row)
    requires k <= |rows|
    ensures ChainPages(Insert(rows, k, row)) == ChainPages(rows) + PagesOf(row.chain)
  {
    var rows' := Insert(rows, k, row);
    forall p | p in ChainPages(rows') ensures p in ChainPages(rows) + PagesOf(row.chain) {
      var i :| 0 <= i < |rows'| && p in rows'[i].chain;
      if i != k {
        assert rows'[i] == rows[if i < k then i else i - 1];
      }
    }
    forall p | p in ChainPages(rows) ensures p in ChainPages(rows') {
      var i :| 0 <= i < |rows| && p in rows[i].chain;
      assert rows[i] == rows'[if i < k then i else i + 1];
    }
    forall p | p in PagesOf(row.chain) ensures p in ChainPages(rows') {
      assert rows'[k] == row;
    }
  }

  /** Adding a row with fresh chain pages keeps a leaf separate. */
  lemma SeparateInsert(page: nat, rows: seq<Row>, k: nat, row: Row)
    requires Separate(LeafT(page, rows)) && k <= |rows| && NoDup(row.chain)
    requires PagesOf(row.chain) !! Foot(LeafT(page, rows))
    ensures Separate(LeafT(page, Insert(rows, k, row)))
  {
    hide NoDup;
    var rows' := Insert(rows, k, row);
    forall x | x in row.chain ensures x != page && x !in ChainPages(rows) {
      assert x in PagesOf(row.chain);
    }
    forall i, j | 0 <= i < j < |rows'| ensures Disjoint(rows'[i].chain, rows'[j].chain) {
      if i == k {
        assert forall x :: x in rows'[j].chain ==> x in ChainPages(rows);
      } else if j == k {
        assert forall x :: x in rows'[i].chain ==> x in ChainPages(rows);
      }
    }
  }

  /** A leaf over any part of a separate leaf's rows, on its own page. */
  lemma SeparatePart(page: nat, rows: seq<Row>, a: nat, b: nat, page': nat)
    requires Separate(LeafT(page, rows)) && a <= b <= |rows|
    requires page' == page || page' !in Foot(LeafT(page, rows))
    ensures Separate(LeafT(page', rows[a..b]))
  {
  }

  lemma ChainPagesCut(rows: seq<Row>, m: nat)
    requires m <= |rows|
    ensures ChainPages(rows) == ChainPages(rows[..m]) + ChainPages(rows[m..])
  {
  }

  lemma ChainsApart(page: nat, rows: seq<Row>, m: nat)
    requires Separate(LeafT(page, rows)) && m <= |rows|
    ensures ChainPages(rows[..m]) !! ChainPages(rows[m..])
  {
  }

  lemma OrderedInsert(rows: seq<Row>, k: nat, row: Row, lo: int, hi: int)
    requires Increasing(RowKeys(rows)) && (forall i :: 0 <= i < |rows| ==> lo <= rows[i].key < hi)
    requires IsUpperBound(RowKeys(rows), row.key, k) && row.key !in RowKeys(rows) && lo <= row.key < hi
    ensures Increasing(RowKeys(Insert(rows, k, row)))
    ensures forall i :: 0 <= i < |rows| + 1 ==> lo <= Insert(rows, k, row)[i].key < hi
  {
  }

  lemma ReprRows(ps: nat, before: map<nat, Node>, nodes: map<nat, Node>, t: Tree, k: nat, row: Row)
    requires PageSizeOk(ps) && t.LeafT? && Repr(ps, before, t) && RowReady(ps, before, nodes, row) && k <= |t.rows|
    ensures forall i :: 0 <= i < |t.rows| + 1 ==> RowRepr(ps, nodes, Insert(t.rows, k, row)[i])
  {
    hide ChunkPage, Chunks;
    forall i | 0 <= i < |t.rows| ensures RowRepr(ps, nodes, t.rows[i]) {
      assert RowRepr(ps, before, t.rows[i]);
    }
  }

  /** Re-linking aside, a leaf list depends only on the link fields of its pages. */
  lemma LinkedSame(nodes: map<nat, Node>, nodes': map<nat, Node>, ls: seq<nat>)
    requires Linked(nodes, ls)
    requires forall p :: p in ls && p in nodes && nodes[p].Leaf? ==>
               p in nodes' && nodes'[p].Leaf? && nodes'[p].next == nodes[p].next && nodes'[p].prev == nodes[p].prev
    ensures Linked(nodes', ls)
  {
    hide NoDup;
    forall i | 0 <= i < |ls| ensures LinkOk(nodes', ls, i) {
      assert LinkOk(nodes, ls, i) && ls[i] in ls;
    }
  }

  /** The leaf's rows once `row` is among them. */
  ghost predicate RowsGood(ps: nat, nodes: map<nat, Node>, page: nat, rows: seq<Row>, lo: int, hi: int)
    requires PageSizeOk(ps)
  {
    && Separate(LeafT(page, rows)) && Increasing(RowKeys(rows))
    && forall i :: 0 <= i < |rows| ==> lo <= rows[i].key < hi && IsI64(rows[i].key) && RowRepr(ps, nodes, rows[i])
  }

  lemma RowAdded(ps: nat, before: map<nat, Node>, nodes: map<nat, Node>, t: Tree, row: Row, k: nat, lo: int, hi: int)
    requires PageSizeOk(ps) && t.LeafT? && GoodOf(ps, before, [], [t], lo, hi, 0)
    requires RowReady(ps, before, nodes, row) && lo <= row.key < hi
    requires IsUpperBound(RowKeys(t.rows), row.key, k) && row.key !in RowKeys(t.rows)
    ensures RowsGood(ps, nodes, t.page, Insert(t.rows, k, row), lo, hi)
    ensures Foot(LeafT(t.page, Insert(t.rows, k, row))) == Foot(t) + PagesOf(row.chain)
    ensures Foot(t) <= before.Keys && t.page in before && before[t.page].Leaf?
    ensures before[t.page].cells == CellsOf(t.rows)
  {
    hide RowRepr, NoDup, Disjoint, Increasing, CellsOf;
    LeafFacts(ps, before, t, lo, hi);
    ReprFoot(ps, before, t);
    ChainPagesInsert(t.rows, k, row);
    SeparateInsert(t.page, t.rows, k, row);
    OrderedInsert(t.rows, k, row, lo, hi);
    ReprRows(ps, before, nodes, t, k, row);
    RowKeysI64(ps, nodes, Insert(t.rows, k, row));
  }

  /** The fast path: the cell went into the leaf. */
  lemma LeafGrown(
      ps: nat, before: map<nat, Node>, nodes: map<nat, Node>, t: Tree, row: Row, k: nat, lo: int, hi: int,
      pre: seq<nat>, post: seq<nat>)
    requires PageSizeOk(ps) && t.LeafT? && GoodOf(ps, before, [], [t], lo, hi, 0)
    requires Linked(before, pre + [t.page] + post)
    requires RowReady(ps, before, nodes, row) && lo <= row.key < hi
    requires IsUpperBound(RowKeys(t.rows), row.key, k) && row.key !in RowKeys(t.rows)
    requires t.page in nodes && nodes[t.page].Leaf? && k <= |nodes[t.page].cells|
    requires CellSize(CellOf(row)) <= nodes[t.page].co
    ensures Inserted(ps, before, nodes[t.page := WithCell(nodes[t.page], k, CellOf(row))], t,
                     [], [LeafT(t.page, Insert(t.rows, k, row))], lo, hi, 0, row, k, pre, post)
  {
    hide RowRepr, NoDup, Disjoint, Increasing, CellOf, CellSize, Separate, Framed, Untouched;
    var rows', page := Insert(t.rows, k, row), t.page;
    var t' := LeafT(page, rows');
    var nodes' := nodes[page := WithCell(nodes[page], k, CellOf(row))];
    RowAdded(ps, before, nodes, t, row, k, lo, hi);
    CellsOfInsert(t.rows, k, row);
    forall i | 0 <= i < |rows'| ensures RowRepr(ps, nodes', rows'[i]) {
      forall p | p in rows'[i].chain ensures p in nodes && p != page {
        ChainNotLeaf(ps, nodes, rows'[i], p);
      }
      RowReprFrame(ps, nodes, nodes', rows'[i]);
    }
    SingleRun(ps, nodes', t', lo, hi, 0);
    LinkedSame(before, nodes', pre + [page] + post);
    SingleFoot(t');
    GrownFramed(before, nodes, t, row, nodes'[page], post);
  }

  lemma GrownFramed(before: map<nat, Node>, nodes: map<nat, Node>, t: Tree, row: Row, node: Node, post: seq<nat>)
    requires t.LeafT? && Foot(t) <= before.Keys && t.page in before
    requires PagesOf(row.chain) !! before.Keys && nodes.Keys == before.Keys + PagesOf(row.chain)
    requires forall p :: p in before ==> nodes[p] == before[p]
    ensures Framed(before, nodes[t.page := node], Foot(t), Foot(t) + PagesOf(row.chain))
    ensures Untouched(before, nodes[t.page := node], Foot(t), post)
  {
  }

  lemma UntouchedWiden(nodes: map<nat, Node>, nodes': map<nat, Node>, t: Tree, post: seq<nat>)
    requires Untouched(nodes, nodes', {t.page}, post)
    ensures Untouched(nodes, nodes', Foot(t), post)
  {
  }

  lemma LeafFacts(ps: nat, nodes: map<nat, Node>, t: Tree, lo: int, hi: int)
    requires PageSizeOk(ps) && t.LeafT? && GoodOf(ps, nodes, [], [t], lo, hi, 0)
    ensures Repr(ps, nodes, t) && Separate(t) && Ordered(t, lo, hi, 0)
  {
    assert [t][0] == t;
    assert LowOf([], lo, 0) == lo && HighOf([], hi, 0) == hi;
  }

  lemma SingleRun(ps: nat, nodes: map<nat, Node>, t: Tree, lo: int, hi: int, h: nat)
    requires PageSizeOk(ps) && Repr(ps, nodes, t) && Separate(t) && Ordered(t, lo, hi, h)
    ensures GoodOf(ps, nodes, [], [t], lo, hi, h)
  {
  }

  lemma SingleFoot(t: Tree)
    ensures FootOf([t]) == Foot(t) && RowsOf([t]) == Rows(t) && LeavesOf([t]) == Leaves(t)
  {
    hide Foot, Rows, Leaves;
    assert [t][0] == t;
    forall p | p in Foot(t) ensures p in FootOf([t]) {
      assert p in Foot([t][0]);
    }
  }

  // ---- leaf split ----

  ghost function LeafRoom(ps: nat, cells: seq<LeafCell>): int {
    ps - LEAF_HEADER_SIZE - 2 * |cells| - CellBytes(cells)
  }

  /** Page `next`, if there is one, gets `prev` as its predecessor. */
  ghost function Relinked(nodes: map<nat, Node>, next: nat, prev: nat): map<nat, Node>
    requires next != 0 ==> next in nodes && nodes[next].Leaf?
  {
    if next != 0 then nodes[next := WithLink(nodes[next], false, prev)] else nodes
  }

  /** The pages `split_leaf` leaves: the two halves, wired between the old neighbours. */
  ghost function SplitPages(
      ps: nat, nodes: map<nat, Node>, page: nat, right: nat, cells: seq<LeafCell>, m: nat): map<nat, Node>
    requires page in nodes && nodes[page].Leaf? && m <= |cells|
    requires LeafRoom(ps, cells[..m]) >= 0 && LeafRoom(ps, cells[m..]) >= 0
    requires nodes[page].next != 0 ==> nodes[page].next in nodes && nodes[nodes[page].next].Leaf?
  {
    var next := nodes[page].next;
    Relinked(nodes, next, right)
      [page := Leaf(cells[..m], ps - CellBytes(cells[..m]), right, nodes[page].prev)]
      [right := Leaf(cells[m..], ps - CellBytes(cells[m..]), next, page)]
  }

  /** Wiring a new leaf `right` in after position `n`. */
  lemma LinkedSplit(nodes: map<nat, Node>, nodes': map<nat, Node>, ls: seq<nat>, n: nat, right: nat)
    requires Linked(nodes, ls) && n < |ls| && right !in nodes && 0 !in nodes
    requires ls[n] in nodes && nodes[ls[n]].Leaf?
    requires ls[n] in nodes' && nodes'[ls[n]].Leaf? && nodes'[ls[n]].next == right
    requires nodes'[ls[n]].prev == nodes[ls[n]].prev
    requires right in nodes' && nodes'[right].Leaf? && nodes'[right].next == nodes[ls[n]].next
    requires nodes'[right].prev == ls[n]
    requires forall p :: p in nodes && p != ls[n] && nodes[p].Leaf? ==>
               && p in nodes' && nodes'[p].Leaf? && nodes'[p].next == nodes[p].next
               && nodes'[p].prev == if p == nodes[ls[n]].next then right else nodes[p].prev
    ensures Linked(nodes', Insert(ls, n + 1, right))
  {
    var ls' := Insert(ls, n + 1, right);
    assert LinkOk(nodes, ls, n);
    forall i | 0 <= i < |ls'| ensures LinkOk(nodes', ls', i) {
      if i != n && i != n + 1 {
        assert LinkOk(nodes, ls, if i < n then i else i - 1);
        assert n + 1 < |ls| ==> LinkOk(nodes, ls, n + 1);
      }
    }
    forall i, j | 0 <= i < j < |ls'| ensures ls'[i] != ls'[j] {
      if i == n + 1 {
        assert LinkOk(nodes, ls, j - 1);
      } else {
        assert LinkOk(nodes, ls, if i <= n then i else i - 1);
      }
    }
  }

  lemma CutOrdered(page: nat, right: nat, rows: seq<Row>, m: nat, lo: int, hi: int)
    requires Increasing(RowKeys(rows)) && (forall i :: 0 <= i < |rows| ==> lo <= rows[i].key < hi && IsI64(rows[i].key))
    requires m < |rows| && lo < rows[m].key
    ensures OrderedOf([rows[m].key], [LeafT(page, rows[..m]), LeafT(right, rows[m..])], lo, hi, 0)
  {
    var ks, div := RowKeys(rows), rows[m].key;
    assert forall i :: 0 <= i < m ==> ks[i] < ks[m];
    assert forall i :: m <= i < |rows| ==> ks[m] <= ks[i];
    assert forall i :: 0 <= i < m ==> RowKeys(rows[..m])[i] == ks[i];
    assert forall i :: 0 <= i < |rows| - m ==> RowKeys(rows[m..])[i] == ks[m + i];
    assert Ordered(LeafT(page, rows[..m]), lo, div, 0);
    assert Ordered(LeafT(right, rows[m..]), div, hi, 0);
  }

  lemma CutSeparate(page: nat, right: nat, rows: seq<Row>, m: nat)
    requires Separate(LeafT(page, rows)) && m <= |rows| && right !in Foot(LeafT(page, rows))
    ensures SeparateOf([LeafT(page, rows[..m]), LeafT(right, rows[m..])])
    ensures FootOf([LeafT(page, rows[..m]), LeafT(right, rows[m..])]) == Foot(LeafT(page, rows)) + {right}
  {
    hide Separate;
    var a, b := LeafT(page, rows[..m]), LeafT(right, rows[m..]);
    assert rows[0..m] == rows[..m] && rows[m..|rows|] == rows[m..];
    SeparatePart(page, rows, 0, m, page);
    SeparatePart(page, rows, m, |rows|, right);
    ChainsApart(page, rows, m);
    ChainPagesCut(rows, m);
    PageNotInChains(page, rows);
    PairFoot(a, b);
  }

  lemma PageNotInChains(page: nat, rows: seq<Row>)
    requires Separate(LeafT(page, rows))
    ensures page !in ChainPages(rows)
  {
  }

  lemma PairFoot(a: Tree, b: Tree)
    ensures FootOf([a, b]) == Foot(a) + Foot(b)
    ensures RowsOf([a, b]) == Rows(a) + Rows(b) && LeavesOf([a, b]) == Leaves(a) + Leaves(b)
  {
    hide Foot, Rows, Leaves;
    var ts := [a, b];
    assert ts[0] == a && ts[1] == b;
    forall p | p in Foot(a) + Foot(b) ensures p in FootOf(ts) {
      assert p in Foot(ts[0]) || p in Foot(ts[1]);
    }
    assert [a] + [b] == ts;
    RowsOfConcat([a], [b]);
    LeavesOfConcat([a], [b]);
    SingleFoot(a);
    SingleFoot(b);
  }

  lemma CellsOfCut(rows: seq<Row>, m: nat)
    requires m <= |rows|
    ensures CellsOf(rows[..m]) == CellsOf(rows)[..m] && CellsOf(rows[m..]) == CellsOf(rows)[m..]
  {
    hide CellOf;
  }

  lemma CutRepr(ps: nat, nodes: map<nat, Node>, nodes': map<nat, Node>, page: nat, right: nat, rows: seq<Row>, m: nat)
    requires PageSizeOk(ps) && m <= |rows|
    requires forall i :: 0 <= i < |rows| ==> RowRepr(ps, nodes, rows[i])
    requires forall p :: p in nodes && nodes[p].Overflow? ==> p in nodes' && nodes'[p] == nodes[p]
    requires page in nodes' && nodes'[page].Leaf? && nodes'[page].cells == CellsOf(rows)[..m]
    requires right in nodes' && nodes'[right].Leaf? && nodes'[right].cells == CellsOf(rows)[m..]
    ensures ReprOf(ps, nodes', [LeafT(page, rows[..m]), LeafT(right, rows[m..])])
  {
    hide RowRepr;
    CellsOfCut(rows, m);
    forall i | 0 <= i < |rows| ensures RowRepr(ps, nodes', rows[i]) {
      forall p | p in rows[i].chain ensures p in nodes && nodes[p].Overflow? {
        ChainNotLeaf(ps, nodes, rows[i], p);
      }
      RowReprFrame(ps, nodes, nodes', rows[i]);
    }
    assert Repr(ps, nodes', LeafT(page, rows[..m]));
    assert Repr(ps, nodes', LeafT(right, rows[m..]));
  }

  lemma CutPages(
      ps: nat, before: map<nat, Node>, nodes: map<nat, Node>, page: nat, right: nat, cells: seq<LeafCell>, m: nat,
      pre: seq<nat>, post: seq<nat>)
    requires Linked(before, pre + [page] + post) && 0 !in before && right !in nodes && m <= |cells|
    requires forall p :: p in before ==> p in nodes && nodes[p] == before[p]
    requires 0 !in nodes && page in nodes && nodes[page].Leaf?
    requires nodes[page].next != 0 ==> nodes[page].next in nodes && nodes[nodes[page].next].Leaf?
    requires LeafRoom(ps, cells[..m]) >= 0 && LeafRoom(ps, cells[m..]) >= 0
    ensures nodes[page].next != 0 ==> nodes[page].next in before
    ensures Untouched(before, SplitPages(ps, nodes, page, right, cells, m), {page}, post)
    ensures var nodes' := SplitPages(ps, nodes, page, right, cells, m);
            && Linked(nodes', pre + [page, right] + post)
            && page in nodes' && nodes'[page].Leaf? && nodes'[page].cells == cells[..m]
            && right in nodes' && nodes'[right].Leaf? && nodes'[right].cells == cells[m..]
            && forall p :: p in nodes && nodes[p].Overflow? ==> p in nodes' && nodes'[p] == nodes[p]
  {
    hide NoDup, CellBytes;
    var ls := pre + [page] + post;
    assert ls[|pre|] == page;
    NextNotSelf(before, ls, |pre|);
    assert LinkOk(before, ls, |pre|);
    assert |pre| + 1 < |ls| ==> ls[|pre| + 1] == post[0];
    LinkedSame(before, nodes, ls);
    LinkedSplit(nodes, SplitPages(ps, nodes, page, right, cells, m), ls, |pre|, right);
    assert Insert(ls, |pre| + 1, right) == pre + [page, right] + post;
  }

  /** The split path: two leaves around the first key of the right half. */
  lemma LeafCut(
      ps: nat, before: map<nat, Node>, nodes: map<nat, Node>, t: Tree, row: Row, k: nat, rows: seq<Row>, m: nat,
      right: nat,
                lo: int, hi: int, pre: seq<nat>, post: seq<nat>)
    requires PageSizeOk(ps) && t.LeafT? && GoodOf(ps, before, [], [t], lo, hi, 0)
    requires Linked(before, pre + [t.page] + post)
    requires RowReady(ps, before, nodes, row) && lo <= row.key < hi && 0 !in before && 0 !in nodes
    requires IsUpperBound(RowKeys(t.rows), row.key, k) && row.key !in RowKeys(t.rows)
    requires rows == Insert(t.rows, k, row) && m < |rows| && right !in nodes && lo < rows[m].key
    requires t.page in nodes && nodes[t.page].Leaf?
    requires nodes[t.page].next != 0 ==> nodes[t.page].next in nodes && nodes[nodes[t.page].next].Leaf?
    requires LeafRoom(ps, CellsOf(rows)[..m]) >= 0 && LeafRoom(ps, CellsOf(rows)[m..]) >= 0
    ensures Inserted(ps, before, SplitPages(ps, nodes, t.page, right, CellsOf(rows), m), t,
                     [rows[m].key], [LeafT(t.page, rows[..m]), LeafT(right, rows[m..])], lo, hi, 0, row, k, pre, post)
  {
    hide RowRepr, NoDup, Increasing, CellsOf, CellBytes, SplitPages, Linked, Framed, Untouched, Insert;
    hide Ordered, OrderedOf, ReprOf, SeparateOf, Repr, Separate, RowsOf, LeavesOf, FootOf, Foot;
    var page := t.page;
    var nodes' := SplitPages(ps, nodes, page, right, CellsOf(rows), m);
    RowAdded(ps, before, nodes, t, row, k, lo, hi);
    CutOrdered(page, right, rows, m, lo, hi);
    CutSeparate(page, right, rows, m);
    CutPages(ps, before, nodes, page, right, CellsOf(rows), m, pre, post);
    CutRepr(ps, nodes, nodes', page, right, rows, m);
    CutFramed(ps, before, nodes, t, row, right, CellsOf(rows), m);
    UntouchedWiden(before, nodes', t, post);
    PairFoot(LeafT(page, rows[..m]), LeafT(right, rows[m..]));
    assert rows[..m] + rows[m..] == rows;
    assert [page] + [right] == [page, right];
  }

  lemma CutFramed(
      ps: nat, before: map<nat, Node>, nodes: map<nat, Node>, t: Tree, row: Row, right: nat, cells: seq<LeafCell>,
      m: nat)
    requires PageSizeOk(ps) && t.LeafT? && Foot(t) <= before.Keys && RowReady(ps, before, nodes, row)
    requires right !in nodes && m <= |cells| && t.page in nodes && nodes[t.page].Leaf?
    requires nodes[t.page].next != 0 ==> nodes[t.page].next in before && nodes[nodes[t.page].next].Leaf?
    requires LeafRoom(ps, cells[..m]) >= 0 && LeafRoom(ps, cells[m..]) >= 0
    ensures Framed(before, SplitPages(ps, nodes, t.page, right, cells, m),
                   Foot(t), Foot(t) + PagesOf(row.chain) + {right})
  {
    hide RowRepr, NoDup, CellBytes;
  }

  lemma RowKeysI64(ps: nat, nodes: map<nat, Node>, rows: seq<Row>)
    requires PageSizeOk(ps) && forall i :: 0 <= i < |rows| ==> RowRepr(ps, nodes, rows[i])
    ensures forall i :: 0 <= i < |rows| ==> IsI64(rows[i].key)
  {
  }

  lemma NextNotSelf(nodes: map<nat, Node>, ls: seq<nat>, n: nat)
    requires Linked(nodes, ls) && n < |ls| && 0 !in nodes
    ensures forall p :: p in ls ==> p in nodes && nodes[p].Leaf?
    ensures nodes[ls[n]].next != ls[n]
    ensures nodes[ls[n]].next != 0 ==> nodes[ls[n]].next in nodes && nodes[nodes[ls[n]].next].Leaf?
  {
    forall p | p in ls ensures p in nodes && nodes[p].Leaf? {
      var i :| 0 <= i < |ls| && ls[i] == p;
      assert LinkOk(nodes, ls, i);
    }
    assert LinkOk(nodes, ls, n);
  }

  // ---- interior level ----

  ghost function NodeOf(keys: seq<int>, kids: seq<Tree>): Node
  {
    if |kids| == |keys| + 1 then Interior(SepsOf(keys, kids), kids[|keys|].page) else Blank
  }

  /** The children of a node after one of them was replaced, before the node's own page is rewritten. */
  ghost predicate KidsInserted(
      ps: nat, nodes: map<nat, Node>, nodes': map<nat, Node>, t: Tree, keys: seq<int>, kids: seq<Tree>,
                               lo: int, hi: int, h: nat, row: Row, k: nat, pre: seq<nat>, post: seq<nat>)
    requires PageSizeOk(ps) && t.NodeT?
  {
    && GoodOf(ps, nodes', keys, kids, lo, hi, h)
    && k <= |Rows(t)| && RowsOf(kids) == Insert(Rows(t), k, row)
    && Linked(nodes', pre + LeavesOf(kids) + post)
    && Framed(nodes, nodes', FootOf(t.kids), FootOf(kids)) && Untouched(nodes, nodes', Foot(t), post)
    && t.page !in FootOf(kids) && t.page in nodes && t.page in nodes' && nodes'[t.page] == nodes[t.page]
  }

  lemma NodeFacts(ps: nat, nodes: map<nat, Node>, t: Tree, lo: int, hi: int, h: nat)
    requires PageSizeOk(ps) && t.NodeT? && GoodOf(ps, nodes, [], [t], lo, hi, h)
    ensures h > 0 && GoodOf(ps, nodes, t.keys, t.kids, lo, hi, h - 1)
    ensures |t.kids| == |t.keys| + 1 && t.page in nodes && nodes[t.page] == NodeOf(t.keys, t.kids)
    ensures t.page !in FootOf(t.kids)
  {
    assert [t][0] == t;
    assert Repr(ps, nodes, t) && Separate(t);
    assert Ordered(t, LowOf([], lo, 0), HighOf([], hi, 0), h);
  }

  /** Splitting off position `k` of the middle of a concatenation. */
  lemma InsertMiddle<T>(a: seq<T>, b: seq<T>, c: seq<T>, k: nat, x: T)
    requires k <= |b|
    ensures a + (Insert(b, k, x) + c) == Insert(a + (b + c), |a| + k, x)
  {
  }

  lemma RowsSplice(kids: seq<Tree>, i: nat, ts: seq<Tree>)
    requires i < |kids|
    ensures RowsOf(SpliceKids(kids, i, ts)) == RowsOf(kids[..i]) + (RowsOf(ts) + RowsOf(kids[i + 1..]))
    ensures LeavesOf(SpliceKids(kids, i, ts)) == LeavesOf(kids[..i]) + (LeavesOf(ts) + LeavesOf(kids[i + 1..]))
  {
    hide RowsOf, LeavesOf;
    assert SpliceKids(kids, i, ts) == kids[..i] + (ts + kids[i + 1..]);
    RowsOfConcat(kids[..i], ts + kids[i + 1..]);
    RowsOfConcat(ts, kids[i + 1..]);
    LeavesOfConcat(kids[..i], ts + kids[i + 1..]);
    LeavesOfConcat(ts, kids[i + 1..]);
  }

  /** The leaf list seen from child `i`. */
  lemma LeavesContext(kids: seq<Tree>, i: nat, pre: seq<nat>, post: seq<nat>)
    requires i < |kids|
    ensures pre + LeavesOf(kids) + post ==
      (pre + LeavesOf(kids[..i])) + Leaves(kids[i]) + (LeavesOf(kids[i + 1..]) + post)
  {
    hide LeavesOf, Leaves;
    LeavesOfSplit(kids, i);
  }

  lemma FrameWiden(nodes: map<nat, Node>, nodes': map<nat, Node>, foot: set<nat>, foot': set<nat>, more: set<nat>)
    requires Framed(nodes, nodes', foot, foot') && more <= nodes.Keys
    ensures Framed(nodes, nodes', foot + more, foot' + more)
  {
  }

  lemma KidFrame(nodes: map<nat, Node>, nodes': map<nat, Node>, kids: seq<Tree>, i: nat, ts: seq<Tree>)
    requires i < |kids| && SeparateOf(kids) && FootOf(kids) <= nodes.Keys
    requires Framed(nodes, nodes', Foot(kids[i]), FootOf(ts))
    ensures Framed(nodes, nodes', FootOf(kids), FootOf(SpliceKids(kids, i, ts)))
    ensures forall j :: 0 <= j < |kids| && j != i ==> Kept(nodes, nodes', Foot(kids[j]))
    ensures forall j :: 0 <= j < |kids| ==> Foot(kids[j]) <= nodes.Keys
  {
    hide Foot, SeparateOf, SpliceKids, FootOf;
    FootSplice(kids, i, ts);
    FootSplice(kids, i, [kids[i]]);
    SpliceSame(kids, i);
    SingleFoot(kids[i]);
    var more := FootOf(kids[..i]) + FootOf(kids[i + 1..]);
    assert FootOf(kids) == Foot(kids[i]) + more;
    assert FootOf(SpliceKids(kids, i, ts)) == FootOf(ts) + more;
    FrameWiden(nodes, nodes', Foot(kids[i]), FootOf(ts), more);
    forall j | 0 <= j < |kids|
      ensures Foot(kids[j]) <= nodes.Keys && (j != i ==> Kept(nodes, nodes', Foot(kids[j])))
    {
      KidFoot(kids, i, j);
    }
  }

  lemma SpliceSame(kids: seq<Tree>, i: nat)
    requires i < |kids|
    ensures SpliceKids(kids, i, [kids[i]]) == kids
  {
  }

  lemma KidFoot(kids: seq<Tree>, i: nat, j: nat)
    requires i < |kids| && j < |kids| && SeparateOf(kids)
    ensures Foot(kids[j]) <= FootOf(kids) && (i != j ==> Foot(kids[i]) !! Foot(kids[j]))
  {
    hide Foot, Separate;
    if i < j {
      assert Foot(kids[i]) !! Foot(kids[j]);
    } else if j < i {
      assert Foot(kids[j]) !! Foot(kids[i]);
    }
  }

  lemma ReprSplice(ps: nat, nodes: map<nat, Node>, nodes': map<nat, Node>, kids: seq<Tree>, i: nat, ts: seq<Tree>)
    requires PageSizeOk(ps) && ReprOf(ps, nodes, kids) && i < |kids| && ReprOf(ps, nodes', ts)
    requires forall j :: 0 <= j < |kids| && j != i ==> Kept(nodes, nodes', Foot(kids[j]))
    ensures ReprOf(ps, nodes', SpliceKids(kids, i, ts))
  {
    hide Repr, Foot, Kept;
    forall j | 0 <= j < |kids| && j != i ensures Repr(ps, nodes', kids[j]) {
      ReprFrame(ps, nodes, nodes', kids[j]);
    }
  }

  lemma FootOfRepr(ps: nat, nodes: map<nat, Node>, kids: seq<Tree>)
    requires PageSizeOk(ps) && ReprOf(ps, nodes, kids)
    ensures FootOf(kids) <= nodes.Keys
  {
    hide Repr, Foot;
    forall i | 0 <= i < |kids| ensures Foot(kids[i]) <= nodes.Keys {
      ReprFoot(ps, nodes, kids[i]);
    }
  }

  lemma KidInserted(
      ps: nat, nodes: map<nat, Node>, nodes': map<nat, Node>, t: Tree, i: nat, ks: seq<int>, ts: seq<Tree>,
                    lo: int, hi: int, h: nat, row: Row, k: nat, pre: seq<nat>, post: seq<nat>)
    requires PageSizeOk(ps) && t.NodeT? && GoodOf(ps, nodes, [], [t], lo, hi, h) && h > 0
    requires |t.kids| == |t.keys| + 1 && i < |t.kids|
    requires Inserted(ps, nodes, nodes', t.kids[i], ks, ts, LowOf(t.keys, lo, i), HighOf(t.keys, hi, i), h - 1, row, k,
                      pre + LeavesOf(t.kids[..i]), LeavesOf(t.kids[i + 1..]) + post)
    ensures KidsInserted(ps, nodes, nodes', t, SpliceKeys(t.keys, i, ks), SpliceKids(t.kids, i, ts), lo, hi, h - 1, row,
                         |RowsOf(t.kids[..i])| + k, pre, post)
  {
    hide RowsOf, LeavesOf, FootOf, Foot, Linked, ReprOf, SeparateOf, OrderedOf, Framed, Untouched, Kept, Insert;
    hide SpliceKids, SpliceKeys;
    var kids' := SpliceKids(t.kids, i, ts);
    NodeFacts(ps, nodes, t, lo, hi, h);
    FootOfRepr(ps, nodes, t.kids);
    OrderedSplice(t.keys, t.kids, lo, hi, h - 1, i, ks, ts);
    KidFrame(nodes, nodes', t.kids, i, ts);
    ReprSplice(ps, nodes, nodes', t.kids, i, ts);
    KidSeparate(nodes, nodes', t.kids, i, ts);
    KidRows(t, i, ts, row, k, pre, post);
    NodePageKept(nodes, nodes', t, kids');
    UntouchedUp(nodes, nodes', t, i, post);
  }

  lemma {:induction false} LeavesInFoot(t: Tree)
    ensures forall p :: p in Leaves(t) ==> p in Foot(t)
    decreases t, 0
  {
    if t.NodeT? {
      LeavesOfInFoot(t.kids);
    }
  }

  lemma {:induction false} LeavesOfInFoot(kids: seq<Tree>)
    ensures forall p :: p in LeavesOf(kids) ==> p in FootOf(kids)
    decreases kids, 1
  {
    hide Foot, Leaves;
    if kids != [] {
      LeavesInFoot(kids[0]);
      LeavesOfInFoot(kids[1..]);
      forall p | p in FootOf(kids[1..]) ensures p in FootOf(kids) {
        var i :| 0 <= i < |kids| - 1 && p in Foot(kids[1..][i]);
        assert p in Foot(kids[i + 1]);
      }
    }
  }

  /** Pages of later siblings belong to the parent. */
  lemma UntouchedUp(nodes: map<nat, Node>, nodes': map<nat, Node>, t: Tree, i: nat, post: seq<nat>)
    requires t.NodeT? && i < |t.kids| && Untouched(nodes, nodes', Foot(t.kids[i]), LeavesOf(t.kids[i + 1..]) + post)
    ensures Untouched(nodes, nodes', Foot(t), post)
  {
    LeavesOfInFoot(t.kids[i + 1..]);
    forall p | p in FootOf(t.kids[i + 1..]) ensures p in Foot(t) {
      var j :| 0 <= j < |t.kids| - i - 1 && p in Foot(t.kids[i + 1..][j]);
      assert p in Foot(t.kids[i + 1 + j]);
    }
    assert forall p :: p in Foot(t.kids[i]) ==> p in FootOf(t.kids);
  }

  lemma KidSeparate(nodes: map<nat, Node>, nodes': map<nat, Node>, kids: seq<Tree>, i: nat, ts: seq<Tree>)
    requires i < |kids| && SeparateOf(kids) && SeparateOf(ts)
    requires forall j :: 0 <= j < |kids| ==> Foot(kids[j]) <= nodes.Keys
    requires Framed(nodes, nodes', Foot(kids[i]), FootOf(ts))
    ensures SeparateOf(SpliceKids(kids, i, ts))
  {
    hide SeparateOf, Foot, FootOf;
    SeparateSplice(kids, i, ts, nodes.Keys);
  }

  lemma KidRows(t: Tree, i: nat, ts: seq<Tree>, row: Row, k: nat, pre: seq<nat>, post: seq<nat>)
    requires t.NodeT? && i < |t.kids| && k <= |Rows(t.kids[i])| && RowsOf(ts) == Insert(Rows(t.kids[i]), k, row)
    ensures |RowsOf(t.kids[..i])| + k <= |Rows(t)|
    ensures RowsOf(SpliceKids(t.kids, i, ts)) == Insert(Rows(t), |RowsOf(t.kids[..i])| + k, row)
    ensures pre + LeavesOf(SpliceKids(t.kids, i, ts)) + post ==
            (pre + LeavesOf(t.kids[..i])) + LeavesOf(ts) + (LeavesOf(t.kids[i + 1..]) + post)
  {
    hide RowsOf, LeavesOf, SpliceKids, Insert;
    RowsOfSplit(t.kids, i);
    RowsSplice(t.kids, i, ts);
    InsertMiddle(RowsOf(t.kids[..i]), Rows(t.kids[i]), RowsOf(t.kids[i + 1..]), k, row);
  }

  lemma NodePageKept(nodes: map<nat, Node>, nodes': map<nat, Node>, t: Tree, kids': seq<Tree>)
    requires t.NodeT? && t.page in nodes && nodes[t.page].Interior? && t.page !in FootOf(t.kids)
    requires Framed(nodes, nodes', FootOf(t.kids), FootOf(kids'))
    ensures t.page !in FootOf(kids') && t.page in nodes' && nodes'[t.page] == nodes[t.page]
  {
    hide FootOf;
  }

  lemma NodeRun(ps: nat, nodes: map<nat, Node>, page: nat, keys: seq<int>, kids: seq<Tree>, lo: int, hi: int, h: nat)
    requires PageSizeOk(ps) && GoodOf(ps, nodes, keys, kids, lo, hi, h) && page !in FootOf(kids)
    requires page in nodes && |kids| == |keys| + 1 && nodes[page] == NodeOf(keys, kids)
    ensures Repr(ps, nodes, NodeT(page, keys, kids)) && Separate(NodeT(page, keys, kids))
    ensures Ordered(NodeT(page, keys, kids), lo, hi, h + 1)
  {
  }

  /** Rewriting pages outside the children leaves the children as they were. */
  lemma KidsKept(ps: nat, nodes: map<nat, Node>, nodes': map<nat, Node>, kids: seq<Tree>)
    requires PageSizeOk(ps) && ReprOf(ps, nodes, kids)
    requires forall p :: p in FootOf(kids) && p in nodes ==> p in nodes' && nodes'[p] == nodes[p]
    ensures ReprOf(ps, nodes', kids)
  {
    hide Repr, Foot;
    forall i | 0 <= i < |kids| ensures Repr(ps, nodes', kids[i]) {
      assert forall p :: p in Foot(kids[i]) ==> p in FootOf(kids);
      ReprFrame(ps, nodes, nodes', kids[i]);
    }
  }

  /** Leaf lists survive changes to pages that are not leaves. */
  lemma LinkedKept(nodes: map<nat, Node>, nodes': map<nat, Node>, ls: seq<nat>)
    requires Linked(nodes, ls) && forall p :: p in nodes && nodes[p].Leaf? ==> p in nodes' && nodes'[p] == nodes[p]
    ensures Linked(nodes', ls)
  {
    LinkedSame(nodes, nodes', ls);
  }

  /** The separator fits: the node's page now lists the new children. */
  lemma NodeGrown(ps: nat, nodes: map<nat, Node>, nodes': map<nat, Node>, t: Tree, keys: seq<int>, kids: seq<Tree>,
                  lo: int, hi: int, h: nat, row: Row, k: nat, pre: seq<nat>, post: seq<nat>)
    requires PageSizeOk(ps) && t.NodeT? && KidsInserted(ps, nodes, nodes', t, keys, kids, lo, hi, h, row, k, pre, post)
    requires nodes[t.page].Interior? && |kids| == |keys| + 1 && FootOf(t.kids) <= nodes.Keys
    ensures Inserted(ps, nodes, nodes'[t.page := NodeOf(keys, kids)], t, [], [NodeT(t.page, keys, kids)],
                     lo, hi, h + 1, row, k, pre, post)
  {
    hide RowsOf, LeavesOf, FootOf, Linked, ReprOf, SeparateOf, OrderedOf, Insert, SepsOf;
    var t' := NodeT(t.page, keys, kids);
    var nodes2 := nodes'[t.page := NodeOf(keys, kids)];
    KidsKept(ps, nodes', nodes2, kids);
    LinkedKept(nodes', nodes2, pre + LeavesOf(kids) + post);
    NodeRun(ps, nodes2, t.page, keys, kids, lo, hi, h);
    SingleRun(ps, nodes2, t', lo, hi, h + 1);
    SingleFoot(t');
    FrameWiden(nodes, nodes', FootOf(t.kids), FootOf(kids), {t.page});
  }

  /** No room: the children are shared between the old page and a new one around `keys[m]`. */
  lemma NodeCut(
      ps: nat, nodes: map<nat, Node>, nodes': map<nat, Node>, t: Tree, keys: seq<int>, kids: seq<Tree>, m: nat,
      right: nat,
                lo: int, hi: int, h: nat, row: Row, k: nat, pre: seq<nat>, post: seq<nat>)
    requires PageSizeOk(ps) && t.NodeT? && KidsInserted(ps, nodes, nodes', t, keys, kids, lo, hi, h, row, k, pre, post)
    requires nodes[t.page].Interior? && |kids| == |keys| + 1 && m < |keys| && right !in nodes'
    requires FootOf(t.kids) <= nodes.Keys
    ensures Inserted(ps, nodes,
                     nodes'[t.page := NodeOf(keys[..m], kids[..m + 1])]
                           [right := NodeOf(keys[m + 1..], kids[m + 1..])], t,
                     [keys[m]], [NodeT(t.page, keys[..m], kids[..m + 1]), NodeT(right, keys[m + 1..], kids[m + 1..])],
                     lo, hi, h + 1, row, k, pre, post)
  {
    hide RowsOf, LeavesOf, FootOf, Linked, ReprOf, SeparateOf, OrderedOf, Insert, SepsOf;
    var ka, ta, kb, tb := keys[..m], kids[..m + 1], keys[m + 1..], kids[m + 1..];
    var a, b := NodeT(t.page, ka, ta), NodeT(right, kb, tb);
    var nodes2 := nodes'[t.page := NodeOf(ka, ta)][right := NodeOf(kb, tb)];
    OrderedCut(keys, kids, lo, hi, h, m);
    SeparateCut(kids, m + 1);
    ReprCut(ps, nodes', kids, m + 1);
    KidsKept(ps, nodes', nodes2, ta);
    KidsKept(ps, nodes', nodes2, tb);
    LinkedKept(nodes', nodes2, pre + LeavesOf(kids) + post);
    NodeRun(ps, nodes2, t.page, ka, ta, lo, keys[m], h);
    NodeRun(ps, nodes2, right, kb, tb, keys[m], hi, h);
    PairRun(ps, nodes2, a, b, keys[m], lo, hi, h + 1);
    PairFoot(a, b);
    assert ta + tb == kids;
    RowsOfConcat(ta, tb);
    LeavesOfConcat(ta, tb);
    FrameWiden(nodes, nodes', FootOf(t.kids), FootOf(kids), {t.page});
    FrameFresh(nodes, nodes', nodes2, Foot(t), FootOf(kids) + {t.page}, t.page, right);
  }

  lemma ReprCut(ps: nat, nodes: map<nat, Node>, kids: seq<Tree>, m: nat)
    requires PageSizeOk(ps) && ReprOf(ps, nodes, kids) && m <= |kids|
    ensures ReprOf(ps, nodes, kids[..m]) && ReprOf(ps, nodes, kids[m..]) && FootOf(kids) <= nodes.Keys
  {
    hide Repr, Foot, FootOf;
    FootOfRepr(ps, nodes, kids);
  }

  lemma PairRun(ps: nat, nodes: map<nat, Node>, a: Tree, b: Tree, key: int, lo: int, hi: int, h: nat)
    requires PageSizeOk(ps) && Repr(ps, nodes, a) && Repr(ps, nodes, b) && Separate(a) && Separate(b)
    requires Foot(a) !! Foot(b)
    requires Ordered(a, lo, key, h) && Ordered(b, key, hi, h) && lo < key < hi && IsI64(key)
    ensures GoodOf(ps, nodes, [key], [a, b], lo, hi, h)
  {
    hide Repr, Separate, Foot, Ordered;
  }

  lemma FrameFresh(
      nodes: map<nat, Node>, nodes': map<nat, Node>, nodes2: map<nat, Node>, foot: set<nat>, foot': set<nat>,
      page: nat, right: nat)
    requires Framed(nodes, nodes', foot, foot') && right !in nodes' && page in foot && page in nodes'
    requires nodes2.Keys == nodes'.Keys + {right} && forall p :: p in nodes' && p != page ==> nodes2[p] == nodes'[p]
    ensures Framed(nodes, nodes2, foot, foot' + {right})
  {
  }
}
