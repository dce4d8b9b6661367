/** Lookups, leaf-chain scans and counts. */
module BTreeRead {
  import opened Bytes
  import opened SlottedPage
  import opened PageFormat
  import opened Options
  import opened PageStore
  import opened TreeSpec
  import opened OverflowChain
  import opened TreeInsert
  import opened TreeKeys
  import opened BTree
  import opened BTreeInsert
  import opened BTreeDelete

  // ---- the leaves of a tree, as trees ----

  ghost function LeafList(t: Tree): seq<Tree>
    decreases t
  {
    match t
    case LeafT(_, _) => [t]
    case NodeT(_, _, kids) => LeafListOf(kids)
  }

  ghost function LeafListOf(kids: seq<Tree>): seq<Tree>
    decreases kids
  {
    if kids == [] then [] else LeafList(kids[0]) + LeafListOf(kids[1..])
  }

  /** Every leaf of a represented tree is represented; rows and pages are those of the tree, in order. */
  lemma {:induction false} LeafListIs(ps: nat, nodes: map<nat, Node>, t: Tree)
    requires PageSizeOk(ps) && Repr(ps, nodes, t)
    ensures ReprOf(ps, nodes, LeafList(t)) && LeafList(t) != []
    ensures forall i :: 0 <= i < |LeafList(t)| ==> LeafList(t)[i].LeafT?
    ensures RowsOf(LeafList(t)) == Rows(t) && LeavesOf(LeafList(t)) == Leaves(t)
    decreases t, 0
  {
    if t.LeafT? {
      SingleFoot(t);
    } else {
      LeafListOfIs(ps, nodes, t.kids);
      LeafListOfNonEmpty(ps, nodes, t.kids);
    }
  }

  lemma {:induction false} LeafListOfNonEmpty(ps: nat, nodes: map<nat, Node>, kids: seq<Tree>)
    requires PageSizeOk(ps) && ReprOf(ps, nodes, kids) && kids != []
    ensures LeafListOf(kids) != []
    decreases kids, 0
  {
    assert Repr(ps, nodes, kids[0]);
    LeafListIs(ps, nodes, kids[0]);
  }

  lemma {:induction false} LeafListOfIs(ps: nat, nodes: map<nat, Node>, kids: seq<Tree>)
    requires PageSizeOk(ps) && ReprOf(ps, nodes, kids)
    ensures ReprOf(ps, nodes, LeafListOf(kids))
    ensures forall i :: 0 <= i < |LeafListOf(kids)| ==> LeafListOf(kids)[i].LeafT?
    ensures RowsOf(LeafListOf(kids)) == RowsOf(kids) && LeavesOf(LeafListOf(kids)) == LeavesOf(kids)
    decreases kids, 1
  {
    hide Repr, Rows, Leaves, LeafList;
    if kids != [] {
      assert Repr(ps, nodes, kids[0]);
      LeafListIs(ps, nodes, kids[0]);
      LeafListOfIs(ps, nodes, kids[1..]);
      RowsOfConcat(LeafList(kids[0]), LeafListOf(kids[1..]));
      LeavesOfConcat(LeafList(kids[0]), LeafListOf(kids[1..]));
    }
  }

  lemma {:induction false} LeavesAre(ls: seq<Tree>)
    requires forall i :: 0 <= i < |ls| ==> ls[i].LeafT?
    ensures |LeavesOf(ls)| == |ls| && forall i :: 0 <= i < |ls| ==> LeavesOf(ls)[i] == ls[i].page
  {
    if ls != [] {
      LeavesAre(ls[1..]);
    }
  }

  // ---- rows as results ----

  ghost function Pairs(rows: seq<Row>): (ps: seq<(int, seq<byte>)>)
    ensures |ps| == |rows| && forall i :: 0 <= i < |rows| ==> ps[i] == (rows[i].key, rows[i].payload)
  {
    seq(|rows|, i requires 0 <= i < |rows| => (rows[i].key, rows[i].payload))
  }

  ghost function Reversed<T>(s: seq<T>): (r: seq<T>)
    ensures |r| == |s| && forall i :: 0 <= i < |s| ==> r[i] == s[|s| - 1 - i]
  {
    seq(|s|, i requires 0 <= i < |s| => s[|s| - 1 - i])
  }

  lemma PairsConcat(a: seq<Row>, b: seq<Row>)
    ensures Pairs(a + b) == Pairs(a) + Pairs(b)
  {
  }

  lemma ReversedConcat<T>(a: seq<T>, b: seq<T>)
    ensures Reversed(a + b) == Reversed(b) + Reversed(a)
  {
  }

  // ---- single cells ----

  ghost predicate LeafHolds(ps: nat, nodes: map<nat, Node>, n: nat, rows: seq<Row>)
    requires PageSizeOk(ps)
  {
    && n in nodes && nodes[n].Leaf? && nodes[n].cells == CellsOf(rows)
    && forall i :: 0 <= i < |rows| ==> RowRepr(ps, nodes, rows[i])
  }

  /** `read_cell_payload` behind `find_by_rowid`, the scans and the cursor. */
  method ReadRow(pager: Pager, n: nat, idx: nat, ghost rows: seq<Row>) returns (key: int, payload: seq<byte>)
    requires pager.Valid() && LeafHolds(pager.ps, pager.nodes, n, rows) && idx < |rows|
    ensures (key, payload) == (rows[idx].key, rows[idx].payload)
  {
    hide Pager.Valid, Chunks;
    pager.Facts();
    ghost var row := rows[idx];
    assert RowRepr(pager.ps, pager.nodes, row);
    var c := pager.ReadCell(n, idx);
    assert c == CellOf(row);
    key := c.key;
    if c.Inline? {
      payload := c.payload;
    } else {
      payload := ReadChain(pager, c.first, c.total, row.chain, row.payload);
    }
  }

  // ---- find_by_rowid ----

  method FindByRowid(pager: Pager, n: nat, key: int, ghost t: Tree, ghost lo: int, ghost hi: int, ghost h: nat)
    returns (r: Option<seq<byte>>, ghost k: nat)
    requires pager.Valid() && t.page == n && GoodOf(pager.ps, pager.nodes, [], [t], lo, hi, h) && lo <= key < hi
    ensures r.Some? ==> k < |Rows(t)| && Rows(t)[k].key == key && Rows(t)[k].payload == r.value
    ensures r.None? ==> key !in RowKeys(Rows(t))
    decreases h
  {
    hide Pager.Valid, GoodOf, RowsOf, RowKeys, IsUpperBound, RowRepr, CellsOf, Increasing;
    pager.Facts();
    PageKind(pager.ps, pager.nodes, t, lo, hi, h);
    if pager.IsLeafPage(n) {
      LeafRowsAre(pager.ps, pager.nodes, t, lo, hi);
      LeafHoldsRows(pager.ps, pager.nodes, t, lo, hi);
      var found, idx := pager.FindInLeaf(n, key);
      if !found {
        return None, 0;
      }
      var key', payload := ReadRow(pager, n, idx, t.rows);
      LeafRow(pager.ps, pager.nodes, t, lo, hi, idx);
      return Some(payload), idx;
    }
    NodePrep(pager.ps, pager.nodes, t, lo, hi, h);
    var child, i := pager.FindChild(n, key);
    NodeFacts(pager.ps, pager.nodes, t, lo, hi, h);
    ChildInterval(t.keys, lo, hi, key, i);
    UpperBoundRange(t.keys, key, i);
    GoodChild(pager.ps, pager.nodes, t.keys, t.kids, lo, hi, h - 1, i);
    r, k := FindByRowid(pager, child, key, t.kids[i], LowOf(t.keys, lo, i), HighOf(t.keys, hi, i), h - 1);
    if r.Some? {
      RowOfChild(t, i, k);
      k := |RowsOf(t.kids[..i])| + k;
    } else {
      KeyElsewhere(t, lo, hi, h, i, key);
    }
  }

  lemma LeafHoldsRows(ps: nat, nodes: map<nat, Node>, t: Tree, lo: int, hi: int)
    requires PageSizeOk(ps) && t.LeafT? && GoodOf(ps, nodes, [], [t], lo, hi, 0)
    ensures LeafHolds(ps, nodes, t.page, t.rows)
  {
    LeafFacts(ps, nodes, t, lo, hi);
  }

  // ---- leaf chain scans ----

  method ScanLeaf(pager: Pager, n: nat, ghost rows: seq<Row>) returns (out: seq<(int, seq<byte>)>)
    requires pager.Valid() && LeafHolds(pager.ps, pager.nodes, n, rows)
    ensures out == Pairs(rows)
  {
    hide Pager.Valid, RowRepr;
    var count := pager.CellCount(n);
    out := [];
    for i := 0 to count
      invariant out == Pairs(rows)[..i]
    {
      var key, payload := ReadRow(pager, n, i, rows);
      out := out + [(key, payload)];
    }
  }

  method ScanLeafReverse(pager: Pager, n: nat, ghost rows: seq<Row>) returns (out: seq<(int, seq<byte>)>)
    requires pager.Valid() && LeafHolds(pager.ps, pager.nodes, n, rows)
    ensures out == Reversed(Pairs(rows))
  {
    hide Pager.Valid, RowRepr;
    var i := pager.CellCount(n);
    out := [];
    while i > 0
      invariant 0 <= i <= |rows|
      invariant out == Reversed(Pairs(rows))[..|rows| - i]
    {
      i := i - 1;
      var key, payload := ReadRow(pager, n, i, rows);
      out := out + [(key, payload)];
    }
  }

  /** The rows of the leaf at position `i` of the chain. */
  lemma ChainLeaf(ps: nat, nodes: map<nat, Node>, t: Tree, i: nat)
    requires PageSizeOk(ps) && Repr(ps, nodes, t) && Linked(nodes, Leaves(t)) && i < |LeafList(t)|
    ensures i < |Leaves(t)| == |LeafList(t)| && LeafList(t)[i].LeafT? && Leaves(t)[i] == LeafList(t)[i].page
    ensures LeafHolds(ps, nodes, Leaves(t)[i], LeafList(t)[i].rows) && LinkOk(nodes, Leaves(t), i)
  {
    hide RowRepr;
    LeafListIs(ps, nodes, t);
    LeavesAre(LeafList(t));
    assert Repr(ps, nodes, LeafList(t)[i]);
  }

  /** One leaf more, from the left or from the right. */
  lemma ScanStep(ls: seq<Tree>, i: nat)
    requires i < |ls| && ls[i].LeafT?
    ensures Pairs(RowsOf(ls[..i + 1])) == Pairs(RowsOf(ls[..i])) + Pairs(ls[i].rows)
    ensures Reversed(Pairs(RowsOf(ls[i..]))) == Reversed(Pairs(RowsOf(ls[i + 1..]))) + Reversed(Pairs(ls[i].rows))
  {
    hide RowsOf, Pairs, Reversed;
    assert ls[..i + 1] == ls[..i] + [ls[i]];
    RowsOfConcat(ls[..i], [ls[i]]);
    SingleFoot(ls[i]);
    PairsConcat(RowsOf(ls[..i]), ls[i].rows);
    assert ls[i..] == [ls[i]] + ls[i + 1..];
    RowsOfConcat([ls[i]], ls[i + 1..]);
    PairsConcat(ls[i].rows, RowsOf(ls[i + 1..]));
    ReversedConcat(Pairs(ls[i].rows), Pairs(RowsOf(ls[i + 1..])));
  }

  /** `find_leftmost_leaf`. */
  method FindLeftmostLeaf(
      pager: Pager, root: nat, ghost t: Tree, ghost lo: int, ghost hi: int, ghost h: nat) returns (n: nat)
    requires pager.Valid() && t.page == root && GoodOf(pager.ps, pager.nodes, [], [t], lo, hi, h)
    ensures Leaves(t) != [] && n == Leaves(t)[0]
  {
    hide Pager.Valid, GoodOf, LeavesOf;
    pager.Facts();
    n := root;
    ghost var s, lo', hi', h' := t, lo, hi, h;
    PageKind(pager.ps, pager.nodes, s, lo', hi', h');
    while !pager.IsLeafPage(n)
      invariant s.page == n && GoodOf(pager.ps, pager.nodes, [], [s], lo', hi', h')
      invariant Leaves(s) != [] ==> Leaves(t) != [] && Leaves(t)[0] == Leaves(s)[0]
      invariant n in pager.nodes && (pager.nodes[n].Leaf? || pager.nodes[n].Interior?)
      invariant (s.LeafT? <==> pager.nodes[n].Leaf?)
      invariant s.LeafT? ==> Leaves(s) == [n]
      decreases h'
    {
      NodePrep(pager.ps, pager.nodes, s, lo', hi', h');
      NodeFacts(pager.ps, pager.nodes, s, lo', hi', h');
      n := pager.ReadChild(n, 0);
      FirstLeaf(s.kids);
      GoodChild(pager.ps, pager.nodes, s.keys, s.kids, lo', hi', h' - 1, 0);
      s, lo', hi', h' := s.kids[0], LowOf(s.keys, lo', 0), HighOf(s.keys, hi', 0), h' - 1;
      PageKind(pager.ps, pager.nodes, s, lo', hi', h');
    }
  }

  lemma FirstLeaf(kids: seq<Tree>)
    requires kids != []
    ensures Leaves(kids[0]) != [] ==> LeavesOf(kids) != [] && LeavesOf(kids)[0] == Leaves(kids[0])[0]
  {
  }

  lemma LastLeaf(kids: seq<Tree>)
    requires kids != []
    ensures var last := Leaves(kids[|kids| - 1]);
            last != [] ==> LeavesOf(kids) != [] && LeavesOf(kids)[|LeavesOf(kids)| - 1] == last[|last| - 1]
  {
    hide LeavesOf, Leaves;
    var m := |kids| - 1;
    assert kids == kids[..m] + [kids[m]];
    LeavesOfConcat(kids[..m], [kids[m]]);
    SingleFoot(kids[m]);
  }

  /** `find_rightmost_leaf`. */
  method FindRightmostLeaf(
      pager: Pager, n: nat, ghost t: Tree, ghost lo: int, ghost hi: int, ghost h: nat) returns (r: nat)
    requires pager.Valid() && t.page == n && GoodOf(pager.ps, pager.nodes, [], [t], lo, hi, h)
    ensures Leaves(t) != [] && r == Leaves(t)[|Leaves(t)| - 1]
    decreases h
  {
    hide Pager.Valid, GoodOf, LeavesOf;
    pager.Facts();
    PageKind(pager.ps, pager.nodes, t, lo, hi, h);
    if pager.IsLeafPage(n) {
      return n;
    }
    NodePrep(pager.ps, pager.nodes, t, lo, hi, h);
    NodeFacts(pager.ps, pager.nodes, t, lo, hi, h);
    var count := pager.CellCount(n);
    var right := pager.ReadChild(n, count);
    ghost var m := |t.keys|;
    GoodChild(pager.ps, pager.nodes, t.keys, t.kids, lo, hi, h - 1, m);
    r := FindRightmostLeaf(pager, right, t.kids[m], LowOf(t.keys, lo, m), HighOf(t.keys, hi, m), h - 1);
    LastLeaf(t.kids);
  }

  lemma GoodRepr(ps: nat, nodes: map<nat, Node>, t: Tree, lo: int, hi: int, h: nat)
    requires PageSizeOk(ps) && GoodOf(ps, nodes, [], [t], lo, hi, h)
    ensures Repr(ps, nodes, t) && Ordered(t, lo, hi, h) && Separate(t)
  {
    assert [t][0] == t;
    assert Ordered([t][0], LowOf([], lo, 0), HighOf([], hi, 0), h);
  }

  /** `scan_all`: every row, in ascending rowid order. */
  method ScanAll(
      pager: Pager, root: nat, ghost t: Tree, ghost lo: int, ghost hi: int, ghost h: nat)
    returns (out: seq<(int, seq<byte>)>)
    requires pager.Valid() && t.page == root && GoodOf(pager.ps, pager.nodes, [], [t], lo, hi, h)
    requires Linked(pager.nodes, Leaves(t))
    ensures out == Pairs(Rows(t))
  {
    hide Pager.Valid, GoodOf, Linked, Repr, Rows, RowsOf, Leaves, LeafList, Pairs, RowRepr, Separate, Ordered;
    pager.Facts();
    GoodRepr(pager.ps, pager.nodes, t, lo, hi, h);
    LeafListIs(pager.ps, pager.nodes, t);
    ghost var ls := LeafList(t);
    var cur := FindLeftmostLeaf(pager, root, t, lo, hi, h);
    ChainLeaf(pager.ps, pager.nodes, t, 0);
    out := [];
    NoPairs(ls);
    ghost var i: nat := 0;
    while cur != 0
      invariant i <= |ls| == |Leaves(t)| && cur == if i < |ls| then Leaves(t)[i] else 0
      invariant out == Pairs(RowsOf(ls[..i]))
      decreases |ls| - i
    {
      ChainLeaf(pager.ps, pager.nodes, t, i);
      var leaf := ScanLeaf(pager, cur, ls[i].rows);
      ScanStep(ls, i);
      out := out + leaf;
      cur := pager.NextLeaf(cur);
      i := i + 1;
    }
    if i < |ls| {
      ChainLeaf(pager.ps, pager.nodes, t, i);
    }
    assert ls[..i] == ls;
  }

  lemma NoPairs(ls: seq<Tree>)
    ensures Pairs(RowsOf(ls[..0])) == [] && Reversed(Pairs(RowsOf(ls[|ls|..]))) == []
  {
  }

  /** `scan_all_reverse`: the same rows in exactly the reverse order. */
  method ScanAllReverse(
      pager: Pager, root: nat, ghost t: Tree, ghost lo: int, ghost hi: int, ghost h: nat)
    returns (out: seq<(int, seq<byte>)>)
    requires pager.Valid() && t.page == root && GoodOf(pager.ps, pager.nodes, [], [t], lo, hi, h)
    requires Linked(pager.nodes, Leaves(t))
    ensures out == Reversed(Pairs(Rows(t)))
  {
    hide Pager.Valid, GoodOf, Linked, Repr, Rows, RowsOf, Leaves, LeafList, Pairs, Reversed, RowRepr, Separate, Ordered;
    pager.Facts();
    GoodRepr(pager.ps, pager.nodes, t, lo, hi, h);
    LeafListIs(pager.ps, pager.nodes, t);
    ghost var ls := LeafList(t);
    var cur := FindRightmostLeaf(pager, root, t, lo, hi, h);
    ChainLeaf(pager.ps, pager.nodes, t, 0);
    out := [];
    NoPairs(ls);
    ghost var i: nat := |ls|;
    while cur != 0
      invariant i <= |ls| == |Leaves(t)| && cur == if i > 0 then Leaves(t)[i - 1] else 0
      invariant out == Reversed(Pairs(RowsOf(ls[i..])))
      decreases i
    {
      ChainLeaf(pager.ps, pager.nodes, t, i - 1);
      var leaf := ScanLeafReverse(pager, cur, ls[i - 1].rows);
      ScanStep(ls, i - 1);
      out := out + leaf;
      cur := pager.PrevLeaf(cur);
      i := i - 1;
    }
    if i > 0 {
      ChainLeaf(pager.ps, pager.nodes, t, i - 1);
    }
    assert ls[i..] == ls;
  }

  // ---- counting ----

  function MaxInteriorChildren(ps: nat): nat
    requires PageSizeOk(ps)
  {
    (ps - INTERIOR_HEADER_SIZE) / 14 + 2
  }

  /** `count_rows`; the child array of fixed size always suffices. */
  method CountRows(pager: Pager, n: nat, ghost t: Tree, ghost lo: int, ghost hi: int, ghost h: nat) returns (total: nat)
    requires pager.Valid() && t.page == n && GoodOf(pager.ps, pager.nodes, [], [t], lo, hi, h)
    ensures total == |Rows(t)|
    decreases h, 1
  {
    hide Pager.Valid, GoodOf, RowsOf, SepsOf;
    pager.Facts();
    PageKind(pager.ps, pager.nodes, t, lo, hi, h);
    var count := pager.CellCount(n);
    if pager.IsLeafPage(n) {
      LeafRowsAre(pager.ps, pager.nodes, t, lo, hi);
      return count;
    }
    NodePrep(pager.ps, pager.nodes, t, lo, hi, h);
    NodeFacts(pager.ps, pager.nodes, t, lo, hi, h);
    pager.InteriorPage(n);
    var children := new nat[MaxInteriorChildren(pager.ps)](_ => 0);
    for i := 0 to count + 1
      invariant forall j :: 0 <= j < i ==> children[j] == ChildAt(pager.nodes[n], j)
    {
      children[i] := pager.ReadChild(n, i);
    }
    ChildPages(t);
    total := CountChildren(pager, children[..count + 1], t.keys, t.kids, lo, hi, h - 1);
  }

  lemma ChildPages(t: Tree)
    requires t.NodeT? && |t.kids| == |t.keys| + 1
    ensures forall i :: 0 <= i < |t.kids| ==> ChildAt(NodeOf(t.keys, t.kids), i) == t.kids[i].page
  {
  }

  method CountChildren(
      pager: Pager, children: seq<nat>, ghost keys: seq<int>, ghost kids: seq<Tree>, ghost lo: int, ghost hi: int,
      ghost h: nat) returns (total: nat)
    requires pager.Valid() && GoodOf(pager.ps, pager.nodes, keys, kids, lo, hi, h) && |kids| == |keys| + 1
    requires |children| == |kids| && forall i :: 0 <= i < |kids| ==> children[i] == kids[i].page
    ensures total == |RowsOf(kids)|
    decreases h + 1, 0
  {
    hide Pager.Valid, GoodOf, RowsOf, Rows;
    pager.Facts();
    total := 0;
    EmptyRows(kids[..0]);
    for i := 0 to |children|
      invariant total == |RowsOf(kids[..i])|
    {
      GoodChild(pager.ps, pager.nodes, keys, kids, lo, hi, h, i);
      var c := CountRows(pager, children[i], kids[i], LowOf(keys, lo, i), HighOf(keys, hi, i), h);
      assert kids[..i + 1] == kids[..i] + [kids[i]];
      RowsOfConcat(kids[..i], [kids[i]]);
      SingleFoot(kids[i]);
      total := total + c;
    }
    assert kids[..|children|] == kids;
  }

  // ---- max_rowid ----

  ghost function LastLeafRows(t: Tree): seq<Row>
    decreases t
  {
    match t
    case LeafT(_, rows) => rows
    case NodeT(_, _, kids) => if kids == [] then [] else LastLeafRows(kids[|kids| - 1])
  }

  lemma {:induction false} LastLeafIsLast(t: Tree)
    ensures LastLeafRows(t) != [] ==>
              Rows(t) != [] && Rows(t)[|Rows(t)| - 1] == LastLeafRows(t)[|LastLeafRows(t)| - 1]
    decreases t
  {
    if t.NodeT? && t.kids != [] {
      hide RowsOf;
      var m := |t.kids| - 1;
      LastLeafIsLast(t.kids[m]);
      assert t.kids == t.kids[..m] + [t.kids[m]];
      RowsOfConcat(t.kids[..m], [t.kids[m]]);
      SingleFoot(t.kids[m]);
    }
  }

  /** `max_rowid` reads the last cell of the rightmost leaf, and 0 from an empty one. */
  method MaxRowid(pager: Pager, n: nat, ghost t: Tree, ghost lo: int, ghost hi: int, ghost h: nat) returns (key: int)
    requires pager.Valid() && t.page == n && GoodOf(pager.ps, pager.nodes, [], [t], lo, hi, h)
    ensures LastLeafRows(t) == [] ==> key == 0
    ensures LastLeafRows(t) != [] ==> Rows(t) != [] && key == Rows(t)[|Rows(t)| - 1].key
    decreases h
  {
    hide Pager.Valid, GoodOf, RowsOf, RowRepr;
    pager.Facts();
    PageKind(pager.ps, pager.nodes, t, lo, hi, h);
    LastLeafIsLast(t);
    var count := pager.CellCount(n);
    if pager.IsLeafPage(n) {
      LeafRowsAre(pager.ps, pager.nodes, t, lo, hi);
      if count == 0 {
        return 0;
      }
      var c := pager.ReadCell(n, count - 1);
      return c.key;
    }
    NodePrep(pager.ps, pager.nodes, t, lo, hi, h);
    NodeFacts(pager.ps, pager.nodes, t, lo, hi, h);
    ghost var m := |t.keys|;
    ChildPages(t);
    var right := pager.ReadChild(n, count);
    GoodChild(pager.ps, pager.nodes, t.keys, t.kids, lo, hi, h - 1, m);
    LastLeafIsLast(t.kids[m]);
    key := MaxRowid(pager, right, t.kids[m], LowOf(t.keys, lo, m), HighOf(t.keys, hi, m), h - 1);
  }
}
