/** `insert_into_page` and the page splits. */
module BTree {
  import opened Bytes
  import opened SlottedPage
  import opened PageFormat
  import opened PageStore
  import opened TreeSpec
  import opened OverflowChain
  import opened TreeInsert

  /** `Duplicate` is the UNIQUE-constraint error. */
  datatype InsertResult = Done | Duplicate | Split(divider: int, newPage: nat)

  /** Where a list of `len` cells is cut: in the middle by count, or before the last
      cell when the new one is the last. */
  function CutPoint(len: nat, pos: nat): nat
    requires len > 0
  {
    if pos == len - 1 then len - 1 else len / 2
  }

  /** The halves differ by at most one, the right one being the larger, unless the new cell is the last. */
  lemma CutBalances(len: nat, pos: nat)
    requires pos < len
    ensures var left := CutPoint(len, pos);
      var right := len - left;
      && (pos == len - 1 ==> right == 1)
      && (pos < len - 1 ==> left <= right <= left + 1)
  {
  }

  // ---- leaf split ----

  /** Both halves of the cut fit on a page; `size` is the size of the new cell. */
  ghost predicate SplitFits(ps: nat, cells: seq<LeafCell>, pos: nat, size: nat)
    requires pos <= |cells|
  {
    var m := CutPoint(|cells| + 1, pos);
    if m <= pos then LeafRoom(ps, cells[..m]) >= 0 && LeafRoom(ps, cells[m..]) >= size + 2
    else LeafRoom(ps, cells[..m - 1]) >= size + 2 && LeafRoom(ps, cells[m - 1..]) >= 0
  }

  lemma SplitHalves(ps: nat, cells: seq<LeafCell>, pos: nat, c: LeafCell)
    requires pos <= |cells|
    ensures var all, m := Insert(cells, pos, c), CutPoint(|cells| + 1, pos);
            SplitFits(ps, cells, pos, CellSize(c)) <==> LeafRoom(ps, all[..m]) >= 0 && LeafRoom(ps, all[m..]) >= 0
  {
    var all, m := Insert(cells, pos, c), CutPoint(|cells| + 1, pos);
    if m <= pos {
      assert all[..m] == cells[..m];
      assert all[m..] == Insert(cells[m..], pos - m, c);
      CellBytesInsert(cells[m..], pos - m, c);
    } else {
      assert all[..m] == Insert(cells[..m - 1], pos, c);
      assert all[m..] == cells[m - 1..];
      CellBytesInsert(cells[..m - 1], pos, c);
    }
  }

  method FirstAbove(cells: seq<LeafCell>, key: int) returns (pos: nat)
    requires Increasing(CellKeys(cells))
    ensures IsUpperBound(CellKeys(cells), key, pos)
  {
    pos := 0;
    while pos < |cells| && cells[pos].key <= key
      invariant pos <= |cells| && forall j :: 0 <= j < pos ==> CellKeys(cells)[j] <= key
    {
      pos := pos + 1;
    }
  }

  lemma IncreasingPart(cells: seq<LeafCell>, a: nat, b: nat)
    requires Increasing(CellKeys(cells)) && a <= b <= |cells|
    ensures Increasing(CellKeys(cells[a..b]))
  {
  }

  lemma NotUpperBound(ks: seq<int>, key: int, idx: nat)
    requires idx < |ks| && ks[idx] <= key
    ensures !IsUpperBound(ks, key, idx)
  {
  }

  /** What refilling a cleared page with `cells`, in order, gets to: it stops at the first duplicate. */
  function Refilled(cells: seq<LeafCell>): (r: seq<LeafCell>)
    ensures |r| <= |cells| && r == cells[..|r|]
  {
    if |cells| <= 1 then cells
    else
      var n := |cells| - 1;
      var front := Refilled(cells[..n]);
      if |front| == n && cells[n].key != cells[n - 1].key then cells else front
  }

  /** The page of a new leaf with these cells. */
  ghost function LeafOf(ps: nat, cells: seq<LeafCell>): Node
    requires CellBytes(cells) <= ps
  {
    Leaf(cells, ps - CellBytes(cells), 0, 0)
  }

  lemma {:induction false} RefilledAll(cells: seq<LeafCell>)
    requires Increasing(CellKeys(cells))
    ensures Refilled(cells) == cells
    decreases |cells|
  {
    if |cells| > 1 {
      var n := |cells| - 1;
      assert CellKeys(cells[..n]) == CellKeys(cells)[..n];
      assert CellKeys(cells)[n - 1] < CellKeys(cells)[n];
      RefilledAll(cells[..n]);
    }
  }

  /** A list increasing but for equal neighbours at `a` is refilled up to there. */
  lemma {:induction false} RefilledStops(cells: seq<LeafCell>, a: nat)
    requires a + 1 < |cells| && cells[a].key == cells[a + 1].key && Increasing(CellKeys(cells[..a + 1]))
    ensures Refilled(cells) == cells[..a + 1]
    decreases |cells|
  {
    var n := |cells| - 1;
    if n == a + 1 {
      RefilledAll(cells[..n]);
    } else {
      assert cells[..n][..a + 1] == cells[..a + 1];
      RefilledStops(cells[..n], a);
    }
  }

  lemma LeafOfIsLeaf(ps: nat, cells: seq<LeafCell>)
    requires CellBytes(cells) <= ps
    ensures LeafOf(ps, cells).Leaf?
  {
  }

  lemma NewLeafCells(ps: nat)
    ensures LeafOf(ps, []) == Leaf([], ps, 0, 0) && Increasing(CellKeys([]))
  {
  }

  lemma AppendLast(cells: seq<LeafCell>, i: nat, idx: nat)
    requires NonDecreasing(CellKeys(cells)) && i < |cells| && Increasing(CellKeys(cells[..i]))
    requires cells[i].key !in CellKeys(cells[..i]) && IsUpperBound(CellKeys(cells[..i]), cells[i].key, idx)
    ensures idx == i && Insert(cells[..i], idx, cells[i]) == cells[..i + 1] && Increasing(CellKeys(cells[..i + 1]))
  {
    var ks, pre := CellKeys(cells), CellKeys(cells[..i]);
    assert forall j :: 0 <= j < i ==> pre[j] == ks[j] <= ks[i];
    if idx < i {
      NotUpperBound(pre, cells[i].key, idx);
    }
    assert forall j :: 0 <= j < i ==> pre[j] != cells[i].key;
    assert CellKeys(cells[..i + 1]) == pre + [ks[i]];
  }

  lemma RefilledUpTo(cells: seq<LeafCell>, i: nat)
    requires NonDecreasing(CellKeys(cells)) && i < |cells| && Increasing(CellKeys(cells[..i]))
    requires cells[i].key in CellKeys(cells[..i])
    ensures Refilled(cells) == cells[..i] && |Refilled(cells)| < |cells|
  {
    var ks := CellKeys(cells);
    var j :| 0 <= j < i && CellKeys(cells[..i])[j] == cells[i].key;
    assert ks[j] <= ks[i - 1] <= ks[i];
    RefilledStops(cells, i - 1);
  }

  /** Refilling a cleared page, in key order, up to the first duplicate; `ok` if there is none. */
  method FillLeaf(pager: Pager, n: nat, cells: seq<LeafCell>) returns (ok: bool)
    requires pager.Valid() && n in pager.nodes && pager.nodes[n] == LeafOf(pager.ps, [])
    requires (forall c :: c in cells ==> CellOk(c)) && NonDecreasing(CellKeys(cells)) && LeafRoom(pager.ps, cells) >= 0
    modifies pager
    ensures pager.Valid() && pager.total == old(pager.total)
    ensures ok <==> Refilled(cells) == cells
    ensures CellBytes(Refilled(cells)) <= pager.ps
    ensures pager.nodes == old(pager.nodes)[n := LeafOf(pager.ps, Refilled(cells))]
  {
    hide Pager.Valid, Increasing, NonDecreasing, IsUpperBound, CellOk, Insert, Refilled;
    NewLeafCells(pager.ps);
    for i := 0 to |cells|
      invariant pager.Valid() && pager.total == old(pager.total)
      invariant CellBytes(cells[..i]) <= CellBytes(cells) && Increasing(CellKeys(cells[..i]))
      invariant pager.nodes == old(pager.nodes)[n := LeafOf(pager.ps, cells[..i])]
    {
      PrefixBytes(cells, i);
      ghost var node := pager.nodes[n];
      ghost var idx;
      ok, idx := pager.InsertCell(n, cells[i]);
      if !ok {
        RefilledUpTo(cells, i);
        return;
      }
      AppendLast(cells, i, idx);
      assert pager.nodes[n] == WithCell(node, idx, cells[i]);
    }
    assert cells[..|cells|] == cells;
    RefilledAll(cells);
    return true;
  }

  lemma PrefixBytes(cells: seq<LeafCell>, i: nat)
    requires i < |cells|
    ensures CellBytes(cells[..i + 1]) == CellBytes(cells[..i]) + CellSize(cells[i]) <= CellBytes(cells)
  {
    hide CellBytes, CellSize;
    assert cells[..i + 1] == Insert(cells[..i], i, cells[i]);
    CellBytesInsert(cells[..i], i, cells[i]);
    assert cells == cells[..i + 1] + cells[i + 1..];
    CellBytesConcat(cells[..i + 1], cells[i + 1..]);
  }

  lemma RefilledBytes(cells: seq<LeafCell>)
    ensures CellBytes(Refilled(cells)) <= CellBytes(cells)
  {
    hide CellBytes;
    var k := |Refilled(cells)|;
    assert cells == cells[..k] + cells[k..];
    CellBytesConcat(cells[..k], cells[k..]);
  }

  lemma InsertIncreasing(cells: seq<LeafCell>, k: nat, c: LeafCell)
    requires Increasing(CellKeys(cells)) && IsUpperBound(CellKeys(cells), c.key, k) && c.key !in CellKeys(cells)
    ensures Increasing(CellKeys(Insert(cells, k, c)))
  {
  }

  /**
   * `split_leaf`: the page keeps the lower cells, a new page takes the rest.  The page is cleared
   * and refilled, so a duplicate rowid is found only by then, or not at all; a new rowid is none.
   */
  method SplitLeaf(pager: Pager, n: nat, c: LeafCell)
    returns (ok: bool, divider: int, right: nat, ghost pos: nat, ghost m: nat)
    requires pager.Valid() && n in pager.nodes && pager.nodes[n].Leaf? && CellOk(c) && pager.total < MAX_PAGES
    requires Increasing(CellKeys(pager.nodes[n].cells))
    requires forall k :: IsUpperBound(CellKeys(pager.nodes[n].cells), c.key, k) ==>
      SplitFits(pager.ps, pager.nodes[n].cells, k, CellSize(c))
    requires var next := pager.nodes[n].next;
      next != n && (next != 0 ==> next in pager.nodes && pager.nodes[next].Leaf?)
    modifies pager
    ensures pager.Valid() && pager.total <= old(pager.total) + 1
    ensures IsUpperBound(CellKeys(old(pager.nodes)[n].cells), c.key, pos) && pos <= |old(pager.nodes)[n].cells|
    ensures c.key !in CellKeys(old(pager.nodes)[n].cells) ==> ok
    ensures var cells := Insert(old(pager.nodes)[n].cells, pos, c);
            && m == CutPoint(|cells|, pos) && divider == cells[m].key
            && LeafRoom(pager.ps, cells[..m]) >= 0 && LeafRoom(pager.ps, cells[m..]) >= 0
            && HalvesWritten(pager.ps, old(pager.nodes), pager.nodes, n, right, cells, m, ok)
  {
    hide Pager.Valid, Increasing, NonDecreasing, CellOk, Insert, HalvesWritten, Refilled;
    pager.Facts();
    pager.LeafPage(n);
    ghost var node := pager.nodes[n];
    var oldNext := pager.NextLeaf(n);
    var oldPrev := pager.PrevLeaf(n);
    var cells := pager.ReadCells(n);
    var at := FirstAbove(cells, c.key);
    pos := at;
    SplitHalves(pager.ps, cells, pos, c);
    InsertOrdered(cells, pos, c);
    InsertMembers(cells, pos, c);
    cells := Insert(cells, at, c);
    var mid := CutPoint(|cells|, at);
    m := mid;
    divider := cells[mid].key;
    OrderedHalves(cells, mid);
    ok, right := WriteHalves(pager, n, cells, mid, oldNext, oldPrev);
    HalvesRefilled(pager.ps, old(pager.nodes), pager.nodes, n, right, cells, mid, ok);
    if c.key !in CellKeys(node.cells) {
      NewRowidSplits(node.cells, pos, c);
    }
  }

  /**
   * What clearing the page and filling it and a new one leaves: both halves wired into the leaf
   * list, or, from the first duplicate on, nothing: the page is out of the list, and a new page,
   * if one was taken by then, is in no list.
   */
  ghost predicate HalvesWritten(
      ps: nat, before: map<nat, Node>, now: map<nat, Node>, n: nat, right: nat, cells: seq<LeafCell>, m: nat, ok: bool)
    requires n in before && before[n].Leaf? && m <= |cells|
    requires LeafRoom(ps, cells[..m]) >= 0 && LeafRoom(ps, cells[m..]) >= 0
    requires before[n].next != 0 ==> before[n].next in before && before[before[n].next].Leaf?
  {
    var (left, rest) := (Refilled(cells[..m]), Refilled(cells[m..]));
    && CellBytes(left) <= ps && CellBytes(rest) <= ps
    && (ok <==> left == cells[..m] && rest == cells[m..])
    && (left == cells[..m] ==> right !in before && 0 < right < U32_LIMIT)
    && now == if ok then SplitPages(ps, before, n, right, cells, m)
              else if left == cells[..m] then before[n := LeafOf(ps, left)][right := LeafOf(ps, rest)]
              else before[n := LeafOf(ps, left)]
  }

  lemma HalvesRefilled(
      ps: nat, before: map<nat, Node>, now: map<nat, Node>, n: nat, right: nat, cells: seq<LeafCell>, m: nat, ok: bool)
    requires n in before && before[n].Leaf? && m <= |cells|
    requires LeafRoom(ps, cells[..m]) >= 0 && LeafRoom(ps, cells[m..]) >= 0
    requires before[n].next != 0 ==> before[n].next in before && before[before[n].next].Leaf?
    requires HalvesWritten(ps, before, now, n, right, cells, m, ok)
    ensures ok <==> Refilled(cells[..m]) == cells[..m] && Refilled(cells[m..]) == cells[m..]
    ensures ok ==> right !in before && 0 < right < U32_LIMIT && now == SplitPages(ps, before, n, right, cells, m)
  {
  }

  lemma InsertOrdered(cells: seq<LeafCell>, k: nat, c: LeafCell)
    requires Increasing(CellKeys(cells)) && IsUpperBound(CellKeys(cells), c.key, k)
    ensures NonDecreasing(CellKeys(Insert(cells, k, c)))
  {
  }

  lemma OrderedHalves(cells: seq<LeafCell>, m: nat)
    requires NonDecreasing(CellKeys(cells)) && m <= |cells|
    ensures NonDecreasing(CellKeys(cells[..m])) && NonDecreasing(CellKeys(cells[m..]))
  {
    assert CellKeys(cells[..m]) == CellKeys(cells)[..m] && CellKeys(cells[m..]) == CellKeys(cells)[m..];
  }

  /** With a new rowid both halves are refilled to the end. */
  lemma NewRowidSplits(cells: seq<LeafCell>, pos: nat, c: LeafCell)
    requires Increasing(CellKeys(cells)) && IsUpperBound(CellKeys(cells), c.key, pos) && c.key !in CellKeys(cells)
    ensures pos <= |cells|
    ensures var all := Insert(cells, pos, c);
      var m := CutPoint(|all|, pos);
      Refilled(all[..m]) == all[..m] && Refilled(all[m..]) == all[m..]
  {
    hide Refilled, Increasing;
    var all := Insert(cells, pos, c);
    var m := CutPoint(|all|, pos);
    InsertIncreasing(cells, pos, c);
    IncreasingPart(all, 0, m);
    IncreasingPart(all, m, |all|);
    assert all[0..m] == all[..m] && all[m..|all|] == all[m..];
    RefilledAll(all[..m]);
    RefilledAll(all[m..]);
  }

  /** Refill the page with the lower cells, a new page with the others, and wire both into the leaf list. */
  method WriteHalves(pager: Pager, n: nat, cells: seq<LeafCell>, m: nat, next: nat, prev: nat)
    returns (ok: bool, right: nat)
    requires pager.Valid() && n in pager.nodes && pager.nodes[n].Leaf? && pager.total < MAX_PAGES
    requires m <= |cells| && next == pager.nodes[n].next && prev == pager.nodes[n].prev && next < U32_LIMIT
    requires prev < U32_LIMIT && n < U32_LIMIT
    requires next != n && (next != 0 ==> next in pager.nodes && pager.nodes[next].Leaf?)
    requires (forall c :: c in cells ==> CellOk(c)) && NonDecreasing(CellKeys(cells[..m]))
    requires NonDecreasing(CellKeys(cells[m..]))
    requires LeafRoom(pager.ps, cells[..m]) >= 0 && LeafRoom(pager.ps, cells[m..]) >= 0
    modifies pager
    ensures pager.Valid() && pager.total <= old(pager.total) + 1
    ensures HalvesWritten(pager.ps, old(pager.nodes), pager.nodes, n, right, cells, m, ok)
  {
    hide Pager.Valid, NonDecreasing, CellOk, CellBytes, SplitPages, Relinked, WithLinks, Refilled, LeafOf;
    hide HalvesWritten;
    ghost var before: map<nat, Node> := pager.nodes;
    pager.Facts();
    NewLeafCells(pager.ps);
    pager.InitLeaf(n);
    ok := FillLeaf(pager, n, cells[..m]);
    ghost var a := pager.nodes[n];
    assert pager.nodes == before[n := a];
    if !ok {
      LeftStops(pager.ps, before, n, cells, m);
      return false, 0;
    }
    ok, right := NewLeaf(pager, cells[m..]);
    ghost var b := pager.nodes[right];
    assert pager.nodes == before[n := a][right := b];
    if !ok {
      RightStops(pager.ps, before, n, right, cells, m);
      return;
    }
    LeafOfIsLeaf(pager.ps, cells[..m]);
    LeafOfIsLeaf(pager.ps, cells[m..]);
    WireLeaves(pager, n, right, next, prev);
    SplitPagesAre(pager.ps, before, n, right, cells, m, a, b);
    BothFilled(pager.ps, before, n, right, cells, m);
  }

  /** A refill that stops in the lower half. */
  lemma LeftStops(ps: nat, before: map<nat, Node>, n: nat, cells: seq<LeafCell>, m: nat)
    requires n in before && before[n].Leaf? && m <= |cells|
    requires LeafRoom(ps, cells[..m]) >= 0 && LeafRoom(ps, cells[m..]) >= 0
    requires before[n].next != 0 ==> before[n].next in before && before[before[n].next].Leaf?
    requires Refilled(cells[..m]) != cells[..m]
    ensures CellBytes(Refilled(cells[..m])) <= ps
    ensures HalvesWritten(ps, before, before[n := LeafOf(ps, Refilled(cells[..m]))], n, 0, cells, m, false)
  {
    hide Refilled, CellBytes;
    RefilledBytes(cells[..m]);
    RefilledBytes(cells[m..]);
  }

  /** A refill that stops in the upper half, on the new page. */
  lemma RightStops(ps: nat, before: map<nat, Node>, n: nat, right: nat, cells: seq<LeafCell>, m: nat)
    requires n in before && before[n].Leaf? && m <= |cells| && right !in before && 0 < right < U32_LIMIT
    requires LeafRoom(ps, cells[..m]) >= 0 && LeafRoom(ps, cells[m..]) >= 0
    requires before[n].next != 0 ==> before[n].next in before && before[before[n].next].Leaf?
    requires Refilled(cells[..m]) == cells[..m] && Refilled(cells[m..]) != cells[m..]
    ensures CellBytes(Refilled(cells[m..])) <= ps
    ensures var now := before[n := LeafOf(ps, cells[..m])][right := LeafOf(ps, Refilled(cells[m..]))];
      HalvesWritten(ps, before, now, n, right, cells, m, false)
  {
    hide Refilled, CellBytes;
    RefilledBytes(cells[..m]);
    RefilledBytes(cells[m..]);
  }

  lemma BothFilled(ps: nat, before: map<nat, Node>, n: nat, right: nat, cells: seq<LeafCell>, m: nat)
    requires n in before && before[n].Leaf? && m <= |cells| && right !in before && 0 < right < U32_LIMIT
    requires LeafRoom(ps, cells[..m]) >= 0 && LeafRoom(ps, cells[m..]) >= 0
    requires before[n].next != 0 ==> before[n].next in before && before[before[n].next].Leaf?
    requires Refilled(cells[..m]) == cells[..m] && Refilled(cells[m..]) == cells[m..]
    ensures HalvesWritten(ps, before, SplitPages(ps, before, n, right, cells, m), n, right, cells, m, true)
  {
    hide Refilled, CellBytes, SplitPages;
  }

  lemma SplitPagesAre(
      ps: nat, before: map<nat, Node>, n: nat, right: nat, cells: seq<LeafCell>, m: nat, a: Node, b: Node)
    requires n in before && before[n].Leaf? && right !in before && m <= |cells|
    requires LeafRoom(ps, cells[..m]) >= 0 && LeafRoom(ps, cells[m..]) >= 0
    requires var next := before[n].next;
      next != n && next != right && (next != 0 ==> next in before && before[next].Leaf?)
    requires a == LeafOf(ps, cells[..m])
    requires b == LeafOf(ps, cells[m..])
    ensures Relinked(before[n := a][right := b], before[n].next, right)
              [n := WithLinks(a, right, before[n].prev)][right := WithLinks(b, before[n].next, n)]
            == SplitPages(ps, before, n, right, cells, m)
  {
  }

  /** left -> right -> next, with back pointers; `prev` is restored after the page was cleared. */
  method WireLeaves(pager: Pager, n: nat, right: nat, next: nat, prev: nat)
    requires pager.Valid() && n in pager.nodes && right in pager.nodes && pager.nodes[n].Leaf?
    requires pager.nodes[right].Leaf?
    requires n != right && next != n && next != right && n < U32_LIMIT && right < U32_LIMIT && next < U32_LIMIT
    requires prev < U32_LIMIT
    requires next != 0 ==> next in pager.nodes && pager.nodes[next].Leaf?
    modifies pager
    ensures pager.Valid() && pager.total == old(pager.total)
    ensures pager.nodes == Relinked(old(pager.nodes), next, right)[n := WithLinks(old(pager.nodes)[n], right, prev)]
                                                                  [right := WithLinks(old(pager.nodes)[right], next, n)]
  {
    hide Pager.Valid;
    ghost var before: map<nat, Node> := pager.nodes;
    pager.SetLinks(n, right, prev);
    pager.SetLinks(right, next, n);
    if next != 0 {
      MapSwap(before, n, right, next, pager.nodes[n], pager.nodes[right], WithLink(before[next], false, right));
      pager.SetLink(next, false, right);
    }
  }

  lemma MapSwap<V>(m: map<nat, V>, n: nat, r: nat, x: nat, a: V, b: V, v: V)
    requires n != r && x != n && x != r
    ensures m[n := a][r := b][x := v] == m[x := v][n := a][r := b]
  {
  }

  method NewLeaf(pager: Pager, cells: seq<LeafCell>) returns (ok: bool, right: nat)
    requires pager.Valid() && pager.total < MAX_PAGES
    requires (forall c :: c in cells ==> CellOk(c)) && NonDecreasing(CellKeys(cells)) && LeafRoom(pager.ps, cells) >= 0
    modifies pager
    ensures pager.Valid() && pager.total <= old(pager.total) + 1 && right !in old(pager.nodes) && 0 < right < U32_LIMIT
    ensures ok <==> Refilled(cells) == cells
    ensures CellBytes(Refilled(cells)) <= pager.ps
    ensures pager.nodes == old(pager.nodes)[right := LeafOf(pager.ps, Refilled(cells))]
  {
    hide Pager.Valid, NonDecreasing, CellOk, Refilled;
    var r := pager.Allocate();
    right := r.value;
    pager.InitLeaf(right);
    ok := FillLeaf(pager, right, cells);
  }

  lemma InsertMembers(cells: seq<LeafCell>, k: nat, c: LeafCell)
    requires k <= |cells| && CellOk(c) && forall x :: x in cells ==> CellOk(x)
    ensures |Insert(cells, k, c)| == |cells| + 1 && forall x :: x in Insert(cells, k, c) ==> CellOk(x)
  {
  }

  // ---- interior pages ----

  /** Inserting the separator and redirecting the child after it, on the page's separators. */
  ghost function SepAdded(n: Node, i: nat, e: Sep, page: nat): Node
    requires n.Interior? && i <= |n.seps|
  {
    WithChild(n.(seps := Insert(n.seps, i, e)), i + 1, page)
  }

  /** That is exactly the page of the node whose child `i` became two. */
  lemma SepAddedIsNode(keys: seq<int>, kids: seq<Tree>, i: nat, key: int, ts: seq<Tree>)
    requires |kids| == |keys| + 1 && i < |kids| && |ts| == 2 && ts[0].page == kids[i].page
    ensures SepAdded(NodeOf(keys, kids), i, Sep(ts[0].page, key), ts[1].page) ==
            NodeOf(SpliceKeys(keys, i, [key]), SpliceKids(kids, i, ts))
  {
    var keys', kids' := SpliceKeys(keys, i, [key]), SpliceKids(kids, i, ts);
    var l, r := SepAdded(NodeOf(keys, kids), i, Sep(ts[0].page, key), ts[1].page), NodeOf(keys', kids');
    forall a | 0 <= a < |keys'| ensures l.seps[a] == r.seps[a] {
    }
  }

  lemma SpliceOne(keys: seq<int>, kids: seq<Tree>, i: nat, ts: seq<Tree>)
    requires |kids| == |keys| + 1 && i < |kids| && |ts| == 1 && ts[0].page == kids[i].page
    ensures SpliceKeys(keys, i, []) == keys && |SpliceKids(kids, i, ts)| == |kids|
    ensures NodeOf(keys, SpliceKids(kids, i, ts)) == NodeOf(keys, kids)
  {
  }

  /** A key strictly inside child `i`'s interval goes to position `i`, and is new. */
  lemma DividerPosition(keys: seq<int>, lo: int, hi: int, i: nat, key: int)
    requires Increasing(keys) && i <= |keys| && LowOf(keys, lo, i) < key < HighOf(keys, hi, i)
    ensures key !in keys && forall j: nat :: IsUpperBound(keys, key, j) ==> j == i
  {
  }

  lemma SepKeysOf(keys: seq<int>, kids: seq<Tree>)
    requires |kids| == |keys| + 1
    ensures SepKeys(SepsOf(keys, kids)) == keys
  {
  }

  /** `find_child_page` leads to the child whose interval holds the key. */
  lemma ChildInterval(keys: seq<int>, lo: int, hi: int, key: int, i: nat)
    requires IsUpperBound(keys, key, i) && lo <= key < hi
    ensures LowOf(keys, lo, i) <= key < HighOf(keys, hi, i)
  {
  }

  lemma InsertedIsFirst(ks: seq<int>, key: int, i: nat, j: nat)
    requires i <= |ks| && key !in ks && IsFirst(Insert(ks, i, key), key, j)
    ensures j == i
  {
  }

  lemma SepKeysInsert(es: seq<Sep>, i: nat, e: Sep)
    requires i <= |es|
    ensures SepKeys(Insert(es, i, e)) == Insert(SepKeys(es), i, e.key)
  {
  }

  /** Room on the page: `insert_interior_cell`, then `replace_child_pointer`. */
  method AddSeparator(pager: Pager, n: nat, i: nat, e: Sep, page: nat)
    requires pager.Valid() && n in pager.nodes && pager.nodes[n].Interior? && SepOk(e) && page < U32_LIMIT
    requires i <= |pager.nodes[n].seps|
    requires Increasing(SepKeys(pager.nodes[n].seps)) && e.key !in SepKeys(pager.nodes[n].seps)
    requires forall j :: IsUpperBound(SepKeys(pager.nodes[n].seps), e.key, j) ==> j == i
    requires INTERIOR_HEADER_SIZE + 14 * |pager.nodes[n].seps| + 14 <= pager.ps
    modifies pager
    ensures pager.Valid() && pager.total == old(pager.total)
    ensures pager.nodes == old(pager.nodes)[n := SepAdded(old(pager.nodes)[n], i, e, page)]
  {
    hide Pager.Valid;
    ghost var es := pager.nodes[n].seps;
    var idx := pager.InsertSep(n, e);
    SepKeysInsert(es, i, e);
    assert SepKeys(pager.nodes[n].seps)[i] == e.key;
    var ok, first := pager.ReplaceChildPointer(n, e.key, page);
    InsertedIsFirst(SepKeys(es), e.key, i, first);
  }

  predicate SepsOk(es: seq<Sep>) {
    (forall e :: e in es ==> SepOk(e)) && Increasing(SepKeys(es))
  }

  lemma SepsPart(es: seq<Sep>, a: nat, b: nat)
    requires SepsOk(es) && a <= b <= |es|
    ensures SepsOk(es[a..b])
  {
  }

  lemma AppendLastSep(es: seq<Sep>, i: nat, idx: nat)
    requires Increasing(SepKeys(es)) && i < |es| && IsUpperBound(SepKeys(es[..i]), es[i].key, idx)
    ensures idx == i && Insert(es[..i], idx, es[i]) == es[..i + 1]
  {
    var ks, pre := SepKeys(es), SepKeys(es[..i]);
    assert forall j :: 0 <= j < i ==> pre[j] == ks[j] < ks[i];
    UpperBoundEnd(pre, es[i].key, idx);
  }

  lemma UpperBoundEnd(ks: seq<int>, key: int, idx: nat)
    requires forall j :: 0 <= j < |ks| ==> ks[j] <= key
    ensures IsUpperBound(ks, key, idx) ==> idx == |ks|
  {
    if idx < |ks| {
      NotUpperBound(ks, key, idx);
    }
  }

  method FillInterior(pager: Pager, n: nat, right: nat, es: seq<Sep>)
    requires pager.Valid() && n in pager.nodes && right < U32_LIMIT
    requires SepsOk(es) && INTERIOR_HEADER_SIZE + 14 * |es| <= pager.ps
    modifies pager
    ensures pager.Valid() && pager.total == old(pager.total)
    ensures pager.nodes == old(pager.nodes)[n := Interior(es, right)]
  {
    hide Pager.Valid, SepOk, Insert, Increasing;
    pager.InitInterior(n, right);
    for i := 0 to |es|
      invariant pager.Valid() && pager.total == old(pager.total)
      invariant pager.nodes == old(pager.nodes)[n := Interior(es[..i], right)]
    {
      SepsPart(es, 0, i);
      assert es[0..i] == es[..i];
      IncreasingIsNonDecreasing(SepKeys(es[..i]));
      var idx := pager.InsertSep(n, es[i]);
      AppendLastSep(es, i, idx);
    }
    assert es[..|es|] == es;
  }

  lemma IncreasingIsNonDecreasing(ks: seq<int>)
    requires Increasing(ks)
    ensures NonDecreasing(ks)
  {
  }

  /** `split_interior`: `all` and `right` describe the page with the new separator in; the separator
      at the cut moves up, the ones after it go to a new page. */
  method SplitInterior(
      pager: Pager, n: nat, i: nat, e: Sep, page: nat) returns (promoted: int, newPage: nat, ghost m: nat)
    requires pager.Valid() && n in pager.nodes && pager.nodes[n].Interior? && pager.total < MAX_PAGES
    requires i <= |pager.nodes[n].seps| && page < U32_LIMIT
    requires forall j :: IsUpperBound(SepKeys(pager.nodes[n].seps), e.key, j) ==> j == i
    requires Increasing(SepKeys(pager.nodes[n].seps)) && SepsOk(SepAdded(pager.nodes[n], i, e, page).seps)
    modifies pager
    ensures pager.Valid() && pager.total <= old(pager.total) + 1 && newPage !in old(pager.nodes)
    ensures 0 < newPage < U32_LIMIT
    ensures var full := SepAdded(old(pager.nodes)[n], i, e, page);
            && m == CutPoint(|full.seps|, i) && m < |full.seps| && promoted == full.seps[m].key
            && pager.nodes == old(pager.nodes)[n := Interior(full.seps[..m], full.seps[m].child)]
                                              [newPage := Interior(full.seps[m + 1..], full.right)]
  {
    hide Pager.Valid, SepsOk, Increasing;
    pager.InteriorPage(n);
    ghost var full := SepAdded(pager.nodes[n], i, e, page);
    var es, right := pager.ReadSeps(n);
    var pos := FirstSepAbove(es, e.key);
    es := Insert(es, pos, e);
    if pos + 1 < |es| {
      es := es[pos + 1 := Sep(page, es[pos + 1].key)];
    } else {
      right := page;
    }
    assert es == full.seps && right == full.right;
    var mid := CutPoint(|es|, pos);
    m := mid;
    promoted := es[mid].key;
    SepsPart(es, 0, mid);
    SepsPart(es, mid + 1, |es|);
    assert es[0..mid] == es[..mid] && es[mid + 1..|es|] == es[mid + 1..];
    SepChild(es, mid);
    FillInterior(pager, n, es[mid].child, es[..mid]);
    var r := pager.Allocate();
    newPage := r.value;
    FillInterior(pager, newPage, right, es[mid + 1..]);
  }

  lemma SepChild(es: seq<Sep>, m: nat)
    requires SepsOk(es) && m < |es|
    ensures es[m].child < U32_LIMIT
  {
    assert es[m] in es;
  }

  method FirstSepAbove(es: seq<Sep>, key: int) returns (pos: nat)
    requires Increasing(SepKeys(es))
    ensures IsUpperBound(SepKeys(es), key, pos)
  {
    pos := 0;
    while pos < |es| && es[pos].key <= key
      invariant pos <= |es| && forall j :: 0 <= j < pos ==> SepKeys(es)[j] <= key
    {
      pos := pos + 1;
    }
  }
}
