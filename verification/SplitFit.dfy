/** When the splits of btree.rs fit, for every page size, and a leaf whose split does not. */
module SplitFit {
  import opened Bytes
  import opened SlottedPage
  import opened PageFormat
  import opened PageStore
  import opened TreeSpec
  import opened TreeInsert
  import opened BTree
  import opened BTreeRead

  /** A row appended at the right edge always splits into two pages that fit. */
  lemma RightEdgeSplitFits(ps: nat, cells: seq<LeafCell>, size: nat)
    requires PageSizeOk(ps) && LeafRoom(ps, cells) >= 0 && size <= 12 + MaxInline(ps)
    ensures SplitFits(ps, cells, |cells|, size)
  {
    assert cells[..|cells|] == cells && cells[|cells|..] == [];
  }

  /** Two cells with the longest payload kept in a leaf fit on a page, with 22 bytes to spare; three do not. */
  lemma LongestPayloads(ps: nat)
    requires PageSizeOk(ps)
    ensures LEAF_HEADER_SIZE + 2 * (2 + 12 + MaxInline(ps)) + 22 == ps
    ensures LEAF_HEADER_SIZE + 3 * (2 + 12 + MaxInline(ps)) > ps
  {
  }

  /** What `n` cells of size `s` take, with their pointers. */
  function Span(n: nat, s: nat): nat { n * (s + 2) }

  lemma SpanStep(n: nat, s: nat)
    ensures Span(n + 1, s) == Span(n, s) + s + 2
  {
  }

  lemma SpanGrows(k: nat, n: nat, s: nat)
    requires k <= n
    ensures Span(k, s) <= Span(n, s)
  {
    assert Span(n, s) - Span(k, s) == (n - k) * (s + 2);
  }

  lemma {:induction false} EqualBytes(cells: seq<LeafCell>, s: nat)
    requires forall c :: c in cells ==> CellSize(c) == s
    ensures CellBytes(cells) + 2 * |cells| == Span(|cells|, s)
  {
    if cells != [] {
      assert cells[0] in cells;
      EqualBytes(cells[1..], s);
      SpanStep(|cells| - 1, s);
    }
  }

  /** A leaf whose cells all have one size splits into two halves that fit, wherever the new cell goes. */
  lemma EqualSizeSplitFits(ps: nat, cells: seq<LeafCell>, pos: nat, s: nat)
    requires PageSizeOk(ps) && LeafRoom(ps, cells) >= 0 && s <= 12 + MaxInline(ps) && pos <= |cells|
    requires forall c :: c in cells ==> CellSize(c) == s
    ensures SplitFits(ps, cells, pos, s)
  {
    hide CellBytes, Span;
    if pos == |cells| {
      RightEdgeSplitFits(ps, cells, s);
    } else {
      var n, m := |cells|, CutPoint(|cells| + 1, pos);
      var a := if m <= pos then m else m - 1;
      EqualBytes(cells, s);
      EqualBytes(cells[..a], s);
      EqualBytes(cells[a..], s);
      SpanGrows(a, n, s);
      SpanGrows(n - a, n, s);
      if m <= pos {
        SpanStep(n - a, s);
        SpanGrows(n - a + 1, n, s);
      } else {
        SpanStep(a, s);
        SpanGrows(a + 1, n, s);
      }
    }
  }

  /** Interior pages: the child array of `count_rows` has room for every page's children, and a page
      that is too full for one more separator has fewer separators than fit after any cut. */
  lemma InteriorBounds(ps: nat, count: nat, m: nat)
    requires PageSizeOk(ps) && INTERIOR_HEADER_SIZE + 14 * count <= ps && m <= count
    ensures count + 1 < MaxInteriorChildren(ps)
    ensures INTERIOR_HEADER_SIZE + 14 * m <= ps && INTERIOR_HEADER_SIZE + 14 * (count - m) <= ps
  {
  }

  // ---- Which halves can be stored at all ----

  /** A leaf page without cells. */
  function EmptyPage(ps: nat): (p: seq<byte>)
    requires PageSizeOk(ps)
    ensures |p| == ps
  {
    var end := OffToU16(ps);
    seq(ps, k => if k == 0 then LEAF_TABLE else if k == 3 then end % 256 else if k == 4 then end / 256 else 0)
  }

  /** The page with one more cell, its pointer the last. */
  function WithLast(p: seq<byte>, c: seq<byte>, count: nat, co: nat): (r: seq<byte>)
    requires |p| <= U16_LIMIT && 0 < |c| && LEAF_HEADER_SIZE + 2 * count + 2 + |c| <= co <= |p|
    ensures |r| == |p|
  {
    var at, ptr := co - |c|, LEAF_HEADER_SIZE + 2 * count;
    seq(|p|, k requires 0 <= k < |p| =>
      if k == 1 then (count + 1) % 256 else if k == 2 then (count + 1) / 256
      else if k == 3 || k == ptr then at % 256 else if k == 4 || k == ptr + 1 then at / 256
      else if at <= k < co then c[k - at]
      else p[k])
  }

  lemma WithLastIsAdded(p: seq<byte>, c: seq<byte>, count: nat, co: nat)
    requires |p| <= U16_LIMIT && 0 < |c| && LEAF_HEADER_SIZE + 2 * count + 2 + |c| <= co <= |p|
    ensures Added(p, WithLast(p, c, count, co), LEAF_HEADER_SIZE, c, count, count, co)
  {
  }

  // Disjoint intervals within a range.

  datatype Interval = Interval(start: nat, size: nat)

  function TotalSize(xs: seq<Interval>): nat
  {
    if xs == [] then 0 else xs[0].size + TotalSize(xs[1..])
  }

  ghost predicate Packed(xs: seq<Interval>, lo: nat, hi: nat)
  {
    && (forall i :: 0 <= i < |xs| ==> lo <= xs[i].start && xs[i].start + xs[i].size <= hi && xs[i].size > 0)
    && forall i, j :: 0 <= i < j < |xs| ==> Apart(xs[i].start, xs[i].size, xs[j].start, xs[j].size)
  }

  lemma {:induction false} TotalRemove(xs: seq<Interval>, k: nat)
    requires k < |xs|
    ensures TotalSize(xs) == TotalSize(Remove(xs, k)) + xs[k].size
    decreases |xs|
  {
    if k == 0 {
      assert Remove(xs, 0) == xs[1..];
    } else {
      TotalRemove(xs[1..], k - 1);
      assert Remove(xs, k)[1..] == Remove(xs[1..], k - 1);
    }
  }

  lemma {:induction false} LastInterval(xs: seq<Interval>) returns (k: nat)
    requires xs != []
    ensures k < |xs| && forall i :: 0 <= i < |xs| ==> xs[i].start <= xs[k].start
    decreases |xs|
  {
    if |xs| == 1 {
      k := 0;
    } else {
      var n := |xs| - 1;
      var j := LastInterval(xs[..n]);
      k := if xs[n].start >= xs[j].start then n else j;
      forall i | 0 <= i < |xs| ensures xs[i].start <= xs[k].start {
        assert i < n ==> xs[..n][i] == xs[i];
      }
    }
  }

  /** Intervals that do not overlap have room for all of their sizes. */
  lemma {:induction false} PackedFits(xs: seq<Interval>, lo: nat, hi: nat)
    requires lo <= hi && Packed(xs, lo, hi)
    ensures TotalSize(xs) <= hi - lo
    decreases |xs|
  {
    if xs != [] {
      var k := LastInterval(xs);
      var rest := Remove(xs, k);
      PackedBefore(xs, lo, hi, k);
      PackedFits(rest, lo, xs[k].start);
      TotalRemove(xs, k);
    }
  }

  /** All the others end where the last one starts. */
  lemma PackedBefore(xs: seq<Interval>, lo: nat, hi: nat, k: nat)
    requires Packed(xs, lo, hi) && k < |xs| && forall i :: 0 <= i < |xs| ==> xs[i].start <= xs[k].start
    ensures Packed(Remove(xs, k), lo, xs[k].start)
  {
    var rest := Remove(xs, k);
    forall i | 0 <= i < |rest|
      ensures lo <= rest[i].start && rest[i].start + rest[i].size <= xs[k].start && rest[i].size > 0
    {
      var j := if i < k then i else i + 1;
      assert rest[i] == xs[j];
      if j < k {
        assert Apart(xs[j].start, xs[j].size, xs[k].start, xs[k].size);
      } else {
        assert Apart(xs[k].start, xs[k].size, xs[j].start, xs[j].size);
      }
    }
    forall i, j | 0 <= i < j < |rest| ensures Apart(rest[i].start, rest[i].size, rest[j].start, rest[j].size) {
      var a, b := if i < k then i else i + 1, if j < k then j else j + 1;
      assert rest[i] == xs[a] && rest[j] == xs[b];
    }
  }

  /** Where the cells of a page lie. */
  ghost function Places(p: seq<byte>, cells: seq<seq<byte>>): (xs: seq<Interval>)
    requires LEAF_HEADER_SIZE + 2 * |cells| <= |p|
    ensures |xs| == |cells|
  {
    seq(|cells|, i requires 0 <= i < |cells| => Interval(SlotAt(p, LEAF_HEADER_SIZE, i), |cells[i]|))
  }

  lemma SlottedPacked(p: seq<byte>, cells: seq<seq<byte>>, co: nat)
    requires Slotted(p, LEAF_HEADER_SIZE, cells, co) && forall i :: 0 <= i < |cells| ==> cells[i] != []
    ensures Packed(Places(p, cells), co, |p|)
  {
    forall i | 0 <= i < |cells|
      ensures co <= SlotAt(p, LEAF_HEADER_SIZE, i) && SlotAt(p, LEAF_HEADER_SIZE, i) + |cells[i]| <= |p|
    {
      assert CellAt(p, LEAF_HEADER_SIZE, co, i, cells[i]);
    }
  }

  lemma {:induction false} PlacesTotal(p: seq<byte>, cells: seq<LeafCell>, xs: seq<Interval>)
    requires |xs| == |cells| && forall i :: 0 <= i < |cells| ==> xs[i].size == CellSize(cells[i])
    ensures TotalSize(xs) == CellBytes(cells)
    decreases |cells|
  {
    if cells != [] {
      PlacesTotal(p, cells[1..], xs[1..]);
    }
  }

  /** `p` is a leaf page whose slots hold exactly `cells`, apart from each other and from the header. */
  ghost predicate Stores(ps: nat, p: seq<byte>, cells: seq<LeafCell>)
  {
    && |p| == ps && (forall c :: c in cells ==> CellOk(c))
    && exists co :: Slotted(p, LEAF_HEADER_SIZE, EncCells(cells), co)
  }

  /** No page holds more cells than fit: cells that do not overlap take up all of their sizes. */
  lemma StoredLeafFits(ps: nat, p: seq<byte>, cells: seq<LeafCell>)
    requires Stores(ps, p, cells)
    ensures LeafRoom(ps, cells) >= 0
  {
    hide Slotted, EncCell;
    var co :| Slotted(p, LEAF_HEADER_SIZE, EncCells(cells), co);
    SlottedBounds(p, EncCells(cells), co);
    forall i | 0 <= i < |cells| ensures |EncCells(cells)[i]| == CellSize(cells[i]) > 0 {
      EncCellSize(cells[i]);
    }
    SlottedPacked(p, EncCells(cells), co);
    PackedFits(Places(p, EncCells(cells)), co, |p|);
    PlacesTotal(p, cells, Places(p, EncCells(cells)));
  }

  lemma SlottedBounds(p: seq<byte>, cells: seq<seq<byte>>, co: nat)
    requires Slotted(p, LEAF_HEADER_SIZE, cells, co)
    ensures LEAF_HEADER_SIZE + 2 * |cells| <= co <= |p|
  {
  }

  lemma {:induction false} FittingStored(ps: nat, cells: seq<LeafCell>) returns (p: seq<byte>)
    requires PageSizeOk(ps) && LeafRoom(ps, cells) >= 0 && forall c :: c in cells ==> CellOk(c)
    ensures NodeRepr(ps, p, Leaf(cells, ps - CellBytes(cells), 0, 0))
  {
    hide Slotted, FromLe, EncCell, EncCells, CellOk;
    if cells == [] {
      p := EmptyPage(ps);
      EmptyPageRepr(ps);
    } else {
      var n := |cells| - 1;
      var front, c := cells[..n], cells[n];
      assert cells == front + [c] && Insert(front, n, c) == cells;
      CellBytesInsert(front, n, c);
      var q := FittingStored(ps, front);
      p := AddLast(ps, q, front, c);
    }
  }

  lemma FittingStores(ps: nat, cells: seq<LeafCell>)
    requires PageSizeOk(ps) && LeafRoom(ps, cells) >= 0 && forall c :: c in cells ==> CellOk(c)
    ensures exists p :: Stores(ps, p, cells)
  {
    hide Slotted, CellOk, NodeRepr;
    var p := FittingStored(ps, cells);
    LeafStores(ps, p, cells, ps - CellBytes(cells));
  }

  lemma LeafStores(ps: nat, p: seq<byte>, cells: seq<LeafCell>, co: nat)
    requires NodeRepr(ps, p, Leaf(cells, co, 0, 0))
    ensures Stores(ps, p, cells)
  {
    hide Slotted, CellOk, FromLe, EncCells, CellBytes;
    assert Slotted(p, LEAF_HEADER_SIZE, EncCells(cells), co);
  }

  lemma EmptyPageRepr(ps: nat)
    requires PageSizeOk(ps)
    ensures NodeRepr(ps, EmptyPage(ps), Leaf([], ps, 0, 0))
  {
    hide EmptyPage, FromLe;
    var p := EmptyPage(ps);
    EmptyPageBytes(ps);
    assert p[6..10] == [0, 0, 0, 0] && p[10..14] == [0, 0, 0, 0];
    ZeroLink();
  }

  lemma EmptyPageBytes(ps: nat)
    requires PageSizeOk(ps)
    ensures var p := EmptyPage(ps);
      && |p| == ps && p[0] == LEAF_TABLE && (forall k :: 6 <= k < 14 ==> p[k] == 0)
      && Slotted(p, LEAF_HEADER_SIZE, [], ps)
  {
  }

  lemma ZeroLink()
    ensures FromLe([0, 0, 0, 0]) == 0
  {
    U32RoundTrip(0);
    assert Le(0, 2) == [0, 0];
    assert Le(0, 3) == [0] + Le(0, 2);
    assert Le(0, 4) == [0] + Le(0, 3);
  }

  lemma AddLast(ps: nat, q: seq<byte>, front: seq<LeafCell>, c: LeafCell) returns (p: seq<byte>)
    requires PageSizeOk(ps) && CellOk(c) && LeafRoom(ps, front) >= CellSize(c) + 2
    requires NodeRepr(ps, q, Leaf(front, ps - CellBytes(front), 0, 0))
    ensures NodeRepr(ps, p, Leaf(Insert(front, |front|, c), ps - CellBytes(front) - CellSize(c), 0, 0))
  {
    hide Slotted, FromLe, CellBytes, WithLast, Added, EncCell, CellSize;
    var co, b := ps - CellBytes(front), EncCell(c);
    EncCellSize(c);
    p := WithLast(q, b, |front|, co);
    WithLastIsAdded(q, b, |front|, co);
    AddedIsSlotted(q, p, LEAF_HEADER_SIZE, EncCells(front), co, b, |front|);
    EncCellsInsert(front, |front|, c);
    CellBytesInsert(front, |front|, c);
    WithLastLinks(q, b, |front|, co);
  }

  lemma EncCellSize(c: LeafCell)
    requires CellOk(c)
    ensures |EncCell(c)| == CellSize(c) > 0
  {
  }

  lemma WithLastLinks(p: seq<byte>, c: seq<byte>, count: nat, co: nat)
    requires |p| <= U16_LIMIT && 0 < |c| && LEAF_HEADER_SIZE + 2 * count + 2 + |c| <= co <= |p|
    ensures var r := WithLast(p, c, count, co); r[0] == p[0] && r[6..10] == p[6..10] && r[10..14] == p[10..14]
  {
  }

  /**
   * A split by count can leave both of its pages correct exactly when both halves fit: no
   * bytes hold a half that does not.
   */
  lemma SplitStorableIff(ps: nat, cells: seq<LeafCell>, pos: nat, c: LeafCell)
    requires PageSizeOk(ps) && pos <= |cells| && CellOk(c) && forall x :: x in cells ==> CellOk(x)
    ensures var all, m := Insert(cells, pos, c), CutPoint(|cells| + 1, pos);
      SplitFits(ps, cells, pos, CellSize(c)) <==> exists p, q :: Stores(ps, p, all[..m]) && Stores(ps, q, all[m..])
  {
    hide Stores, CellOk, LeafRoom;
    var all, m := Insert(cells, pos, c), CutPoint(|cells| + 1, pos);
    SplitHalves(ps, cells, pos, c);
    InsertMembers(cells, pos, c);
    if SplitFits(ps, cells, pos, CellSize(c)) {
      FittingStores(ps, all[..m]);
      FittingStores(ps, all[m..]);
    }
    forall p, q | Stores(ps, p, all[..m]) && Stores(ps, q, all[m..])
      ensures LeafRoom(ps, all[..m]) >= 0 && LeafRoom(ps, all[m..]) >= 0
    {
      StoredLeafFits(ps, p, all[..m]);
      StoredLeafFits(ps, q, all[m..]);
    }
  }

  /** Rowid `2 * i`: ten short rows, then three long ones. */
  function Uneven(i: nat): LeafCell { Inline(2 * i, seq(if i < 10 then 1 else 1240, _ => 0)) }

  /** `n` of these cells, from number `from` on. */
  function UnevenCells(from: nat, n: nat): (cs: seq<LeafCell>)
    ensures |cs| == n && forall i :: 0 <= i < n ==> cs[i] == Uneven(from + i)
  {
    seq(n, i requires 0 <= i < n => Uneven(from + i))
  }

  lemma {:induction false} UnevenBytes(from: nat, n: nat, size: nat)
    requires (from + n <= 10 && size == 13) || (from >= 10 && size == 1252)
    ensures CellBytes(UnevenCells(from, n)) == size * n
    decreases n
  {
    if n > 0 {
      assert UnevenCells(from, n)[1..] == UnevenCells(from + 1, n - 1);
      UnevenBytes(from + 1, n - 1, size);
      assert size * n == size + size * (n - 1);
    }
  }

  /**
   * A legal leaf of 4096 bytes with rowids 0, 2, ..., 24, and a new row 23 of the largest
   * inline size: it goes to position 12, and the right half of the split does not fit.
   */
  lemma UnevenSplitOverflows()
    ensures var cells, size := UnevenCells(0, 13), 12 + MaxInline(4096);
      && Increasing(CellKeys(cells)) && (forall c :: c in cells ==> CellOk(c) && CellSize(c) <= size)
      && LeafRoom(4096, cells) >= 0 && 23 !in CellKeys(cells) && IsUpperBound(CellKeys(cells), 23, 12)
      && LEAF_HEADER_SIZE + 2 * |cells| + 2 + size > 4096 - CellBytes(cells)
      && !SplitFits(4096, cells, 12, size)
  {
    hide UnevenCells, CellBytes, CellKeys, Increasing, IsUpperBound, CellOk;
    UnevenKeys();
    UnevenSizes();
  }

  lemma UnevenKeys()
    ensures var ks := CellKeys(UnevenCells(0, 13));
      Increasing(ks) && 23 !in ks && |UnevenCells(0, 13)| == 13 && IsUpperBound(ks, 23, 12)
  {
    var cells := UnevenCells(0, 13);
    assert forall i :: 0 <= i < 13 ==> CellKeys(cells)[i] == cells[i].key == 2 * i;
  }

  lemma UnevenSizes()
    ensures var cells := UnevenCells(0, 13);
      && (forall c :: c in cells ==> CellOk(c) && CellSize(c) <= 12 + MaxInline(4096))
      && CellBytes(cells) == 3886 && |cells[..7]| == 7 && |cells[7..]| == 6 && CellBytes(cells[7..]) == 3795
  {
    var cells := UnevenCells(0, 13);
    forall c | c in cells ensures CellOk(c) && CellSize(c) <= 12 + MaxInline(4096) {
      var i :| 0 <= i < 13 && cells[i] == c;
    }
    hide CellBytes, CellOk, Uneven;
    assert cells == UnevenCells(0, 10) + UnevenCells(10, 3);
    assert cells[7..] == UnevenCells(7, 3) + UnevenCells(10, 3);
    CellBytesConcat(UnevenCells(0, 10), UnevenCells(10, 3));
    CellBytesConcat(UnevenCells(7, 3), UnevenCells(10, 3));
    UnevenBytes(0, 10, 13);
    UnevenBytes(7, 3, 13);
    UnevenBytes(10, 3, 1252);
  }
}
