/** The pager as the tree sees it, and the tree's single-page operations on it.
    `pages` holds the bytes; the ghost `nodes` says what each allocated page means. */
module PageStore {
  import opened Bytes
  import opened SlottedPage
  import opened PageFormat
  import opened Options

  const MAX_PAGES := 1_048_576

  function CellKeys(cs: seq<LeafCell>): (ks: seq<int>)
    ensures |ks| == |cs| && forall i :: 0 <= i < |cs| ==> ks[i] == cs[i].key
  {
    seq(|cs|, i requires 0 <= i < |cs| => cs[i].key)
  }

  function SepKeys(es: seq<Sep>): (ks: seq<int>)
    ensures |ks| == |es| && forall i :: 0 <= i < |es| ==> ks[i] == es[i].key
  {
    seq(|es|, i requires 0 <= i < |es| => es[i].key)
  }

  predicate Increasing(ks: seq<int>) {
    forall i, j :: 0 <= i < j < |ks| ==> ks[i] < ks[j]
  }

  predicate NonDecreasing(ks: seq<int>) {
    forall i, j :: 0 <= i < j < |ks| ==> ks[i] <= ks[j]
  }

  /** `idx` separates the keys at most `key` from those above it. */
  predicate IsUpperBound(ks: seq<int>, key: int, idx: nat) {
    && idx <= |ks|
    && (forall j :: 0 <= j < idx ==> ks[j] <= key)
    && (forall j :: idx <= j < |ks| ==> key < ks[j])
  }

  /** Slot `i` of the page leads to a cell whose key is `keys[i]`. */
  ghost predicate HasKeys(p: seq<byte>, base: nat, keys: seq<int>) {
    && base + 2 * |keys| <= |p|
    && forall i :: 0 <= i < |keys| ==> SlotAt(p, base, i) + 12 <= |p| && KeyAt(p, SlotAt(p, base, i)) == keys[i]
  }

  lemma LeafHasKeys(ps: nat, p: seq<byte>, n: Node)
    requires n.Leaf? && NodeRepr(ps, p, n)
    ensures HasKeys(p, LEAF_HEADER_SIZE, CellKeys(n.cells))
  {
    forall i | 0 <= i < |n.cells|
      ensures SlotAt(p, LEAF_HEADER_SIZE, i) + 12 <= |p| && KeyAt(p, SlotAt(p, LEAF_HEADER_SIZE, i)) == n.cells[i].key
    {
      assert CellAt(p, LEAF_HEADER_SIZE, n.co, i, EncCells(n.cells)[i]);
      EncCellFields(n.cells[i]);
      HoldsKey(p, SlotAt(p, LEAF_HEADER_SIZE, i), EncCell(n.cells[i]), n.cells[i].key);
    }
  }

  lemma InteriorSlots(ps: nat, p: seq<byte>, n: Node)
    requires n.Interior? && NodeRepr(ps, p, n)
    ensures HasKeys(p, INTERIOR_HEADER_SIZE, SepKeys(n.seps))
    ensures forall i :: 0 <= i < |n.seps| ==> U32At(p, SlotAt(p, INTERIOR_HEADER_SIZE, i)) == n.seps[i].child
  {
    forall i | 0 <= i < |n.seps|
      ensures SlotAt(p, INTERIOR_HEADER_SIZE, i) + 12 <= |p|
      ensures KeyAt(p, SlotAt(p, INTERIOR_HEADER_SIZE, i)) == n.seps[i].key
      ensures U32At(p, SlotAt(p, INTERIOR_HEADER_SIZE, i)) == n.seps[i].child
    {
      assert CellAt(p, INTERIOR_HEADER_SIZE, ps - 12 * |n.seps|, i, EncSeps(n.seps)[i]);
      DecodeEncSep(p, SlotAt(p, INTERIOR_HEADER_SIZE, i), n.seps[i]);
    }
  }

  /** The exact-match binary search of `leaf_insert_index`, `find_by_rowid` and `delete_from_page`. */
  method SearchKey(p: seq<byte>, base: nat, count: nat, key: int, ghost keys: seq<int>) returns (found: bool, idx: nat)
    requires HasKeys(p, base, keys) && Increasing(keys) && count == |keys|
    ensures found ==> idx < |keys| && keys[idx] == key
    ensures !found ==> key !in keys && IsUpperBound(keys, key, idx)
  {
    var lo: nat, hi: nat := 0, count;
    while lo < hi
      invariant lo <= hi <= count
      invariant forall j :: 0 <= j < lo ==> keys[j] < key
      invariant forall j :: hi <= j < count ==> key < keys[j]
    {
      var mid := lo + (hi - lo) / 2;
      var k := KeyAt(p, SlotAt(p, base, mid));
      if k == key {
        return true, mid;
      } else if k < key {
        lo := mid + 1;
      } else {
        hi := mid;
      }
    }
    return false, lo;
  }

  /** The "first key greater than" search of `find_child_page` and `insert_interior_cell`. */
  method UpperBound(p: seq<byte>, base: nat, count: nat, key: int, ghost keys: seq<int>) returns (idx: nat)
    requires HasKeys(p, base, keys) && NonDecreasing(keys) && count == |keys|
    ensures IsUpperBound(keys, key, idx)
  {
    var lo: nat, hi: nat := 0, count;
    while lo < hi
      invariant lo <= hi <= count
      invariant forall j :: 0 <= j < lo ==> keys[j] <= key
      invariant forall j :: hi <= j < count ==> key < keys[j]
    {
      var mid := lo + (hi - lo) / 2;
      if key < KeyAt(p, SlotAt(p, base, mid)) {
        hi := mid;
      } else {
        lo := mid + 1;
      }
    }
    return lo;
  }

  /** The linear search of `replace_child_pointer`. */
  method FirstEqual(p: seq<byte>, base: nat, count: nat, key: int, ghost keys: seq<int>) returns (found: bool, idx: nat)
    requires HasKeys(p, base, keys) && count == |keys|
    ensures found <==> key in keys
    ensures found ==> IsFirst(keys, key, idx)
  {
    for i := 0 to count
      invariant key !in keys[..i]
    {
      if KeyAt(p, SlotAt(p, base, i)) == key {
        return true, i;
      }
    }
    return false, count;
  }

  // ---- page edits on bytes, each proved against the node it leaves ----

  /** `write_page_header` on a page about to be filled. */
  method InitBytes(ps: nat, p: seq<byte>, kind: byte, right: nat) returns (r: seq<byte>)
    requires PageSizeOk(ps) && |p| == ps && right < U32_LIMIT && kind in {LEAF_TABLE, INTERIOR_TABLE}
    ensures kind == LEAF_TABLE && right == 0 ==> NodeRepr(ps, r, Leaf([], ps, 0, 0))
    ensures kind == INTERIOR_TABLE ==> NodeRepr(ps, r, Interior([], right))
  {
    hide FromLe;
    var a := Thaw(p);
    a[0] := kind;
    WriteU16(a, 1, 0);
    WriteU16(a, 3, OffToU16(ps));
    a[5] := 0;
    WriteU32(a, 6, right);
    if kind == LEAF_TABLE {
      ghost var q := a[..];
      WriteU32(a, 10, 0);
      assert a[..][6..10] == q[6..10];
    }
    r := a[..];
  }

  method SetLinkBytes(ps: nat, p: seq<byte>, isNext: bool, v: nat, ghost node: Node) returns (r: seq<byte>)
    requires node.Leaf? && NodeRepr(ps, p, node) && v < U32_LIMIT
    ensures NodeRepr(ps, r, WithLink(node, isNext, v))
  {
    var a := Thaw(p);
    WriteU32(a, if isNext then 6 else 10, v);
    r := a[..];
    if isNext {
      assert r[10..14] == p[10..14];
    } else {
      assert r[6..10] == p[6..10];
    }
    SlottedFrame(p, r, LEAF_HEADER_SIZE, EncCells(node.cells), node.co);
  }

  method InsertCellBytes(ps: nat, p: seq<byte>, idx: nat, c: LeafCell, ghost node: Node) returns (r: seq<byte>)
    requires node.Leaf? && NodeRepr(ps, p, node) && CellOk(c) && idx <= |node.cells|
    requires LEAF_HEADER_SIZE + 2 * |node.cells| + 2 + CellSize(c) <= node.co
    ensures NodeRepr(ps, r, WithCell(node, idx, c))
  {
    hide Slotted, FromLe, EncCell, EncSep, EncCells, EncSeps;
    var a := Thaw(p);
    WriteCell(a, LEAF_HEADER_SIZE, EncCell(c), idx, EncCells(node.cells), node.co);
    r := a[..];
    EncCellsInsert(node.cells, idx, c);
    CellBytesInsert(node.cells, idx, c);
    assert r[6..10] == p[6..10] && r[10..14] == p[10..14];
  }

  method DeleteCellBytes(ps: nat, p: seq<byte>, idx: nat, ghost node: Node) returns (r: seq<byte>)
    requires node.Leaf? && NodeRepr(ps, p, node) && idx < |node.cells|
    ensures NodeRepr(ps, r, node.(cells := Remove(node.cells, idx)))
    ensures |node.cells| == 1 ==> forall k :: 3 <= k < |p| ==> r[k] == p[k]
  {
    hide Slotted, FromLe, EncCell, EncSep, EncCells, EncSeps;
    var a := Thaw(p);
    RemoveCell(a, LEAF_HEADER_SIZE, idx, EncCells(node.cells), node.co);
    r := a[..];
    assert EncCells(Remove(node.cells, idx)) == Remove(EncCells(node.cells), idx);
    CellBytesRemove(node.cells, idx);
    assert r[6..10] == p[6..10] && r[10..14] == p[10..14];
  }

  /** Dropping the only cell of a page changes nothing but the cell count. */
  lemma SlotStays(ps: nat, p: seq<byte>, r: seq<byte>, node: Node)
    requires node.Leaf? && NodeRepr(ps, p, node) && |node.cells| == 1 && |r| == |p|
    requires forall k :: 3 <= k < |p| ==> r[k] == p[k]
    ensures SlotCell(r, 0) == Some(node.cells[0])
  {
    hide DecodeCell, EncCell, FromLe;
    var c := node.cells[0];
    assert CellAt(p, LEAF_HEADER_SIZE, node.co, 0, EncCells(node.cells)[0]);
    var s := SlotAt(p, LEAF_HEADER_SIZE, 0);
    assert r[LEAF_HEADER_SIZE..LEAF_HEADER_SIZE + 2] == p[LEAF_HEADER_SIZE..LEAF_HEADER_SIZE + 2];
    DecodeEncCell(r, s, c);
  }

  method InsertSepBytes(ps: nat, p: seq<byte>, idx: nat, e: Sep, ghost node: Node) returns (r: seq<byte>)
    requires node.Interior? && NodeRepr(ps, p, node) && SepOk(e) && idx <= |node.seps|
    requires INTERIOR_HEADER_SIZE + 14 * |node.seps| + 14 <= ps
    ensures NodeRepr(ps, r, node.(seps := Insert(node.seps, idx, e)))
  {
    hide Slotted, FromLe, EncCell, EncSep, EncCells, EncSeps;
    var a := Thaw(p);
    WriteCell(a, INTERIOR_HEADER_SIZE, EncSep(e), idx, EncSeps(node.seps), ps - 12 * |node.seps|);
    r := a[..];
    EncSepsInsert(node.seps, idx, e);
    assert r[6..10] == p[6..10];
  }

  method SetChildBytes(ps: nat, p: seq<byte>, idx: nat, page: nat, ghost node: Node) returns (r: seq<byte>)
    requires node.Interior? && NodeRepr(ps, p, node) && idx <= |node.seps| && page < U32_LIMIT
    ensures NodeRepr(ps, r, WithChild(node, idx, page))
  {
    hide FromLe, EncSep, EncSeps;
    var a := Thaw(p);
    var count := U16At(p, 1);
    if idx < count {
      var s := SlotAt(p, INTERIOR_HEADER_SIZE, idx);
      ghost var e := Sep(page, node.seps[idx].key);
      assert CellAt(p, INTERIOR_HEADER_SIZE, ps - 12 * count, idx, EncSeps(node.seps)[idx]);
      WriteBytes(a, s, Le(page, 4));
      r := a[..];
      PatchedSep(p, r, s, node.seps[idx], page);
      PatchedIsSlotted(p, r, INTERIOR_HEADER_SIZE, EncSeps(node.seps), ps - 12 * count, idx, EncSep(e));
      assert EncSeps(node.seps[idx := e]) == EncSeps(node.seps)[idx := EncSep(e)];
      assert r[6..10] == p[6..10];
    } else {
      WriteU32(a, 6, page);
      r := a[..];
      SlottedFrame(p, r, INTERIOR_HEADER_SIZE, EncSeps(node.seps), ps - 12 * count);
    }
  }

  class Pager {
    const ps: nat
    var pages: map<nat, seq<byte>>
    var total: nat
    var free: set<nat>
    ghost var nodes: map<nat, Node>

    ghost predicate Valid()
      reads this
    {
      && PageSizeOk(ps) && total <= MAX_PAGES
      && (forall n :: n in pages <==> 1 <= n <= total)
      && free + nodes.Keys == pages.Keys && free !! nodes.Keys
      && (forall n :: n in pages ==> |pages[n]| == ps)
      && (forall n :: n in nodes ==> NodeRepr(ps, pages[n], nodes[n]))
    }

    lemma Facts()
      requires Valid()
      ensures PageSizeOk(ps) && total <= MAX_PAGES
      ensures forall n :: n in nodes ==> 0 < n < U32_LIMIT
    {
    }

    lemma PageInUse(n: nat)
      requires Valid() && n in nodes
      ensures n in pages && |pages[n]| == ps
    {
    }

    lemma LeafPage(n: nat)
      requires Valid() && n in nodes && nodes[n].Leaf?
      ensures forall c :: c in nodes[n].cells ==> CellOk(c)
      ensures LEAF_HEADER_SIZE + 2 * |nodes[n].cells| <= nodes[n].co && nodes[n].co + CellBytes(nodes[n].cells) <= ps
      ensures nodes[n].next < U32_LIMIT && nodes[n].prev < U32_LIMIT
    {
      assert NodeRepr(ps, pages[n], nodes[n]);
      LeFromLe(pages[n][6..10]);
      LeFromLe(pages[n][10..14]);
      Pow256Values();
    }

    lemma InteriorPage(n: nat)
      requires Valid() && n in nodes && nodes[n].Interior?
      ensures forall e :: e in nodes[n].seps ==> SepOk(e)
      ensures INTERIOR_HEADER_SIZE + 14 * |nodes[n].seps| <= ps && nodes[n].right < U32_LIMIT
    {
      assert NodeRepr(ps, pages[n], nodes[n]);
      LeFromLe(pages[n][6..10]);
      Pow256Values();
    }

    constructor (pageSize: nat)
      requires PageSizeOk(pageSize)
      ensures Valid() && nodes == map[] && ps == pageSize && total == 0
    {
      ps, pages, total, free, nodes := pageSize, map[], 0, {}, map[];
    }

    /** A page from the free pool (zeroed) or a new one; `None` when the database is full. */
    method Allocate() returns (r: Option<nat>)
      requires Valid()
      modifies this
      ensures Valid()
      ensures r.None? <==> old(total) >= MAX_PAGES
      ensures r.None? ==> nodes == old(nodes) && total == old(total)
      ensures r.Some? ==> 0 < r.value < U32_LIMIT && r.value !in old(nodes) && nodes == old(nodes)[r.value := Blank]
      ensures r.Some? ==> total <= old(total) + 1
    {
      if total >= MAX_PAGES {
        return None;
      }
      var zero := seq(ps, _ => 0 as byte);
      if free != {} {
        var n :| n in free;
        free := free - {n};
        pages := pages[n := zero];
        nodes := nodes[n := Blank];
        return Some(n);
      }
      total := total + 1;
      pages := pages[total := zero];
      nodes := nodes[total := Blank];
      return Some(total);
    }

    method FreePage(n: nat)
      requires Valid() && n in nodes
      modifies this
      ensures Valid() && nodes == old(nodes) - {n} && total == old(total)
    {
      pages := pages[n := seq(ps, _ => 0 as byte)];
      free := free + {n};
      nodes := nodes - {n};
    }

    /** Storing an edited page: the frame of every `get_page_mut`. */
    method Store(n: nat, p: seq<byte>, ghost node: Node)
      requires Valid() && n in nodes && NodeRepr(ps, p, node)
      modifies this
      ensures Valid() && nodes == old(nodes)[n := node] && total == old(total) && pages == old(pages)[n := p]
    {
      pages := pages[n := p];
      nodes := nodes[n := node];
    }

    method InitLeaf(n: nat)
      requires Valid() && n in nodes
      modifies this
      ensures Valid() && nodes == old(nodes)[n := Leaf([], ps, 0, 0)] && total == old(total)
    {
      var p := InitBytes(ps, pages[n], LEAF_TABLE, 0);
      Store(n, p, Leaf([], ps, 0, 0));
    }

    method InitInterior(n: nat, right: nat)
      requires Valid() && n in nodes && right < U32_LIMIT
      modifies this
      ensures Valid() && nodes == old(nodes)[n := Interior([], right)] && total == old(total)
    {
      var p := InitBytes(ps, pages[n], INTERIOR_TABLE, right);
      Store(n, p, Interior([], right));
    }

    function IsLeafPage(n: nat): (b: bool)
      requires Valid() && n in nodes && (nodes[n].Leaf? || nodes[n].Interior?)
      reads this
      ensures b <==> nodes[n].Leaf?
    {
      assert NodeRepr(ps, pages[n], nodes[n]);
      pages[n][0] == LEAF_TABLE
    }

    method NextLeaf(n: nat) returns (next: nat)
      requires Valid() && n in nodes && nodes[n].Leaf?
      ensures next == nodes[n].next
    {
      assert NodeRepr(ps, pages[n], nodes[n]);
      next := U32At(pages[n], 6);
    }

    method PrevLeaf(n: nat) returns (prev: nat)
      requires Valid() && n in nodes && nodes[n].Leaf?
      ensures prev == nodes[n].prev
    {
      assert NodeRepr(ps, pages[n], nodes[n]);
      prev := U32At(pages[n], 10);
    }

    /** Either link field: bytes 6..10 (next) or 10..14 (prev) of a leaf header. */
    method SetLink(n: nat, isNext: bool, v: nat)
      requires Valid() && n in nodes && nodes[n].Leaf? && v < U32_LIMIT
      modifies this
      ensures Valid() && total == old(total)
      ensures nodes == old(nodes)[n := WithLink(old(nodes)[n], isNext, v)]
    {
      var p := SetLinkBytes(ps, pages[n], isNext, v, nodes[n]);
      Store(n, p, WithLink(nodes[n], isNext, v));
    }

    method SetLinks(n: nat, next: nat, prev: nat)
      requires Valid() && n in nodes && nodes[n].Leaf? && next < U32_LIMIT && prev < U32_LIMIT
      modifies this
      ensures Valid() && total == old(total)
      ensures nodes == old(nodes)[n := WithLinks(old(nodes)[n], next, prev)]
    {
      hide Valid;
      SetLink(n, true, next);
      SetLink(n, false, prev);
    }

    method CellCount(n: nat) returns (c: nat)
      requires Valid() && n in nodes && (nodes[n].Leaf? || nodes[n].Interior?)
      ensures nodes[n].Leaf? ==> c == |nodes[n].cells|
      ensures nodes[n].Interior? ==> c == |nodes[n].seps|
    {
      assert NodeRepr(ps, pages[n], nodes[n]);
      c := U16At(pages[n], 1);
    }

    /** Free bytes between the pointer array and the content area. */
    method Available(n: nat) returns (room: nat)
      requires Valid() && n in nodes && (nodes[n].Leaf? || nodes[n].Interior?)
      ensures nodes[n].Leaf? ==> room == nodes[n].co - (LEAF_HEADER_SIZE + 2 * |nodes[n].cells|)
      ensures nodes[n].Interior? ==> room == ps - (INTERIOR_HEADER_SIZE + 14 * |nodes[n].seps|)
    {
      assert NodeRepr(ps, pages[n], nodes[n]);
      var header := if pages[n][0] == LEAF_TABLE then LEAF_HEADER_SIZE else INTERIOR_HEADER_SIZE;
      room := U16ToOff(U16At(pages[n], 3)) - (header + 2 * U16At(pages[n], 1));
    }

    method FindInLeaf(n: nat, key: int) returns (found: bool, idx: nat)
      requires Valid() && n in nodes && nodes[n].Leaf? && Increasing(CellKeys(nodes[n].cells))
      ensures found ==> idx < |nodes[n].cells| && nodes[n].cells[idx].key == key
      ensures !found ==> key !in CellKeys(nodes[n].cells) && IsUpperBound(CellKeys(nodes[n].cells), key, idx)
    {
      LeafHasKeys(ps, pages[n], nodes[n]);
      found, idx := SearchKey(pages[n], LEAF_HEADER_SIZE, U16At(pages[n], 1), key, CellKeys(nodes[n].cells));
    }

    method ReadCell(n: nat, idx: nat) returns (c: LeafCell)
      requires Valid() && n in nodes && nodes[n].Leaf? && idx < |nodes[n].cells|
      ensures c == nodes[n].cells[idx]
    {
      SlotOfCell(n, idx);
      c := SlotCell(pages[n], idx).value;
    }

    lemma SlotOfCell(n: nat, idx: nat)
      requires Valid() && n in nodes && nodes[n].Leaf? && idx < |nodes[n].cells|
      ensures n in pages && SlotCell(pages[n], idx) == Some(nodes[n].cells[idx])
    {
      var node, p := nodes[n], pages[n];
      assert CellAt(p, LEAF_HEADER_SIZE, node.co, idx, EncCells(node.cells)[idx]);
      DecodeEncCell(p, SlotAt(p, LEAF_HEADER_SIZE, idx), node.cells[idx]);
    }

    method ReadCells(n: nat) returns (cells: seq<LeafCell>)
      requires Valid() && n in nodes && nodes[n].Leaf?
      ensures cells == nodes[n].cells
    {
      hide Valid;
      var count := CellCount(n);
      cells := [];
      for i := 0 to count
        invariant cells == nodes[n].cells[..i]
      {
        var c := ReadCell(n, i);
        cells := cells + [c];
      }
    }

    /** Insert a cell that fits; a duplicate rowid is reported and changes nothing. */
    method InsertCell(n: nat, c: LeafCell) returns (ok: bool, ghost idx: nat)
      requires Valid() && n in nodes && nodes[n].Leaf? && CellOk(c)
      requires Increasing(CellKeys(nodes[n].cells))
      requires LEAF_HEADER_SIZE + 2 * |nodes[n].cells| + 2 + CellSize(c) <= nodes[n].co
      modifies this
      ensures Valid() && total == old(total)
      ensures ok <==> c.key !in CellKeys(old(nodes)[n].cells)
      ensures !ok ==> nodes == old(nodes)
      ensures ok ==> IsUpperBound(CellKeys(old(nodes)[n].cells), c.key, idx)
      ensures ok ==> nodes == old(nodes)[n := WithCell(old(nodes)[n], idx, c)]
    {
      var found, at := FindInLeaf(n, c.key);
      idx := at;
      if found {
        assert CellKeys(nodes[n].cells)[at] == c.key;
        return false, idx;
      }
      var p := InsertCellBytes(ps, pages[n], at, c, nodes[n]);
      Store(n, p, WithCell(nodes[n], idx, c));
      return true, idx;
    }

    /** Slot 0 of a page that loses its only cell still leads to that cell. */
    method DeleteCell(n: nat, idx: nat)
      requires Valid() && n in nodes && nodes[n].Leaf? && idx < |nodes[n].cells|
      modifies this
      ensures Valid() && total == old(total)
      ensures nodes == old(nodes)[n := old(nodes)[n].(cells := Remove(old(nodes)[n].cells, idx))]
      ensures n in pages && (|old(nodes)[n].cells| == 1 ==> SlotCell(pages[n], 0) == Some(old(nodes)[n].cells[0]))
    {
      var p := DeleteCellBytes(ps, pages[n], idx, nodes[n]);
      if |nodes[n].cells| == 1 {
        SlotStays(ps, pages[n], p, nodes[n]);
      }
      Store(n, p, nodes[n].(cells := Remove(nodes[n].cells, idx)));
    }

    /** `find_child_page`. */
    method FindChild(n: nat, key: int) returns (child: nat, idx: nat)
      requires Valid() && n in nodes && nodes[n].Interior? && NonDecreasing(SepKeys(nodes[n].seps))
      ensures IsUpperBound(SepKeys(nodes[n].seps), key, idx)
      ensures child == ChildAt(nodes[n], idx)
    {
      ghost var node := nodes[n];
      var p := pages[n];
      InteriorSlots(ps, p, node);
      var count := U16At(p, 1);
      idx := UpperBound(p, INTERIOR_HEADER_SIZE, count, key, SepKeys(node.seps));
      child := if idx < count then U32At(p, SlotAt(p, INTERIOR_HEADER_SIZE, idx)) else U32At(p, 6);
    }

    /** Child number `idx`: a separator's left child, or the right child. */
    method ReadChild(n: nat, idx: nat) returns (child: nat)
      requires Valid() && n in nodes && nodes[n].Interior? && idx <= |nodes[n].seps|
      ensures child == ChildAt(nodes[n], idx)
    {
      var p := pages[n];
      InteriorSlots(ps, p, nodes[n]);
      child := if idx < U16At(p, 1) then U32At(p, SlotAt(p, INTERIOR_HEADER_SIZE, idx)) else U32At(p, 6);
    }

    method ReadSep(n: nat, idx: nat) returns (e: Sep)
      requires Valid() && n in nodes && nodes[n].Interior? && idx < |nodes[n].seps|
      ensures e == nodes[n].seps[idx]
    {
      var p := pages[n];
      InteriorSlots(ps, p, nodes[n]);
      var s := SlotAt(p, INTERIOR_HEADER_SIZE, idx);
      e := Sep(U32At(p, s), KeyAt(p, s));
    }

    method ReadSeps(n: nat) returns (seps: seq<Sep>, right: nat)
      requires Valid() && n in nodes && nodes[n].Interior?
      ensures seps == nodes[n].seps && right == nodes[n].right
    {
      hide Valid;
      var count := CellCount(n);
      seps := [];
      for i := 0 to count
        invariant seps == nodes[n].seps[..i]
      {
        var e := ReadSep(n, i);
        seps := seps + [e];
      }
      right := ReadChild(n, count);
    }

    /** `insert_interior_cell`, for a page with room for one more separator. */
    method InsertSep(n: nat, e: Sep) returns (idx: nat)
      requires Valid() && n in nodes && nodes[n].Interior? && SepOk(e)
      requires NonDecreasing(SepKeys(nodes[n].seps))
      requires INTERIOR_HEADER_SIZE + 14 * |nodes[n].seps| + 14 <= ps
      modifies this
      ensures Valid() && total == old(total)
      ensures IsUpperBound(SepKeys(old(nodes)[n].seps), e.key, idx)
      ensures nodes == old(nodes)[n := old(nodes)[n].(seps := Insert(old(nodes)[n].seps, idx, e))]
    {
      var child;
      child, idx := FindChild(n, e.key);
      var p := InsertSepBytes(ps, pages[n], idx, e, nodes[n]);
      Store(n, p, nodes[n].(seps := Insert(nodes[n].seps, idx, e)));
    }

    /** The single separator of a new root. */
    method SetRoot(n: nat, key: int, left: nat)
      requires Valid() && n in nodes && nodes[n].Interior? && nodes[n].seps == [] && IsI64(key) && left < U32_LIMIT
      modifies this
      ensures Valid() && total == old(total)
      ensures nodes == old(nodes)[n := Interior([Sep(left, key)], old(nodes)[n].right)]
    {
      hide Valid;
      Facts();
      var idx := InsertSep(n, Sep(left, key));
      assert Insert([], idx, Sep(left, key)) == [Sep(left, key)];
    }

    /** `replace_child_pointer`: point the child after the first separator equal to `key` at `page`.
        False is the "divider key not found" error. */
    method ReplaceChildPointer(n: nat, key: int, page: nat) returns (ok: bool, ghost idx: nat)
      requires Valid() && n in nodes && nodes[n].Interior? && page < U32_LIMIT
      modifies this
      ensures Valid() && total == old(total)
      ensures ok <==> key in SepKeys(old(nodes)[n].seps)
      ensures !ok ==> nodes == old(nodes)
      ensures ok ==> IsFirst(SepKeys(old(nodes)[n].seps), key, idx)
      ensures ok ==> nodes == old(nodes)[n := WithChild(old(nodes)[n], idx + 1, page)]
    {
      InteriorSlots(ps, pages[n], nodes[n]);
      var i;
      ok, i := FirstEqual(pages[n], INTERIOR_HEADER_SIZE, U16At(pages[n], 1), key, SepKeys(nodes[n].seps));
      idx := i;
      if ok {
        var p := SetChildBytes(ps, pages[n], i + 1, page, nodes[n]);
        Store(n, p, WithChild(nodes[n], idx + 1, page));
      }
    }

    /** One page of an overflow chain: next pointer, then a chunk, zero-padded when it is the last. */
    method WriteOverflow(n: nat, next: nat, chunk: seq<byte>)
      requires Valid() && n in nodes && next < U32_LIMIT && |chunk| <= ps - 4
      modifies this
      ensures Valid() && total == old(total)
      ensures n in nodes && nodes == old(nodes)[n := nodes[n]] && ChunkPage(ps, nodes[n], next, chunk)
    {
      var a := Thaw(pages[n]);
      WriteU32(a, 0, next);
      WriteBytes(a, 4, chunk);
      if next == 0 && |chunk| < ps - 4 {
        forall i | 4 + |chunk| <= i < a.Length {
          a[i] := 0;
        }
      }
      assert U32At(a[..], 0) == next by {
        U32RoundTrip(next);
        assert a[..][0..4] == Le(next, 4);
      }
      ghost var data := a[..][4..];
      assert chunk == data[..|chunk|];
      Store(n, a[..], Overflow(next, data));
    }

    method ReadOverflow(n: nat) returns (next: nat, data: seq<byte>)
      requires Valid() && n in nodes && nodes[n].Overflow?
      ensures nodes[n] == Overflow(next, data) && |data| == ps - 4
    {
      assert NodeRepr(ps, pages[n], nodes[n]);
      next, data := U32At(pages[n], 0), pages[n][4..];
    }
  }

  method WriteU32(a: array<byte>, off: nat, v: nat)
    requires off + 4 <= a.Length && v < U32_LIMIT
    modifies a
    ensures U32At(a[..], off) == v && a[..][off..off + 4] == Le(v, 4)
    ensures forall k :: 0 <= k < a.Length && !(off <= k < off + 4) ==> a[k] == old(a[k])
  {
    WriteBytes(a, off, Le(v, 4));
    HoldsSlice(a[..], off, Le(v, 4), 0, 4);
    assert Le(v, 4)[0..4] == Le(v, 4);
    U32RoundTrip(v);
  }

  function ChildAt(n: Node, i: nat): nat
    requires n.Interior? && i <= |n.seps|
  {
    if i < |n.seps| then n.seps[i].child else n.right
  }

  function WithChild(n: Node, i: nat, page: nat): Node
    requires n.Interior? && i <= |n.seps|
  {
    if i < |n.seps| then n.(seps := n.seps[i := Sep(page, n.seps[i].key)]) else n.(right := page)
  }

  function WithCell(n: Node, idx: nat, c: LeafCell): Node
    requires n.Leaf? && idx <= |n.cells| && CellSize(c) <= n.co
  {
    n.(cells := Insert(n.cells, idx, c), co := n.co - CellSize(c))
  }

  function WithLink(n: Node, isNext: bool, v: nat): Node
    requires n.Leaf?
  {
    if isNext then n.(next := v) else n.(prev := v)
  }

  function WithLinks(n: Node, next: nat, prev: nat): Node
    requires n.Leaf?
  {
    Leaf(n.cells, n.co, next, prev)
  }

  predicate IsFirst(ks: seq<int>, key: int, i: nat) {
    i < |ks| && ks[i] == key && forall j :: 0 <= j < i ==> ks[j] != key
  }

  /** Bytes 5 up to the pointer array are outside the slotted structure. */
  lemma SlottedFrame(p: seq<byte>, r: seq<byte>, base: nat, cells: seq<seq<byte>>, co: nat)
    requires Slotted(p, base, cells, co) && |r| == |p|
    requires forall k :: 0 <= k < |p| && !(5 <= k < base) ==> r[k] == p[k]
    ensures Slotted(r, base, cells, co)
  {
    forall i | 0 <= i < |cells|
      ensures SlotAt(r, base, i) == SlotAt(p, base, i) && CellAt(r, base, co, i, cells[i])
    {
      assert CellAt(p, base, co, i, cells[i]);
    }
    forall i, j | 0 <= i < j < |cells|
      ensures Apart(SlotAt(r, base, i), |cells[i]|, SlotAt(r, base, j), |cells[j]|)
    {
      assert Apart(SlotAt(p, base, i), |cells[i]|, SlotAt(p, base, j), |cells[j]|);
    }
  }

  /** Overwriting a separator's first four bytes replaces its child and keeps its key. */
  lemma PatchedSep(p: seq<byte>, r: seq<byte>, s: nat, e: Sep, page: nat)
    requires SepOk(e) && page < U32_LIMIT && |r| == |p| && Holds(p, s, EncSep(e))
    requires Holds(r, s, Le(page, 4)) && forall k :: 0 <= k < |p| && !(s <= k < s + 4) ==> r[k] == p[k]
    ensures Holds(r, s, EncSep(Sep(page, e.key)))
  {
    var b, b' := EncSep(e), EncSep(Sep(page, e.key));
    forall k | 0 <= k < 12 ensures r[s + k] == b'[k] {
      if k < 4 {
        assert b'[k] == Le(page, 4)[k];
      } else {
        assert b'[k] == b[k];
      }
    }
  }
}
