/** A slotted page as raw bytes: a header, a pointer array growing up and cell
    content growing down.  Leaf pages (pointer array at 14) and interior pages
    (pointer array at 10) share the layout, so both share these operations. */
module SlottedPage {
  import opened Bytes

  /** Offsets are stored as `u16`; 65536 is stored as 0. */
  function OffToU16(off: nat): (v: nat)
    requires 0 < off <= U16_LIMIT
    ensures v < U16_LIMIT && U16ToOff(v) == off
  {
    if off == U16_LIMIT then 0 else off
  }

  function U16ToOff(v: nat): nat
  {
    if v == 0 then U16_LIMIT else v
  }

  function U16At(p: seq<byte>, off: nat): (v: nat)
    requires off + 2 <= |p|
    ensures v < U16_LIMIT
  {
    p[off] as int + 256 * (p[off + 1] as int)
  }

  function SlotAt(p: seq<byte>, base: nat, i: nat): nat
    requires base + 2 * i + 2 <= |p|
  {
    U16At(p, base + 2 * i)
  }

  /** `p` holds the bytes `c` at offset `s`. */
  ghost predicate Holds(p: seq<byte>, s: nat, c: seq<byte>) {
    s + |c| <= |p| && forall k :: 0 <= k < |c| ==> p[s + k] == c[k]
  }

  ghost predicate CellAt(p: seq<byte>, base: nat, co: nat, i: nat, c: seq<byte>)
    requires base + 2 * i + 2 <= |p|
  {
    co <= SlotAt(p, base, i) && Holds(p, SlotAt(p, base, i), c)
  }

  ghost predicate Apart(s: nat, m: nat, t: nat, n: nat) {
    s + m <= t || t + n <= s
  }

  /** The bytes `p` hold exactly the raw cells `cells`, in pointer order, with the
      content area starting at `co`; header, pointers and cells do not overlap. */
  ghost predicate Slotted(p: seq<byte>, base: nat, cells: seq<seq<byte>>, co: nat)
  {
    && 6 <= base && base + 2 * |cells| <= co <= |p| <= U16_LIMIT
    && U16At(p, 1) == |cells|
    && U16ToOff(U16At(p, 3)) == co
    && (forall i :: 0 <= i < |cells| ==> CellAt(p, base, co, i, cells[i]))
    && (forall i, j :: 0 <= i < j < |cells| ==>
          Apart(SlotAt(p, base, i), |cells[i]|, SlotAt(p, base, j), |cells[j]|))
  }

  function Insert<T>(s: seq<T>, k: nat, x: T): (r: seq<T>)
    requires k <= |s|
    ensures |r| == |s| + 1 && r[k] == x
    ensures forall j :: 0 <= j < k ==> r[j] == s[j]
    ensures forall j :: k < j < |r| ==> r[j] == s[j - 1]
  {
    s[..k] + [x] + s[k..]
  }

  function Remove<T>(s: seq<T>, k: nat): (r: seq<T>)
    requires k < |s|
    ensures |r| == |s| - 1
    ensures forall j :: 0 <= j < k ==> r[j] == s[j]
    ensures forall j :: k <= j < |r| ==> r[j] == s[j + 1]
  {
    s[..k] + s[k + 1..]
  }

  // ---- byte editing ----

  method WriteU16(a: array<byte>, off: nat, v: nat)
    requires off + 2 <= a.Length && v < U16_LIMIT
    modifies a
    ensures U16At(a[..], off) == v
    ensures forall k :: 0 <= k < a.Length && k != off && k != off + 1 ==> a[k] == old(a[k])
  {
    a[off] := v % 256;
    a[off + 1] := v / 256;
  }

  method WriteBytes(a: array<byte>, off: nat, b: seq<byte>)
    requires off + |b| <= a.Length
    modifies a
    ensures Holds(a[..], off, b)
    ensures forall k :: 0 <= k < a.Length && !(off <= k < off + |b|) ==> a[k] == old(a[k])
  {
    forall i | 0 <= i < |b| {
      a[off + i] := b[i];
    }
  }

  method ShiftPointersRight(a: array<byte>, base: nat, idx: nat, count: nat)
    requires idx <= count && base + 2 * count + 2 <= a.Length
    modifies a
    ensures forall k :: 0 <= k < a.Length ==>
              a[k] == if base + 2 * idx + 2 <= k < base + 2 * count + 2 then old(a[k - 2]) else old(a[k])
  {
    var i := count;
    while i > idx
      invariant idx <= i <= count
      invariant forall k :: 0 <= k < a.Length ==>
                  a[k] == if base + 2 * i + 2 <= k < base + 2 * count + 2 then old(a[k - 2]) else old(a[k])
    {
      i := i - 1;
      var src := base + 2 * i;
      var v := U16At(a[..], src);
      a[src + 2] := v % 256;
      a[src + 3] := v / 256;
    }
  }

  method ShiftPointersLeft(a: array<byte>, base: nat, idx: nat, count: nat)
    requires idx < count && base + 2 * count <= a.Length
    modifies a
    ensures forall k :: 0 <= k < a.Length ==>
              a[k] == if base + 2 * idx <= k < base + 2 * count - 2 then old(a[k + 2]) else old(a[k])
  {
    var i := idx;
    while i < count - 1
      invariant idx <= i <= count - 1
      invariant forall k :: 0 <= k < a.Length ==>
                  a[k] == if base + 2 * idx <= k < base + 2 * i then old(a[k + 2]) else old(a[k])
    {
      var dst := base + 2 * i;
      var v := U16At(a[..], dst + 2);
      a[dst] := v % 256;
      a[dst + 1] := v / 256;
      i := i + 1;
    }
  }

  // ---- adding a cell ----

  /** `r` is `p` after writing `c` just below `co`, opening slot `idx` and updating the header. */
  ghost predicate Added(p: seq<byte>, r: seq<byte>, base: nat, c: seq<byte>, idx: nat, count: nat, co: nat)
    requires idx <= count && 6 <= base && base + 2 * count + 2 + |c| <= co <= |p|
  {
    && |r| == |p|
    && U16At(r, 1) == count + 1
    && U16ToOff(U16At(r, 3)) == co - |c|
    && U16At(r, base + 2 * idx) == co - |c|
    && (forall k :: base + 2 * idx + 2 <= k < base + 2 * count + 2 ==> r[k] == p[k - 2])
    && Holds(r, co - |c|, c)
    && (forall k | 0 <= k < |p| && !(1 <= k < 5) && !(base + 2 * idx <= k < base + 2 * count + 2)
                   && !(co - |c| <= k < co) :: r[k] == p[k])
  }

  lemma AddedCell(p: seq<byte>, r: seq<byte>, base: nat, cells: seq<seq<byte>>, co: nat, c: seq<byte>, idx: nat, j: nat)
    requires Slotted(p, base, cells, co)
    requires idx <= |cells| && 0 < |c| && base + 2 * |cells| + 2 + |c| <= co && j <= |cells|
    requires Added(p, r, base, c, idx, |cells|, co)
    ensures SlotAt(r, base, j) ==
            if j < idx then SlotAt(p, base, j) else if j == idx then co - |c| else SlotAt(p, base, j - 1)
    ensures CellAt(r, base, co - |c|, j, Insert(cells, idx, c)[j])
  {
    if j != idx {
      var i := if j < idx then j else j - 1;
      var at := base + 2 * j;
      assert r[at] == p[base + 2 * i] && r[at + 1] == p[base + 2 * i + 1];
      assert CellAt(p, base, co, i, cells[i]);
    }
  }

  /** When the free-space test passes, the page holds the old cells with `c` inserted at `idx`. */
  lemma AddedIsSlotted(p: seq<byte>, r: seq<byte>, base: nat, cells: seq<seq<byte>>, co: nat, c: seq<byte>, idx: nat)
    requires Slotted(p, base, cells, co)
    requires idx <= |cells| && 0 < |c| && base + 2 * |cells| + 2 + |c| <= co
    requires Added(p, r, base, c, idx, |cells|, co)
    ensures Slotted(r, base, Insert(cells, idx, c), co - |c|)
  {
    var cells' := Insert(cells, idx, c);
    forall j | 0 <= j < |cells'| ensures CellAt(r, base, co - |c|, j, cells'[j]) {
      AddedCell(p, r, base, cells, co, c, idx, j);
    }
    forall i, j | 0 <= i < j < |cells'|
      ensures Apart(SlotAt(r, base, i), |cells'[i]|, SlotAt(r, base, j), |cells'[j]|)
    {
      AddedCell(p, r, base, cells, co, c, idx, i);
      AddedCell(p, r, base, cells, co, c, idx, j);
      if i != idx && j != idx {
        var i' := if i < idx then i else i - 1;
        var j' := if j < idx then j else j - 1;
        assert Apart(SlotAt(p, base, i'), |cells[i']|, SlotAt(p, base, j'), |cells[j']|);
      } else {
        var o := if i == idx then j - 1 else i;
        assert CellAt(p, base, co, o, cells[o]);
      }
    }
  }

  /** `write_cell_to_leaf` and the tail of `insert_interior_cell`. */
  method WriteCell(a: array<byte>, base: nat, c: seq<byte>, idx: nat, ghost cells: seq<seq<byte>>, ghost co: nat)
    requires Slotted(a[..], base, cells, co)
    requires idx <= |cells| && 0 < |c| && base + 2 * |cells| + 2 + |c| <= co
    modifies a
    ensures Slotted(a[..], base, Insert(cells, idx, c), co - |c|)
    ensures a[0] == old(a[0])
    ensures forall k :: 5 <= k < base ==> a[k] == old(a[k])
  {
    ghost var p := a[..];
    var count := U16At(a[..], 1);
    var newOffset := U16ToOff(U16At(a[..], 3)) - |c|;
    WriteBytes(a, newOffset, c);
    ShiftPointersRight(a, base, idx, count);
    WriteU16(a, base + 2 * idx, newOffset);
    WriteU16(a, 1, count + 1);
    WriteU16(a, 3, newOffset);
    AddedIsSlotted(p, a[..], base, cells, co, c, idx);
  }

  // ---- removing a cell ----

  /** Deletion drops one pointer and leaves `co` and all content bytes alone. */
  lemma RemovedIsSlotted(p: seq<byte>, r: seq<byte>, base: nat, cells: seq<seq<byte>>, co: nat, idx: nat)
    requires Slotted(p, base, cells, co) && idx < |cells| && |r| == |p|
    requires U16At(r, 1) == |cells| - 1
    requires forall k :: base + 2 * idx <= k < base + 2 * |cells| - 2 ==> r[k] == p[k + 2]
    requires forall k :: 0 <= k < |p| && k != 1 && k != 2 && !(base + 2 * idx <= k < base + 2 * |cells| - 2) ==>
      r[k] == p[k]
    ensures Slotted(r, base, Remove(cells, idx), co)
  {
    var cells' := Remove(cells, idx);
    forall j | 0 <= j < |cells'|
      ensures SlotAt(r, base, j) == SlotAt(p, base, if j < idx then j else j + 1)
      ensures CellAt(r, base, co, j, cells'[j])
    {
      var i := if j < idx then j else j + 1;
      assert r[base + 2 * j] == p[base + 2 * i] && r[base + 2 * j + 1] == p[base + 2 * i + 1];
      assert CellAt(p, base, co, i, cells[i]);
    }
    forall i, j | 0 <= i < j < |cells'|
      ensures Apart(SlotAt(r, base, i), |cells'[i]|, SlotAt(r, base, j), |cells'[j]|)
    {
      var i' := if i < idx then i else i + 1;
      var j' := if j < idx then j else j + 1;
      assert Apart(SlotAt(p, base, i'), |cells[i']|, SlotAt(p, base, j'), |cells[j']|);
    }
  }

  method RemoveCell(a: array<byte>, base: nat, idx: nat, ghost cells: seq<seq<byte>>, ghost co: nat)
    requires Slotted(a[..], base, cells, co) && idx < |cells|
    modifies a
    ensures Slotted(a[..], base, Remove(cells, idx), co)
    ensures a[0] == old(a[0])
    ensures forall k :: 5 <= k < base ==> a[k] == old(a[k])
    ensures |cells| == 1 ==> forall k :: 3 <= k < a.Length ==> a[k] == old(a[k])
  {
    ghost var p := a[..];
    var count := U16At(a[..], 1);
    ShiftPointersLeft(a, base, idx, count);
    WriteU16(a, 1, count - 1);
    RemovedIsSlotted(p, a[..], base, cells, co, idx);
  }

  // ---- overwriting inside a cell ----

  /** Rewriting the first bytes of one cell changes that cell and no other. */
  lemma PatchedIsSlotted(p: seq<byte>, r: seq<byte>, base: nat, cells: seq<seq<byte>>, co: nat, idx: nat, c: seq<byte>)
    requires Slotted(p, base, cells, co) && idx < |cells| && |c| == |cells[idx]| && |r| == |p|
    requires Holds(r, SlotAt(p, base, idx), c)
    requires forall k :: 0 <= k < |p| && !(SlotAt(p, base, idx) <= k < SlotAt(p, base, idx) + |c|) ==> r[k] == p[k]
    ensures Slotted(r, base, cells[idx := c], co)
  {
    var cells' := cells[idx := c];
    assert CellAt(p, base, co, idx, cells[idx]);
    forall j | 0 <= j < |cells|
      ensures SlotAt(r, base, j) == SlotAt(p, base, j) && CellAt(r, base, co, j, cells'[j])
    {
      assert CellAt(p, base, co, j, cells[j]);
      if j < idx {
        assert Apart(SlotAt(p, base, j), |cells[j]|, SlotAt(p, base, idx), |cells[idx]|);
      } else if idx < j {
        assert Apart(SlotAt(p, base, idx), |cells[idx]|, SlotAt(p, base, j), |cells[j]|);
      }
    }
    forall i, j | 0 <= i < j < |cells|
      ensures Apart(SlotAt(r, base, i), |cells'[i]|, SlotAt(r, base, j), |cells'[j]|)
    {
      assert Apart(SlotAt(p, base, i), |cells[i]|, SlotAt(p, base, j), |cells[j]|);
    }
  }

  /** The relation is functional: bytes determine the cells, once cell lengths are read off the bytes. */
  lemma SlottedCellsUnique(p: seq<byte>, base: nat, cs: seq<seq<byte>>, ds: seq<seq<byte>>, co: nat, co': nat)
    requires Slotted(p, base, cs, co) && Slotted(p, base, ds, co')
    requires forall i :: 0 <= i < |cs| && i < |ds| ==> |cs[i]| == |ds[i]|
    ensures cs == ds && co == co'
  {
    forall i | 0 <= i < |cs| ensures cs[i] == ds[i] {
      assert CellAt(p, base, co, i, cs[i]) && CellAt(p, base, co', i, ds[i]);
      assert forall k :: 0 <= k < |cs[i]| ==> cs[i][k] == ds[i][k];
    }
  }
}
