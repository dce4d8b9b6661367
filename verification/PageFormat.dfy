/** What the pages of the tree contain: leaf cells, separators and overflow
    chunks, and how each is laid out in bytes. */
module PageFormat {
  import opened Bytes
  import opened SlottedPage
  import opened Options

  const LEAF_TABLE: byte := 0x0D
  const INTERIOR_TABLE: byte := 0x05
  const LEAF_HEADER_SIZE := 14
  const INTERIOR_HEADER_SIZE := 10
  const OVERFLOW_FLAG := 0x8000_0000

  /** The page sizes the build accepts. */
  predicate PageSizeOk(ps: nat) {
    ps in {512, 1024, 2048, 4096, 8192, 16384, 32768, 65536}
  }

  function MaxInline(ps: nat): nat
    requires PageSizeOk(ps)
  {
    ps / 2 - 32
  }

  /** A leaf cell: the payload itself, or the length and first page of an overflow chain. */
  datatype LeafCell = Inline(key: int, payload: seq<byte>) | Stub(key: int, total: nat, first: nat)

  datatype Sep = Sep(child: nat, key: int)

  datatype Node =
    | Blank
    | Leaf(cells: seq<LeafCell>, co: nat, next: nat, prev: nat)
    | Interior(seps: seq<Sep>, right: nat)
    | Overflow(link: nat, data: seq<byte>)

  predicate CellOk(c: LeafCell) {
    && IsI64(c.key)
    && (c.Inline? ==> |c.payload| < OVERFLOW_FLAG)
    && (c.Stub? ==> c.total < U32_LIMIT && c.first < U32_LIMIT)
  }

  predicate SepOk(s: Sep) {
    IsI64(s.key) && s.child < U32_LIMIT
  }

  function CellSize(c: LeafCell): nat {
    if c.Inline? then 12 + |c.payload| else 20
  }

  /** Content bytes taken by a list of cells. */
  function CellBytes(cs: seq<LeafCell>): nat {
    if cs == [] then 0 else CellSize(cs[0]) + CellBytes(cs[1..])
  }

  lemma {:induction false} CellBytesConcat(a: seq<LeafCell>, b: seq<LeafCell>)
    ensures CellBytes(a + b) == CellBytes(a) + CellBytes(b)
  {
    if a == [] {
      assert a + b == b;
    } else {
      CellBytesConcat(a[1..], b);
      assert (a + b)[1..] == a[1..] + b;
    }
  }

  lemma {:induction false} CellBytesInsert(cs: seq<LeafCell>, k: nat, c: LeafCell)
    requires k <= |cs|
    ensures CellBytes(Insert(cs, k, c)) == CellBytes(cs) + CellSize(c)
  {
    hide CellSize;
    if k == 0 {
      assert Insert(cs, k, c)[1..] == cs;
    } else {
      CellBytesInsert(cs[1..], k - 1, c);
      assert Insert(cs, k, c)[1..] == Insert(cs[1..], k - 1, c);
    }
  }

  lemma CellBytesRemove(cs: seq<LeafCell>, k: nat)
    requires k < |cs|
    ensures CellBytes(Remove(cs, k)) == CellBytes(cs) - CellSize(cs[k])
  {
    CellBytesInsert(Remove(cs, k), k, cs[k]);
    assert Insert(Remove(cs, k), k, cs[k]) == cs;
  }

  /** `make_leaf_cell` / `make_overflow_cell`. */
  function EncCell(c: LeafCell): (b: seq<byte>)
    requires CellOk(c)
    ensures |b| == CellSize(c)
  {
    match c
    case Inline(key, payload) => Le(|payload|, 4) + LeI64(key) + payload
    case Stub(key, total, first) => Le(OVERFLOW_FLAG, 4) + LeI64(key) + Le(total, 4) + Le(first, 4)
  }

  function EncSep(s: Sep): (b: seq<byte>)
    requires SepOk(s)
    ensures |b| == 12
  {
    Le(s.child, 4) + LeI64(s.key)
  }

  function U32At(p: seq<byte>, off: nat): nat
    requires off + 4 <= |p|
  {
    FromLe(p[off..off + 4])
  }

  function KeyAt(p: seq<byte>, off: nat): int
    requires off + 12 <= |p|
  {
    FromLeI64(p[off + 4..off + 12])
  }

  /** Reading a cell at an offset, as every scan does; `None` is a corrupt-database error. */
  function DecodeCell(p: seq<byte>, s: nat): Option<LeafCell>
  {
    if s + 12 > |p| then None
    else
      var raw := U32At(p, s);
      if raw < OVERFLOW_FLAG then
        if s + 12 + raw > |p| then None else Some(Inline(KeyAt(p, s), p[s + 12..s + 12 + raw]))
      else
        if s + 20 > |p| then None else Some(Stub(KeyAt(p, s), U32At(p, s + 12), U32At(p, s + 16)))
  }

  /** The cell that slot `idx` of a leaf page leads to, whatever the page's cell count says. */
  function SlotCell(p: seq<byte>, idx: nat): Option<LeafCell>
  {
    if LEAF_HEADER_SIZE + 2 * idx + 2 > |p| then None else DecodeCell(p, SlotAt(p, LEAF_HEADER_SIZE, idx))
  }

  lemma HoldsSlice(p: seq<byte>, s: nat, c: seq<byte>, lo: nat, hi: nat)
    requires Holds(p, s, c) && lo <= hi <= |c|
    ensures p[s + lo..s + hi] == c[lo..hi]
  {
  }

  lemma HoldsKey(p: seq<byte>, s: nat, c: seq<byte>, key: int)
    requires Holds(p, s, c) && 12 <= |c| && IsI64(key) && c[4..12] == LeI64(key)
    ensures KeyAt(p, s) == key
  {
    HoldsSlice(p, s, c, 4, 12);
    I64RoundTrip(key);
  }

  lemma HoldsU32(p: seq<byte>, s: nat, c: seq<byte>, at: nat, v: nat)
    requires Holds(p, s, c) && at + 4 <= |c| && v < U32_LIMIT && c[at..at + 4] == Le(v, 4)
    ensures U32At(p, s + at) == v
  {
    HoldsSlice(p, s, c, at, at + 4);
    U32RoundTrip(v);
  }

  lemma EncCellFields(c: LeafCell)
    requires CellOk(c)
    ensures EncCell(c)[4..12] == LeI64(c.key)
    ensures EncCell(c)[0..4] == Le(if c.Inline? then |c.payload| else OVERFLOW_FLAG, 4)
    ensures c.Inline? ==> EncCell(c)[12..] == c.payload
    ensures c.Stub? ==> EncCell(c)[12..16] == Le(c.total, 4) && EncCell(c)[16..20] == Le(c.first, 4)
  {
  }

  /** A written cell reads back as itself from any place it is held, whatever surrounds it:
      the overflow flag never makes an inline cell look like a stub or the reverse. */
  lemma DecodeEncCell(p: seq<byte>, s: nat, c: LeafCell)
    requires CellOk(c) && Holds(p, s, EncCell(c))
    ensures DecodeCell(p, s) == Some(c)
  {
    hide FromLe, Le, LeI64, FromLeI64;
    var b := EncCell(c);
    EncCellFields(c);
    HoldsKey(p, s, b, c.key);
    HoldsU32(p, s, b, 0, if c.Inline? then |c.payload| else OVERFLOW_FLAG);
    if c.Inline? {
      HoldsSlice(p, s, b, 12, |b|);
      assert b[12..|b|] == b[12..];
    } else {
      HoldsU32(p, s, b, 12, c.total);
      HoldsU32(p, s, b, 16, c.first);
    }
  }

  lemma DecodeEncSep(p: seq<byte>, s: nat, e: Sep)
    requires SepOk(e) && Holds(p, s, EncSep(e))
    ensures s + 12 <= |p| && U32At(p, s) == e.child && KeyAt(p, s) == e.key
  {
    var b := EncSep(e);
    HoldsKey(p, s, b, e.key);
    HoldsU32(p, s, b, 0, e.child);
  }

  function EncCells(cs: seq<LeafCell>): (r: seq<seq<byte>>)
    requires forall c :: c in cs ==> CellOk(c)
    ensures |r| == |cs| && forall i :: 0 <= i < |cs| ==> r[i] == EncCell(cs[i])
  {
    seq(|cs|, i requires 0 <= i < |cs| => EncCell(cs[i]))
  }

  function EncSeps(es: seq<Sep>): (r: seq<seq<byte>>)
    requires forall e :: e in es ==> SepOk(e)
    ensures |r| == |es| && forall i :: 0 <= i < |es| ==> r[i] == EncSep(es[i])
  {
    seq(|es|, i requires 0 <= i < |es| => EncSep(es[i]))
  }

  lemma EncCellsInsert(cs: seq<LeafCell>, k: nat, c: LeafCell)
    requires (forall x :: x in cs ==> CellOk(x)) && CellOk(c) && k <= |cs|
    ensures forall x :: x in Insert(cs, k, c) ==> CellOk(x)
    ensures EncCells(Insert(cs, k, c)) == Insert(EncCells(cs), k, EncCell(c))
  {
  }

  lemma EncSepsInsert(es: seq<Sep>, k: nat, e: Sep)
    requires (forall x :: x in es ==> SepOk(x)) && SepOk(e) && k <= |es|
    ensures forall x :: x in Insert(es, k, e) ==> SepOk(x)
    ensures EncSeps(Insert(es, k, e)) == Insert(EncSeps(es), k, EncSep(e))
  {
  }

  /** The bytes `p` are a page holding `n`. */
  ghost predicate NodeRepr(ps: nat, p: seq<byte>, n: Node) {
    && |p| == ps
    && match n
       case Blank => true
       case Leaf(cells, co, next, prev) =>
         && LEAF_HEADER_SIZE <= ps && p[0] == LEAF_TABLE
         && (forall c :: c in cells ==> CellOk(c))
         && Slotted(p, LEAF_HEADER_SIZE, EncCells(cells), co)
         && U32At(p, 6) == next && U32At(p, 10) == prev
         && co + CellBytes(cells) <= ps
       case Interior(seps, right) =>
         && INTERIOR_HEADER_SIZE + 14 * |seps| <= ps && p[0] == INTERIOR_TABLE
         && (forall e :: e in seps ==> SepOk(e))
         && Slotted(p, INTERIOR_HEADER_SIZE, EncSeps(seps), ps - 12 * |seps|)
         && U32At(p, 6) == right
       case Overflow(link, data) =>
         && 4 <= ps && U32At(p, 0) == link && p[4..] == data
  }

  /** An overflow page that links to `link` and starts with `chunk`. */
  ghost predicate ChunkPage(ps: nat, n: Node, link: nat, chunk: seq<byte>) {
    n.Overflow? && n.link == link && |n.data| == ps - 4 && chunk <= n.data
  }

  /** A page's bytes determine its leaf contents, so the slotted layout loses nothing. */
  lemma LeafBytesDetermineCells(ps: nat, p: seq<byte>, m: Node, n: Node)
    requires m.Leaf? && n.Leaf? && NodeRepr(ps, p, m) && NodeRepr(ps, p, n)
    ensures m == n
  {
    forall i | 0 <= i < |m.cells| ensures m.cells[i] == n.cells[i] {
      assert CellAt(p, LEAF_HEADER_SIZE, m.co, i, EncCells(m.cells)[i]);
      assert CellAt(p, LEAF_HEADER_SIZE, n.co, i, EncCells(n.cells)[i]);
      assert m.cells[i] in m.cells && n.cells[i] in n.cells;
      DecodeEncCell(p, SlotAt(p, LEAF_HEADER_SIZE, i), m.cells[i]);
      DecodeEncCell(p, SlotAt(p, LEAF_HEADER_SIZE, i), n.cells[i]);
    }
  }
}
