/** The tree as a value: what a set of pages represents, and how replacing one
    child by one or two trees, or cutting a node in two, changes it. */
module TreeSpec {
  import opened Bytes
  import opened SlottedPage
  import opened PageFormat
  import opened PageStore

  /** A stored row; `chain` lists the overflow pages of a long payload. */
  datatype Row = Row(key: int, payload: seq<byte>, chain: seq<nat>)

  datatype Tree = LeafT(page: nat, rows: seq<Row>) | NodeT(page: nat, keys: seq<int>, kids: seq<Tree>)

  // ---- contents ----

  ghost function Rows(t: Tree): seq<Row>
    decreases t
  {
    match t
    case LeafT(_, rows) => rows
    case NodeT(_, _, kids) => RowsOf(kids)
  }

  ghost function RowsOf(kids: seq<Tree>): seq<Row>
    decreases kids
  {
    if kids == [] then [] else Rows(kids[0]) + RowsOf(kids[1..])
  }

  /** Leaf pages from left to right. */
  ghost function Leaves(t: Tree): seq<nat>
    decreases t
  {
    match t
    case LeafT(page, _) => [page]
    case NodeT(_, _, kids) => LeavesOf(kids)
  }

  ghost function LeavesOf(kids: seq<Tree>): seq<nat>
    decreases kids
  {
    if kids == [] then [] else Leaves(kids[0]) + LeavesOf(kids[1..])
  }

  ghost predicate NoEmptyLeaf(t: Tree)
    decreases t
  {
    match t
    case LeafT(_, rows) => rows != []
    case NodeT(_, _, kids) => kids != [] && forall i :: 0 <= i < |kids| ==> NoEmptyLeaf(kids[i])
  }

  ghost predicate NoEmptyLeaves(ts: seq<Tree>) { forall i :: 0 <= i < |ts| ==> NoEmptyLeaf(ts[i]) }

  lemma {:induction false} RowsOfConcat(a: seq<Tree>, b: seq<Tree>)
    ensures RowsOf(a + b) == RowsOf(a) + RowsOf(b)
  {
    hide Rows;
    if a == [] {
      assert a + b == b;
    } else {
      RowsOfConcat(a[1..], b);
      assert (a + b)[1..] == a[1..] + b && (a + b)[0] == a[0];
      var x, y, z := Rows(a[0]), RowsOf(a[1..]), RowsOf(b);
      assert x + (y + z) == (x + y) + z;
    }
  }

  lemma RowsOfSplit(kids: seq<Tree>, i: nat)
    requires i < |kids|
    ensures RowsOf(kids) == RowsOf(kids[..i]) + (Rows(kids[i]) + RowsOf(kids[i + 1..]))
  {
    hide Rows, RowsOf;
    RowsOfConcat(kids[..i], kids[i..]);
    assert kids[..i] + kids[i..] == kids;
    RowsOfHead(kids[i..]);
    assert kids[i..][1..] == kids[i + 1..];
  }

  lemma RowsOfHead(kids: seq<Tree>)
    requires kids != []
    ensures RowsOf(kids) == Rows(kids[0]) + RowsOf(kids[1..])
  {
  }

  lemma {:induction false} LeavesOfConcat(a: seq<Tree>, b: seq<Tree>)
    ensures LeavesOf(a + b) == LeavesOf(a) + LeavesOf(b)
  {
    hide Leaves;
    if a == [] {
      assert a + b == b;
    } else {
      LeavesOfConcat(a[1..], b);
      assert (a + b)[1..] == a[1..] + b && (a + b)[0] == a[0];
      var x, y, z := Leaves(a[0]), LeavesOf(a[1..]), LeavesOf(b);
      assert x + (y + z) == (x + y) + z;
    }
  }

  lemma LeavesOfSplit(kids: seq<Tree>, i: nat)
    requires i < |kids|
    ensures LeavesOf(kids) == LeavesOf(kids[..i]) + (Leaves(kids[i]) + LeavesOf(kids[i + 1..]))
  {
    hide Leaves, LeavesOf;
    LeavesOfConcat(kids[..i], kids[i..]);
    assert kids[..i] + kids[i..] == kids;
    LeavesOfHead(kids[i..]);
    assert kids[i..][1..] == kids[i + 1..];
  }

  lemma LeavesOfHead(kids: seq<Tree>)
    requires kids != []
    ensures LeavesOf(kids) == Leaves(kids[0]) + LeavesOf(kids[1..])
  {
  }

  // ---- pages used ----

  ghost function ChainPages(rows: seq<Row>): set<nat> {
    set i, p | 0 <= i < |rows| && p in rows[i].chain :: p
  }

  ghost function Foot(t: Tree): set<nat>
    decreases t
  {
    match t
    case LeafT(page, rows) => {page} + ChainPages(rows)
    case NodeT(page, _, kids) => {page} + FootOf(kids)
  }

  ghost function FootOf(kids: seq<Tree>): set<nat>
    decreases kids, 0
  {
    set i, p | 0 <= i < |kids| && p in Foot(kids[i]) :: p
  }

  ghost predicate NoDup(s: seq<nat>) {
    forall i, j :: 0 <= i < j < |s| ==> s[i] != s[j]
  }

  ghost predicate Disjoint(a: seq<nat>, b: seq<nat>) {
    forall x :: x in a ==> x !in b
  }

  /** No page is used twice inside the tree. */
  ghost predicate Separate(t: Tree)
    decreases t
  {
    match t
    case LeafT(page, rows) =>
      && (forall i :: 0 <= i < |rows| ==> page !in rows[i].chain && NoDup(rows[i].chain))
      && (forall i, j :: 0 <= i < j < |rows| ==> Disjoint(rows[i].chain, rows[j].chain))
    case NodeT(page, _, kids) => page !in FootOf(kids) && SeparateOf(kids)
  }

  ghost predicate SeparateOf(kids: seq<Tree>)
    decreases kids, 0
  {
    && (forall i :: 0 <= i < |kids| ==> Separate(kids[i]))
    && (forall i, j :: 0 <= i < j < |kids| ==> Foot(kids[i]) !! Foot(kids[j]))
  }

  // ---- order and shape ----

  ghost function RowKeys(rows: seq<Row>): (ks: seq<int>)
    ensures |ks| == |rows| && forall i :: 0 <= i < |rows| ==> ks[i] == rows[i].key
  {
    seq(|rows|, i requires 0 <= i < |rows| => rows[i].key)
  }

  function LowOf(keys: seq<int>, lo: int, i: nat): int
    requires i <= |keys|
  {
    if i == 0 then lo else keys[i - 1]
  }

  function HighOf(keys: seq<int>, hi: int, i: nat): int
    requires i <= |keys|
  {
    if i < |keys| then keys[i] else hi
  }

  /** A search tree of height `h` over `lo <= key < hi`, all leaves at depth `h`. */
  ghost predicate Ordered(t: Tree, lo: int, hi: int, h: nat)
    decreases t
  {
    match t
    case LeafT(_, rows) =>
      h == 0 && Increasing(RowKeys(rows)) && forall i :: 0 <= i < |rows| ==> lo <= rows[i].key < hi
    case NodeT(_, keys, kids) =>
      h > 0 && OrderedOf(keys, kids, lo, hi, h - 1)
  }

  ghost predicate OrderedOf(keys: seq<int>, kids: seq<Tree>, lo: int, hi: int, h: nat)
    decreases kids, 0
  {
    && |kids| == |keys| + 1
    && Increasing(keys)
    && (forall i :: 0 <= i < |keys| ==> lo < keys[i] < hi && IsI64(keys[i]))
    && (forall i :: 0 <= i < |kids| ==> Ordered(kids[i], LowOf(keys, lo, i), HighOf(keys, hi, i), h))
  }

  // ---- representation by pages ----

  /** `payload.chunks(d)`. */
  ghost function Chunks(payload: seq<byte>, d: nat): (cs: seq<seq<byte>>)
    requires d > 0
    ensures |cs| > 0
    decreases |payload|
  {
    if |payload| <= d then [payload] else [payload[..d]] + Chunks(payload[d..], d)
  }

  ghost predicate ChainRepr(ps: nat, nodes: map<nat, Node>, chain: seq<nat>, chunks: seq<seq<byte>>) {
    && |chain| == |chunks|
    && forall i :: 0 <= i < |chain| ==>
         chain[i] in nodes && ChunkPage(ps, nodes[chain[i]], if i + 1 < |chain| then chain[i + 1] else 0, chunks[i])
  }

  /** Long payloads, and only those, live in an overflow chain. */
  ghost predicate RowRepr(ps: nat, nodes: map<nat, Node>, r: Row)
    requires PageSizeOk(ps)
  {
    && IsI64(r.key) && |r.payload| < U32_LIMIT
    && if |r.payload| <= MaxInline(ps) then r.chain == [] else ChainRepr(ps, nodes, r.chain, Chunks(r.payload, ps - 4))
  }

  ghost function LinkAfter(chain: seq<nat>, i: nat): nat {
    if i + 1 < |chain| then chain[i + 1] else 0
  }

  lemma ChainPage(ps: nat, nodes: map<nat, Node>, chain: seq<nat>, chunks: seq<seq<byte>>, i: nat)
    requires ChainRepr(ps, nodes, chain, chunks) && i < |chain|
    ensures i < |chunks| && chain[i] in nodes && ChunkPage(ps, nodes[chain[i]], LinkAfter(chain, i), chunks[i])
  {
  }

  /** A row stays represented when its chain pages are untouched. */
  lemma RowReprFrame(ps: nat, nodes: map<nat, Node>, nodes': map<nat, Node>, row: Row)
    requires PageSizeOk(ps) && RowRepr(ps, nodes, row)
    requires forall p :: p in row.chain ==> p in nodes' && nodes'[p] == nodes[p]
    ensures RowRepr(ps, nodes', row)
  {
  }

  /** Chain pages hold overflow data, so they are not leaves of any list, nor this leaf's page. */
  lemma ChainNotLeaf(ps: nat, nodes: map<nat, Node>, row: Row, p: nat)
    requires PageSizeOk(ps) && RowRepr(ps, nodes, row) && p in row.chain
    ensures p in nodes && nodes[p].Overflow?
  {
    var i :| 0 <= i < |row.chain| && row.chain[i] == p;
    ChainPage(ps, nodes, row.chain, Chunks(row.payload, ps - 4), i);
  }

  ghost function CellOf(r: Row): LeafCell {
    if r.chain == [] then Inline(r.key, r.payload) else Stub(r.key, |r.payload|, r.chain[0])
  }

  ghost function CellsOf(rows: seq<Row>): (cs: seq<LeafCell>)
    ensures |cs| == |rows| && forall i :: 0 <= i < |rows| ==> cs[i] == CellOf(rows[i])
  {
    seq(|rows|, i requires 0 <= i < |rows| => CellOf(rows[i]))
  }

  ghost function SepsOf(keys: seq<int>, kids: seq<Tree>): (es: seq<Sep>)
    requires |kids| == |keys| + 1
    ensures |es| == |keys| && forall i :: 0 <= i < |keys| ==> es[i] == Sep(kids[i].page, keys[i])
  {
    seq(|keys|, i requires 0 <= i < |keys| => Sep(kids[i].page, keys[i]))
  }

  ghost predicate Repr(ps: nat, nodes: map<nat, Node>, t: Tree)
    requires PageSizeOk(ps)
    decreases t
  {
    && t.page in nodes
    && match t
       case LeafT(page, rows) =>
         && nodes[page].Leaf? && nodes[page].cells == CellsOf(rows)
         && (forall i :: 0 <= i < |rows| ==> RowRepr(ps, nodes, rows[i]))
       case NodeT(page, keys, kids) =>
         && |kids| == |keys| + 1
         && nodes[page] == Interior(SepsOf(keys, kids), kids[|keys|].page)
         && ReprOf(ps, nodes, kids)
  }

  ghost predicate ReprOf(ps: nat, nodes: map<nat, Node>, kids: seq<Tree>)
    requires PageSizeOk(ps)
    decreases kids, 0
  {
    forall i :: 0 <= i < |kids| ==> Repr(ps, nodes, kids[i])
  }

  /** Two pages agree in everything but a leaf's link fields. */
  ghost predicate SameContent(m: Node, n: Node) {
    m == n || (m.Leaf? && n.Leaf? && m.cells == n.cells && m.co == n.co)
  }

  ghost predicate Kept(nodes: map<nat, Node>, nodes': map<nat, Node>, s: set<nat>) {
    forall p :: p in s && p in nodes ==> p in nodes' && SameContent(nodes[p], nodes'[p])
  }

  lemma {:induction false} ReprFoot(ps: nat, nodes: map<nat, Node>, t: Tree)
    requires PageSizeOk(ps) && Repr(ps, nodes, t)
    ensures Foot(t) <= nodes.Keys
    decreases t
  {
    if t.NodeT? {
      forall i | 0 <= i < |t.kids| ensures Foot(t.kids[i]) <= nodes.Keys {
        ReprFoot(ps, nodes, t.kids[i]);
      }
    } else {
      forall i, p | 0 <= i < |t.rows| && p in t.rows[i].chain ensures p in nodes {
        assert RowRepr(ps, nodes, t.rows[i]);
      }
    }
  }

  /** A tree is unaffected by changes outside its pages and by re-linking its leaves. */
  lemma {:induction false} ReprFrame(ps: nat, nodes: map<nat, Node>, nodes': map<nat, Node>, t: Tree)
    requires PageSizeOk(ps) && Repr(ps, nodes, t) && Kept(nodes, nodes', Foot(t))
    ensures Repr(ps, nodes', t)
    decreases t
  {
    hide RowRepr, CellsOf;
    assert t.page in Foot(t);
    if t.NodeT? {
      forall i | 0 <= i < |t.kids| ensures Repr(ps, nodes', t.kids[i]) {
        assert forall p :: p in Foot(t.kids[i]) ==> p in FootOf(t.kids);
        ReprFrame(ps, nodes, nodes', t.kids[i]);
      }
    } else {
      forall i | 0 <= i < |t.rows| ensures RowRepr(ps, nodes', t.rows[i]) {
        forall p | p in t.rows[i].chain ensures p in nodes && p in nodes' && nodes'[p] == nodes[p] {
          ChainNotLeaf(ps, nodes, t.rows[i], p);
          assert p in ChainPages(t.rows);
        }
        RowReprFrame(ps, nodes, nodes', t.rows[i]);
      }
    }
  }

  // ---- linked leaves ----

  ghost predicate LinkOk(nodes: map<nat, Node>, ls: seq<nat>, i: nat)
    requires i < |ls|
  {
    && ls[i] in nodes && nodes[ls[i]].Leaf?
    && nodes[ls[i]].next == (if i + 1 < |ls| then ls[i + 1] else 0)
    && nodes[ls[i]].prev == (if i > 0 then ls[i - 1] else 0)
  }

  /** The pages `ls` are leaves chained by `next` and `prev` in exactly this order. */
  ghost predicate Linked(nodes: map<nat, Node>, ls: seq<nat>) {
    NoDup(ls) && forall i :: 0 <= i < |ls| ==> LinkOk(nodes, ls, i)
  }

  // ---- replacing one child by one or two trees ----

  function SpliceKids(s: seq<Tree>, i: nat, ts: seq<Tree>): (r: seq<Tree>)
    requires i < |s|
    ensures |r| == |s| + |ts| - 1
    ensures forall a :: 0 <= a < |r| ==>
              r[a] == if a < i then s[a] else if a < i + |ts| then ts[a - i] else s[a - |ts| + 1]
  {
    s[..i] + ts + s[i + 1..]
  }

  function SpliceKeys(s: seq<int>, i: nat, ks: seq<int>): (r: seq<int>)
    requires i <= |s|
    ensures |r| == |s| + |ks|
    ensures forall a :: 0 <= a < |r| ==>
              r[a] == if a < i then s[a] else if a < i + |ks| then ks[a - i] else s[a - |ks|]
  {
    s[..i] + ks + s[i..]
  }

  /** Child `i` may be replaced by any ordered run of trees over its own interval. */
  lemma OrderedSplice(keys: seq<int>, kids: seq<Tree>, lo: int, hi: int, h: nat, i: nat, ks: seq<int>, ts: seq<Tree>)
    requires OrderedOf(keys, kids, lo, hi, h) && i < |kids|
    requires OrderedOf(ks, ts, LowOf(keys, lo, i), HighOf(keys, hi, i), h)
    ensures OrderedOf(SpliceKeys(keys, i, ks), SpliceKids(kids, i, ts), lo, hi, h)
  {
    hide Ordered, LowOf, HighOf;
    var keys', kids' := SpliceKeys(keys, i, ks), SpliceKids(kids, i, ts);
    forall a, b | 0 <= a < b < |keys'| ensures keys'[a] < keys'[b] {
      SpliceKeysBelow(keys, lo, hi, i, ks, a, b);
    }
    forall a | 0 <= a < |keys'| ensures lo < keys'[a] < hi && IsI64(keys'[a]) {
      SpliceKeysWithin(keys, lo, hi, i, ks, a);
    }
    forall a | 0 <= a < |kids'|
      ensures Ordered(kids'[a], LowOf(keys', lo, a), HighOf(keys', hi, a), h)
    {
      OrderedSpliceKid(keys, kids, lo, hi, h, i, ks, ts, a);
    }
  }

  lemma OrderedSpliceKid(
      keys: seq<int>, kids: seq<Tree>, lo: int, hi: int, h: nat, i: nat, ks: seq<int>, ts: seq<Tree>, a: nat)
    requires OrderedOf(keys, kids, lo, hi, h) && i < |kids| && a < |kids| + |ks|
    requires OrderedOf(ks, ts, LowOf(keys, lo, i), HighOf(keys, hi, i), h)
    ensures var keys' := SpliceKeys(keys, i, ks);
            Ordered(SpliceKids(kids, i, ts)[a], LowOf(keys', lo, a), HighOf(keys', hi, a), h)
  {
    hide Ordered, SpliceKids, SpliceKeys;
    SplicedKid(kids, i, ts, a);
    SplicedBounds(keys, lo, hi, i, ks, a);
    if a < i {
      assert Ordered(kids[a], LowOf(keys, lo, a), HighOf(keys, hi, a), h);
    } else if a <= i + |ks| {
      assert Ordered(ts[a - i], LowOf(ks, LowOf(keys, lo, i), a - i), HighOf(ks, HighOf(keys, hi, i), a - i), h);
    } else {
      assert Ordered(kids[a - |ks|], LowOf(keys, lo, a - |ks|), HighOf(keys, hi, a - |ks|), h);
    }
  }

  lemma SplicedKid(kids: seq<Tree>, i: nat, ts: seq<Tree>, a: nat)
    requires i < |kids| && ts != [] && a < |kids| + |ts| - 1
    ensures |SpliceKids(kids, i, ts)| == |kids| + |ts| - 1
    ensures SpliceKids(kids, i, ts)[a] ==
      if a < i then kids[a] else if a < i + |ts| then ts[a - i] else kids[a - |ts| + 1]
  {
  }

  lemma SplicedBounds(keys: seq<int>, lo: int, hi: int, i: nat, ks: seq<int>, a: nat)
    requires i <= |keys| && a <= |keys| + |ks|
    ensures var keys', l, r := SpliceKeys(keys, i, ks), LowOf(keys, lo, i), HighOf(keys, hi, i);
            && |keys'| == |keys| + |ks|
            && LowOf(keys', lo, a) ==
               (if a <= i then LowOf(keys, lo, a)
                else if a <= i + |ks| then LowOf(ks, l, a - i)
                else LowOf(keys, lo, a - |ks|))
            && HighOf(keys', hi, a) ==
               (if a < i then HighOf(keys, hi, a)
                else if a <= i + |ks| then HighOf(ks, r, a - i)
                else HighOf(keys, hi, a - |ks|))
  {
  }

  lemma SpliceKeysWithin(keys: seq<int>, lo: int, hi: int, i: nat, ks: seq<int>, a: nat)
    requires i <= |keys| && a < |keys| + |ks|
    requires forall j :: 0 <= j < |keys| ==> lo < keys[j] < hi && IsI64(keys[j])
    requires forall j :: 0 <= j < |ks| ==> LowOf(keys, lo, i) < ks[j] < HighOf(keys, hi, i) && IsI64(ks[j])
    ensures lo < SpliceKeys(keys, i, ks)[a] < hi && IsI64(SpliceKeys(keys, i, ks)[a])
  {
  }

  lemma SpliceKeysBelow(keys: seq<int>, lo: int, hi: int, i: nat, ks: seq<int>, a: nat, b: nat)
    requires Increasing(keys) && Increasing(ks) && i <= |keys|
    requires forall j :: 0 <= j < |ks| ==> LowOf(keys, lo, i) < ks[j] < HighOf(keys, hi, i)
    requires a < b < |SpliceKeys(keys, i, ks)|
    ensures SpliceKeys(keys, i, ks)[a] < SpliceKeys(keys, i, ks)[b]
  {
  }

  /** Cutting a node at separator `m`: both halves are ordered, with `keys[m]` between them. */
  lemma OrderedCut(keys: seq<int>, kids: seq<Tree>, lo: int, hi: int, h: nat, m: nat)
    requires OrderedOf(keys, kids, lo, hi, h) && m < |keys|
    ensures lo < keys[m] < hi && IsI64(keys[m])
    ensures OrderedOf(keys[..m], kids[..m + 1], lo, keys[m], h)
    ensures OrderedOf(keys[m + 1..], kids[m + 1..], keys[m], hi, h)
  {
  }

  lemma FootSplice(kids: seq<Tree>, i: nat, ts: seq<Tree>)
    requires i < |kids|
    ensures FootOf(SpliceKids(kids, i, ts)) == FootOf(kids[..i]) + FootOf(ts) + FootOf(kids[i + 1..])
  {
    hide Foot;
    var kids' := SpliceKids(kids, i, ts);
    forall p | p in FootOf(kids[..i]) + FootOf(ts) + FootOf(kids[i + 1..]) ensures p in FootOf(kids') {
      if a :| 0 <= a < i && p in Foot(kids[..i][a]) {
        assert p in Foot(kids'[a]);
      } else if b :| 0 <= b < |ts| && p in Foot(ts[b]) {
        assert p in Foot(kids'[i + b]);
      } else {
        var c :| 0 <= c < |kids| - i - 1 && p in Foot(kids[i + 1..][c]);
        assert p in Foot(kids'[i + |ts| + c]);
      }
    }
    forall p | p in FootOf(kids') ensures p in FootOf(kids[..i]) + FootOf(ts) + FootOf(kids[i + 1..]) {
      var a :| 0 <= a < |kids'| && p in Foot(kids'[a]);
      if a < i {
        assert kids'[a] == kids[..i][a];
      } else if a < i + |ts| {
        assert kids'[a] == ts[a - i];
      } else {
        assert kids'[a] == kids[i + 1..][a - i - |ts|];
      }
    }
  }

  /** Fresh pages in the replacement cannot clash with the other children. */
  lemma SeparateSplice(kids: seq<Tree>, i: nat, ts: seq<Tree>, taken: set<nat>)
    requires SeparateOf(kids) && i < |kids| && SeparateOf(ts)
    requires forall j :: 0 <= j < |kids| ==> Foot(kids[j]) <= taken
    requires FootOf(ts) * taken <= Foot(kids[i])
    ensures SeparateOf(SpliceKids(kids, i, ts))
  {
  }

  lemma SeparateCut(kids: seq<Tree>, m: nat)
    requires SeparateOf(kids) && m <= |kids|
    ensures SeparateOf(kids[..m]) && SeparateOf(kids[m..]) && FootOf(kids[..m]) !! FootOf(kids[m..])
    ensures FootOf(kids) == FootOf(kids[..m]) + FootOf(kids[m..])
  {
    hide Foot, Separate;
    forall p | p in FootOf(kids[..m]) ensures p !in FootOf(kids[m..]) {
      var a :| 0 <= a < m && p in Foot(kids[..m][a]);
      assert forall b :: 0 <= b < |kids| - m ==> Foot(kids[a]) !! Foot(kids[m..][b]);
    }
    forall p | p in FootOf(kids) ensures p in FootOf(kids[..m]) + FootOf(kids[m..]) {
      var a :| 0 <= a < |kids| && p in Foot(kids[a]);
      if a < m {
        assert kids[..m][a] == kids[a];
      } else {
        assert kids[m..][a - m] == kids[a];
      }
    }
    forall p | p in FootOf(kids[..m]) + FootOf(kids[m..]) ensures p in FootOf(kids) {
      if a :| 0 <= a < m && p in Foot(kids[..m][a]) {
        assert p in Foot(kids[a]);
      } else {
        var b :| 0 <= b < |kids| - m && p in Foot(kids[m..][b]);
        assert p in Foot(kids[m + b]);
      }
    }
  }
}
