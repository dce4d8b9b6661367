/** The stack cursor of cursor.rs: where it stops, on every tree, what it shows there, and when that is a scan. */
module Cursor {
  import opened Options
  import opened Bytes
  import opened SlottedPage
  import opened PageFormat
  import opened PageStore
  import opened TreeSpec
  import opened TreeKeys
  import opened TreeInsert
  import opened BTree
  import opened BTreeInsert
  import opened BTreeDelete
  import opened BTreeRead

  type Stack = seq<(nat, nat)>

  // ---- where the cursor stops ----

  /** Stands for the stop on a leaf page without cells, at a slot that belongs to no row of the table. */
  function Leftover(page: nat): Row { Row(I64_MAX + 1, [], [page]) }

  ghost function StopRows(page: nat, rows: seq<Row>): seq<Row> { if rows == [] then [Leftover(page)] else rows }

  /** The tree as the cursor sees it: one stop for every row, and one for every empty leaf. */
  ghost function Stops(t: Tree): (s: Tree)
    ensures s.page == t.page && (s.LeafT? <==> t.LeafT?)
    decreases t
  {
    match t
    case LeafT(page, rows) => LeafT(page, StopRows(page, rows))
    case NodeT(page, keys, kids) =>
      NodeT(page, keys, seq(|kids|, i requires 0 <= i < |kids| => Stops(kids[i])))
  }

  ghost function FirstRows(t: Tree): seq<Row>
    decreases t
  {
    match t
    case LeafT(_, rows) => rows
    case NodeT(_, _, kids) => if kids == [] then [] else FirstRows(kids[0])
  }

  /** A table whose first leaf is empty ends at once. */
  ghost function Visited(t: Tree): seq<Row> { if FirstRows(t) == [] then [] else Rows(Stops(t)) }

  // ---- what a stack denotes ----

  /** The stack leads from `t` down to a cell of a leaf. */
  ghost predicate AtCell(t: Tree, st: Stack)
    decreases t
  {
    && st != [] && st[0].0 == t.page
    && match t
       case LeafT(_, rows) => |st| == 1 && st[0].1 < |rows|
       case NodeT(_, _, kids) => st[0].1 < |kids| && AtCell(kids[st[0].1], st[1..])
  }

  /** Rows from the cursor's cell to the end of `t`. */
  ghost function Remaining(t: Tree, st: Stack): seq<Row>
    requires AtCell(t, st)
    decreases t
  {
    match t
    case LeafT(_, rows) => rows[st[0].1..]
    case NodeT(_, _, kids) => Remaining(kids[st[0].1], st[1..]) + RowsOf(kids[st[0].1 + 1..])
  }

  /** The stack leads from `t` to an interior page and one of its children. */
  ghost predicate AtChild(t: Tree, st: Stack)
    decreases t
  {
    && st != [] && st[0].0 == t.page && t.NodeT? && st[0].1 < |t.kids|
    && (|st| == 1 || AtChild(t.kids[st[0].1], st[1..]))
  }

  /** Rows of `t` after that child's subtree. */
  ghost function After(t: Tree, st: Stack): seq<Row>
    requires AtChild(t, st)
    decreases t
  {
    if |st| == 1 then RowsOf(t.kids[st[0].1 + 1..]) else After(t.kids[st[0].1], st[1..]) + RowsOf(t.kids[st[0].1 + 1..])
  }

  ghost function Child(t: Tree, st: Stack): Tree
    requires AtChild(t, st)
    decreases t
  {
    if |st| == 1 then t.kids[st[0].1] else Child(t.kids[st[0].1], st[1..])
  }

  /** The interior node on top of the stack. */
  ghost function Top(t: Tree, st: Stack): (n: Tree)
    requires AtChild(t, st)
    ensures n.NodeT? && n.page == st[|st| - 1].0 && st[|st| - 1].1 < |n.kids| && Child(t, st) == n.kids[st[|st| - 1].1]
    decreases t
  {
    if |st| == 1 then t else Top(t.kids[st[0].1], st[1..])
  }

  // ---- moving about ----

  lemma JoinRows(a: seq<Row>, b: seq<Row>, c: seq<Row>)
    ensures (a + b) + c == a + (b + c) && [] + c == c
  {
  }

  lemma {:induction false} PushPath(t: Tree, st: Stack, path: Stack)
    requires AtChild(t, st) && AtCell(Child(t, st), path)
    ensures AtCell(t, st + path) && Remaining(t, st + path) == Remaining(Child(t, st), path) + After(t, st)
    decreases t
  {
    hide RowsOf;
    assert (st + path)[1..] == st[1..] + path;
    var i := st[0].1;
    if |st| == 1 {
      assert st[1..] + path == path;
    } else {
      PushPath(t.kids[i], st[1..], path);
      JoinRows(Remaining(Child(t, st), path), After(t.kids[i], st[1..]), RowsOf(t.kids[i + 1..]));
    }
  }

  /** Leaving the leaf: the rest is what follows its parent's child. */
  lemma {:induction false} PopLeaf(t: Tree, st: Stack)
    requires AtCell(t, st) && |st| > 1
    ensures var up := st[..|st| - 1];
            && AtChild(t, up) && Child(t, up).LeafT? && Child(t, up).page == st[|st| - 1].0
            && st[|st| - 1].1 < |Child(t, up).rows|
            && Remaining(t, st) == Child(t, up).rows[st[|st| - 1].1..] + After(t, up)
    decreases t
  {
    hide RowsOf;
    var i, up, low := st[0].1, st[..|st| - 1], st[1..];
    assert up[0] == st[0] && low[|low| - 1] == st[|st| - 1];
    if t.kids[i].LeafT? {
      assert |low| == 1;
    } else {
      PopLeaf(t.kids[i], low);
      assert up[1..] == low[..|low| - 1];
      JoinRows(Child(t, up).rows[st[|st| - 1].1..], After(t.kids[i], up[1..]), RowsOf(t.kids[i + 1..]));
    }
  }

  /** Stepping to the next child of the top node. */
  lemma {:induction false} NextChild(t: Tree, st: Stack)
    requires AtChild(t, st) && st[|st| - 1].1 + 1 < |Top(t, st).kids|
    ensures var st' := st[|st| - 1 := (st[|st| - 1].0, st[|st| - 1].1 + 1)];
            && AtChild(t, st') && Child(t, st') == Top(t, st).kids[st[|st| - 1].1 + 1]
            && After(t, st) == Rows(Child(t, st')) + After(t, st')
    decreases t
  {
    hide RowsOf, Rows;
    var m, i, low := |st| - 1, st[0].1, st[1..];
    var x := (st[m].0, st[m].1 + 1);
    var st' := st[m := x];
    if m == 0 {
      RowsOfHead(t.kids[i + 1..]);
      assert t.kids[i + 1..][1..] == t.kids[i + 2..];
    } else {
      assert low[m - 1] == st[m];
      NextChild(t.kids[i], low);
      var low' := low[m - 1 := x];
      assert st'[0] == st[0] && st'[1..] == low';
      JoinRows(Rows(Child(t.kids[i], low')), After(t.kids[i], low'), RowsOf(t.kids[i + 1..]));
    }
  }

  /** Leaving a node whose last child is done. */
  lemma {:induction false} PopNode(t: Tree, st: Stack)
    requires AtChild(t, st) && st[|st| - 1].1 + 1 == |Top(t, st).kids|
    ensures |st| == 1 ==> After(t, st) == []
    ensures |st| > 1 ==> AtChild(t, st[..|st| - 1]) && After(t, st) == After(t, st[..|st| - 1])
    decreases t
  {
    hide Rows;
    var i, low := st[0].1, st[1..];
    if |st| == 1 {
      EmptyRows(t.kids[i + 1..]);
    } else {
      hide RowsOf;
      var up := st[..|st| - 1];
      assert low[|low| - 1] == st[|st| - 1] && up[0] == st[0];
      PopNode(t.kids[i], low);
      assert up[1..] == low[..|low| - 1];
      JoinRows([], [], RowsOf(t.kids[i + 1..]));
    }
  }

  lemma {:induction false} TopGood(ps: nat, nodes: map<nat, Node>, t: Tree, st: Stack) returns (n: Tree)
    requires PageSizeOk(ps) && Repr(ps, nodes, t) && AtChild(Stops(t), st)
    ensures Repr(ps, nodes, n) && n.NodeT? && Stops(n) == Top(Stops(t), st)
    decreases t
  {
    if |st| == 1 {
      n := t;
    } else {
      assert Repr(ps, nodes, t.kids[st[0].1]);
      n := TopGood(ps, nodes, t.kids[st[0].1], st[1..]);
    }
  }

  lemma {:induction false} LeafOfCell(ps: nat, nodes: map<nat, Node>, t: Tree, st: Stack) returns (rows: seq<Row>)
    requires PageSizeOk(ps) && Repr(ps, nodes, t) && AtCell(Stops(t), st)
    ensures st != []
    ensures var (page, idx), up := st[|st| - 1], st[..|st| - 1];
      && LeafHolds(ps, nodes, page, rows) && idx < |StopRows(page, rows)|
      && Remaining(Stops(t), st) != [] && Remaining(Stops(t), st)[0] == StopRows(page, rows)[idx]
      && (|st| > 1 ==> AtChild(Stops(t), up) && Child(Stops(t), up) == LeafT(page, StopRows(page, rows)))
      && (|st| == 1 ==> Stops(t) == LeafT(page, StopRows(page, rows)))
    decreases t
  {
    hide RowRepr, RowsOf;
    if t.LeafT? {
      rows := t.rows;
    } else {
      assert Repr(ps, nodes, t.kids[st[0].1]);
      rows := LeafOfCell(ps, nodes, t.kids[st[0].1], st[1..]);
      PopLeaf(Stops(t), st);
      if |st| > 2 {
        assert st[..|st| - 1][1..] == st[1..][..|st| - 2];
      } else {
        assert st[..1][0] == st[0];
      }
    }
  }

  /** The next cell of the same leaf. */
  lemma {:induction false} NextCell(t: Tree, st: Stack, rows: seq<Row>)
    requires AtCell(t, st) && st[|st| - 1].1 + 1 < |rows|
    requires |st| > 1 ==> AtChild(t, st[..|st| - 1]) && Child(t, st[..|st| - 1]) == LeafT(st[|st| - 1].0, rows)
    requires |st| == 1 ==> t == LeafT(st[0].0, rows)
    ensures var st' := st[|st| - 1 := (st[|st| - 1].0, st[|st| - 1].1 + 1)];
            AtCell(t, st') && Remaining(t, st) != [] && Remaining(t, st') == Remaining(t, st)[1..]
  {
    hide RowsOf;
    var m := |st| - 1;
    var j := st[m].1;
    if m > 0 {
      var up := st[..m];
      PopLeaf(t, st);
      PushPath(t, up, [(st[m].0, j + 1)]);
      assert up + [(st[m].0, j + 1)] == st[m := (st[m].0, j + 1)];
      assert rows[j..] == [rows[j]] + rows[j + 1..];
    }
  }

  /** After the last cell of a leaf the rest is what follows its parent's child. */
  lemma LeaveLeaf(t: Tree, st: Stack, rows: seq<Row>)
    requires AtCell(t, st) && st[|st| - 1].1 + 1 == |rows|
    requires |st| > 1 ==> AtChild(t, st[..|st| - 1]) && Child(t, st[..|st| - 1]) == LeafT(st[|st| - 1].0, rows)
    requires |st| == 1 ==> t == LeafT(st[0].0, rows)
    ensures Remaining(t, st) != []
    ensures |st| == 1 ==> Remaining(t, st)[1..] == []
    ensures |st| > 1 ==> Remaining(t, st)[1..] == After(t, st[..|st| - 1])
  {
    hide RowsOf;
    var m := |st| - 1;
    if m > 0 {
      PopLeaf(t, st);
      assert rows[st[m].1..] == [rows[st[m].1]];
    }
  }

  /**
   * What `current` shows at a stop: a row, or, on an empty leaf, the cell that its first slot still
   * leads to.  `None` stands for a slot that leads to no cell, or to a stub whose chain is free.
   */
  ghost function Shown(pages: map<nat, seq<byte>>, r: Row): Option<(int, seq<byte>)>
  {
    if IsI64(r.key) then Some((r.key, r.payload))
    else if r.chain == [] || r.chain[0] !in pages then None
    else InlineRow(SlotCell(pages[r.chain[0]], 0))
  }

  function InlineRow(c: Option<LeafCell>): Option<(int, seq<byte>)>
  {
    match c
    case Some(Inline(key, payload)) => Some((key, payload))
    case _ => None
  }

  ghost function ShownAll(pages: map<nat, seq<byte>>, rows: seq<Row>): (ss: seq<Option<(int, seq<byte>)>>)
    ensures |ss| == |rows|
  {
    seq(|rows|, i requires 0 <= i < |rows| => Shown(pages, rows[i]))
  }

  class TableCursor {
    var stack: Stack
    var endOfTable: bool

    /** At a stop, or past the end with nothing left. */
    ghost predicate At(t: Tree, rest: seq<Row>)
      reads this
    {
      if endOfTable then rest == [] else AtCell(Stops(t), stack) && Remaining(Stops(t), stack) == rest
    }

    /** `table_start`. */
    constructor (pager: Pager, root: nat, ghost t: Tree)
      requires pager.Valid() && PageSizeOk(pager.ps) && t.page == root && Repr(pager.ps, pager.nodes, t)
      ensures At(t, Visited(t))
    {
      stack, endOfTable := [], false;
      new;
      hide Pager.Valid, Repr, Rows, AtCell, Remaining;
      MoveToLeftmost(pager, root, t);
      assert stack == stack[0..];
      FirstPageOf(pager.ps, pager.nodes, t, stack);
      var count := pager.CellCount(stack[|stack| - 1].0);
      if count == 0 {
        endOfTable := true;
      }
    }

    /** `move_to_leftmost`: push the way down to the first stop of subtree `s`. */
    method MoveToLeftmost(pager: Pager, page: nat, ghost s: Tree)
      requires pager.Valid() && PageSizeOk(pager.ps) && s.page == page && Repr(pager.ps, pager.nodes, s)
      modifies this`stack
      ensures |stack| > |old(stack)| && stack[..|old(stack)|] == old(stack)
      ensures Leftmost(s, stack[|old(stack)|..])
      decreases s
    {
      hide Pager.Valid, Repr, Leftmost;
      PageOfTree(pager.ps, pager.nodes, s);
      stack := stack + [(page, 0)];
      ghost var n := |old(stack)|;
      if pager.IsLeafPage(page) {
        LeftmostLeaf(s);
        assert stack[n..] == [(page, 0)];
      } else {
        NodeKids(pager.ps, pager.nodes, s);
        var child := pager.ReadChild(page, 0);
        MoveToLeftmost(pager, child, s.kids[0]);
        assert stack[..n + 1][..n] == stack[..n] && stack[n] == stack[..n + 1][n];
        assert stack[n..] == [(page, 0)] + stack[n + 1..];
        LeftmostNode(s, stack[n + 1..]);
      }
    }

    /** `current`: what this stop's slot leads to, whether the leaf has a cell there or not. */
    method Current(pager: Pager, ghost t: Tree, ghost rest: seq<Row>) returns (r: Option<(int, seq<byte>)>)
      requires pager.Valid() && PageSizeOk(pager.ps) && Repr(pager.ps, pager.nodes, t) && At(t, rest) && !endOfTable
      ensures rest != [] && r == Shown(pager.pages, rest[0])
    {
      hide Pager.Valid, Repr, RowRepr, SlotCell, InlineRow, AtCell, Remaining, Stops, CellOf, AtChild, Child;
      ghost var rows := LeafOfCell(pager.ps, pager.nodes, t, stack);
      var (page, idx) := stack[|stack| - 1];
      HeldRows(pager.ps, pager.nodes, page, rows);
      pager.PageInUse(page);
      var cell := SlotCell(pager.pages[page], idx);
      if rows != [] {
        SlotOfRow(pager, page, rows, idx);
      }
      if cell.None? || cell.value.Inline? {
        ShownInline(cell);
        return InlineRow(cell);
      }
      var count := pager.CellCount(page);
      if count == 0 {
        ShownInline(cell);
        return None;
      }
      var key, payload := ReadRow(pager, page, idx, rows);
      r := Some((key, payload));
    }

    /** `advance` drops exactly that stop from what is left. */
    method Advance(pager: Pager, ghost t: Tree, ghost rest: seq<Row>)
      requires pager.Valid() && PageSizeOk(pager.ps) && Repr(pager.ps, pager.nodes, t) && At(t, rest)
      modifies this
      ensures At(t, if rest == [] then [] else rest[1..])
    {
      hide Pager.Valid, Repr, RowsOf, RowRepr, AtChild, AtCell, Remaining, Stops, After, Child;
      if endOfTable {
        return;
      }
      ghost var rows := LeafOfCell(pager.ps, pager.nodes, t, stack);
      var m := |stack| - 1;
      var (page, idx) := stack[m];
      HeldRows(pager.ps, pager.nodes, page, rows);
      var count := pager.CellCount(page);
      if idx + 1 < count {
        NextCell(Stops(t), stack, rows);
        stack := stack[m := (page, idx + 1)];
      } else {
        LeaveLeaf(Stops(t), stack, StopRows(page, rows));
        stack := stack[..m];
        Climb(pager, t, rest[1..]);
      }
    }

    /** The loop of `advance`: up to the nearest node with another child, then down to its first stop. */
    method Climb(pager: Pager, ghost t: Tree, ghost rest: seq<Row>)
      requires pager.Valid() && PageSizeOk(pager.ps) && Repr(pager.ps, pager.nodes, t) && !endOfTable
      requires if stack == [] then rest == [] else AtChild(Stops(t), stack) && After(Stops(t), stack) == rest
      modifies this
      ensures At(t, rest)
    {
      hide Pager.Valid, RowsOf, AtChild, After, Repr, Leftmost, Stops;
      while true
        invariant !endOfTable
        invariant if stack == [] then rest == [] else AtChild(Stops(t), stack) && After(Stops(t), stack) == rest
        decreases |stack|
      {
        if stack == [] {
          endOfTable := true;
          return;
        }
        var m := |stack| - 1;
        var (parent, idx) := stack[m];
        ghost var top := TopGood(pager.ps, pager.nodes, t, stack);
        NodeKids(pager.ps, pager.nodes, top);
        var count := pager.CellCount(parent);
        if idx < count {
          var child := pager.ReadChild(parent, idx + 1);
          NextChild(Stops(t), stack);
          stack := stack[m := (parent, idx + 1)];
          ghost var up := stack;
          MoveToLeftmost(pager, child, top.kids[idx + 1]);
          Descended(t, top.kids[idx + 1], up, stack);
          return;
        }
        PopNode(Stops(t), stack);
        stack := stack[..m];
      }
    }
  }

  /** A path pushed by `move_to_leftmost`. */
  ghost predicate Leftmost(s: Tree, path: Stack) {
    && path != [] && AtCell(Stops(s), path) && Remaining(Stops(s), path) == Rows(Stops(s))
    && IsFirstLeaf(s, path[|path| - 1].0)
  }

  /** `page` is the page of the first leaf of `s`. */
  ghost predicate IsFirstLeaf(s: Tree, page: nat)
    decreases s
  {
    match s
    case LeafT(p, _) => p == page
    case NodeT(_, _, kids) => kids != [] && IsFirstLeaf(kids[0], page)
  }

  lemma LeftmostLeaf(s: Tree)
    requires s.LeafT?
    ensures Leftmost(s, [(s.page, 0)])
  {
  }

  lemma LeftmostNode(s: Tree, path: Stack)
    requires s.NodeT? && s.kids != [] && Leftmost(s.kids[0], path)
    ensures Leftmost(s, [(s.page, 0)] + path)
  {
    hide RowsOf, Rows, AtCell, Remaining;
    assert Stops(s).kids[0] == Stops(s.kids[0]);
    FirstChild(Stops(s), path);
    var p := [(s.page, 0)] + path;
    assert p[|p| - 1] == path[|path| - 1];
  }

  lemma FirstChild(t: Tree, path: Stack)
    requires t.NodeT? && t.kids != [] && AtCell(t.kids[0], path) && Remaining(t.kids[0], path) == Rows(t.kids[0])
    ensures AtCell(t, [(t.page, 0)] + path) && Remaining(t, [(t.page, 0)] + path) == Rows(t)
  {
    hide RowsOf;
    assert ([(t.page, 0)] + path)[1..] == path;
    RowsOfHead(t.kids);
  }

  lemma Descended(t: Tree, kid: Tree, up: Stack, st: Stack)
    requires AtChild(Stops(t), up) && |st| > |up| && st[..|up|] == up
    requires Child(Stops(t), up) == Stops(kid) && Leftmost(kid, st[|up|..])
    ensures AtCell(Stops(t), st) && Remaining(Stops(t), st) == Rows(Stops(kid)) + After(Stops(t), up)
  {
    hide Stops, Rows, RowsOf, AtCell, AtChild, Remaining, After, Child;
    assert st == up + st[|up|..];
    PushPath(Stops(t), up, st[|up|..]);
  }

  lemma NodeKids(ps: nat, nodes: map<nat, Node>, n: Tree)
    requires PageSizeOk(ps) && n.NodeT? && Repr(ps, nodes, n)
    ensures n.page in nodes && nodes[n.page].Interior? && |n.kids| == |n.keys| + 1 && |nodes[n.page].seps| == |n.keys|
    ensures forall i :: 0 <= i < |n.kids| ==> Repr(ps, nodes, n.kids[i]) && ChildAt(nodes[n.page], i) == n.kids[i].page
    ensures Stops(n).page == n.page && Stops(n).NodeT? && |Stops(n).kids| == |n.kids|
    ensures forall i :: 0 <= i < |n.kids| ==> Stops(n).kids[i] == Stops(n.kids[i])
  {
  }

  lemma PageOfTree(ps: nat, nodes: map<nat, Node>, s: Tree)
    requires PageSizeOk(ps) && Repr(ps, nodes, s)
    ensures s.page in nodes && (s.LeafT? <==> nodes[s.page].Leaf?) && (s.NodeT? <==> nodes[s.page].Interior?)
    ensures s.NodeT? ==> |s.kids| == |s.keys| + 1 && |nodes[s.page].seps| == |s.keys|
  {
  }

  lemma HeldRows(ps: nat, nodes: map<nat, Node>, page: nat, rows: seq<Row>)
    requires PageSizeOk(ps) && LeafHolds(ps, nodes, page, rows)
    ensures page in nodes && nodes[page].Leaf? && |nodes[page].cells| == |rows|
    ensures forall i :: 0 <= i < |rows| ==> IsI64(rows[i].key)
  {
  }

  lemma FirstPageOf(ps: nat, nodes: map<nat, Node>, t: Tree, st: Stack)
    requires PageSizeOk(ps) && Repr(ps, nodes, t) && Leftmost(t, st)
    ensures var n := st[|st| - 1].0; n in nodes && nodes[n].Leaf? && |nodes[n].cells| == |FirstRows(t)|
  {
    FirstLeafHolds(ps, nodes, t, st[|st| - 1].0);
  }

  lemma {:induction false} FirstLeafHolds(ps: nat, nodes: map<nat, Node>, t: Tree, page: nat)
    requires PageSizeOk(ps) && Repr(ps, nodes, t) && IsFirstLeaf(t, page)
    ensures page in nodes && nodes[page].Leaf? && |nodes[page].cells| == |FirstRows(t)|
    decreases t
  {
    if t.NodeT? {
      assert Repr(ps, nodes, t.kids[0]);
      FirstLeafHolds(ps, nodes, t.kids[0], page);
    }
  }

  lemma ShownInline(c: Option<LeafCell>)
    ensures c.None? || c.value.Stub? ==> InlineRow(c) == None
    ensures c.Some? && c.value.Inline? ==> InlineRow(c) == Some((c.value.key, c.value.payload))
  {
  }

  lemma SlotOfRow(pager: Pager, page: nat, rows: seq<Row>, idx: nat)
    requires pager.Valid() && LeafHolds(pager.ps, pager.nodes, page, rows) && idx < |rows|
    ensures page in pager.pages && SlotCell(pager.pages[page], idx) == Some(CellOf(rows[idx]))
    ensures CellOf(rows[idx]).Inline? ==> CellOf(rows[idx]) == Inline(rows[idx].key, rows[idx].payload)
  {
    hide Pager.Valid, SlotCell, RowRepr;
    pager.SlotOfCell(page, idx);
  }

  /** Walking the cursor from `table_start` terminates, with one stop for every row and every later empty leaf. */
  method Walk(pager: Pager, root: nat, ghost t: Tree) returns (out: seq<Option<(int, seq<byte>)>>)
    requires pager.Valid() && PageSizeOk(pager.ps) && t.page == root && Repr(pager.ps, pager.nodes, t)
    ensures out == ShownAll(pager.pages, Visited(t))
  {
    hide Pager.Valid, Repr, Visited, RowRepr, Shown;
    var c := new TableCursor(pager, root, t);
    out := [];
    ghost var rows := Visited(t);
    ghost var i := 0;
    assert rows[0..] == rows;
    while !c.endOfTable
      invariant 0 <= i <= |rows| && c.At(t, rows[i..])
      invariant out == ShownAll(pager.pages, rows)[..i]
      decreases !c.endOfTable, |rows| - i
    {
      var r := c.Current(pager, t, rows[i..]);
      assert rows[i..][1..] == rows[i + 1..] && rows[i..][0] == rows[i];
      c.Advance(pager, t, rows[i..]);
      out := out + [r];
      i := i + 1;
    }
    assert ShownAll(pager.pages, rows)[..i] == ShownAll(pager.pages, rows);
  }

  // ---- when the walk is a scan ----

  /** What a full scan returns. */
  ghost function Scanned(rows: seq<Row>): (ss: seq<Option<(int, seq<byte>)>>)
    ensures |ss| == |rows| && forall i :: 0 <= i < |rows| ==> ss[i] == Some((rows[i].key, rows[i].payload))
  {
    seq(|rows|, i requires 0 <= i < |rows| => Some((rows[i].key, rows[i].payload)))
  }

  ghost predicate AllI64(rows: seq<Row>) { forall r :: r in rows ==> IsI64(r.key) }

  lemma {:induction false} StopsSame(t: Tree)
    requires NoEmptyLeaf(t)
    ensures Stops(t) == t && FirstRows(t) != []
    decreases t
  {
    if t.NodeT? {
      forall i | 0 <= i < |t.kids| ensures Stops(t.kids[i]) == t.kids[i] {
        StopsSame(t.kids[i]);
      }
      StopsSame(t.kids[0]);
    }
  }

  /** Every interior page has a child. */
  ghost predicate HasKids(t: Tree)
    decreases t
  {
    t.NodeT? ==> t.kids != [] && forall i :: 0 <= i < |t.kids| ==> HasKids(t.kids[i])
  }

  lemma {:induction false} StoredHasKids(ps: nat, nodes: map<nat, Node>, t: Tree)
    requires PageSizeOk(ps) && Repr(ps, nodes, t)
    ensures HasKids(t)
    decreases t
  {
    if t.NodeT? {
      forall i | 0 <= i < |t.kids| ensures HasKids(t.kids[i]) {
        StoredHasKids(ps, nodes, t.kids[i]);
      }
    }
  }

  /** There are more stops than rows exactly when a leaf is empty. */
  lemma {:induction false} ExtraStops(t: Tree)
    requires HasKids(t)
    ensures |Rows(Stops(t))| >= |Rows(t)| && (|Rows(Stops(t))| == |Rows(t)| <==> NoEmptyLeaf(t))
    decreases t, 0
  {
    if t.NodeT? {
      ExtraStopsOf(t.kids, Stops(t).kids);
    }
  }

  lemma {:induction false} ExtraStopsOf(kids: seq<Tree>, stops: seq<Tree>)
    requires |stops| == |kids|
    requires forall i :: 0 <= i < |kids| ==> HasKids(kids[i]) && stops[i] == Stops(kids[i])
    ensures |RowsOf(stops)| >= |RowsOf(kids)| && (|RowsOf(stops)| == |RowsOf(kids)| <==> NoEmptyLeaves(kids))
    decreases kids, 1
  {
    hide Rows, Stops, NoEmptyLeaf, HasKids;
    if kids != [] {
      RowsOfHead(kids);
      RowsOfHead(stops);
      ExtraStops(kids[0]);
      ExtraStopsOf(kids[1..], stops[1..]);
      assert NoEmptyLeaves(kids) <==> NoEmptyLeaf(kids[0]) && NoEmptyLeaves(kids[1..]) by {
        NoEmptyHead(kids);
      }
    }
  }

  lemma NoEmptyHead(kids: seq<Tree>)
    requires kids != []
    ensures NoEmptyLeaves(kids) <==> NoEmptyLeaf(kids[0]) && NoEmptyLeaves(kids[1..])
  {
    hide NoEmptyLeaf;
    assert kids == [kids[0]] + kids[1..];
  }

  lemma {:induction false} FirstRowsIn(t: Tree)
    ensures FirstRows(t) != [] ==> Rows(t) != []
    decreases t
  {
    if t.NodeT? && t.kids != [] {
      FirstRowsIn(t.kids[0]);
      RowsOfHead(t.kids);
    }
  }

  lemma {:induction false} RowsI64(ps: nat, nodes: map<nat, Node>, t: Tree)
    requires PageSizeOk(ps) && Repr(ps, nodes, t)
    ensures AllI64(Rows(t))
    decreases t
  {
    if t.LeafT? {
      forall r | r in t.rows ensures IsI64(r.key) {
        var i :| 0 <= i < |t.rows| && t.rows[i] == r;
        assert RowRepr(ps, nodes, t.rows[i]);
      }
    } else {
      RowsOfI64(ps, nodes, t.kids);
    }
  }

  lemma {:induction false} RowsOfI64(ps: nat, nodes: map<nat, Node>, kids: seq<Tree>)
    requires PageSizeOk(ps) && ReprOf(ps, nodes, kids)
    ensures AllI64(RowsOf(kids))
    decreases kids
  {
    if kids != [] {
      assert Repr(ps, nodes, kids[0]);
      RowsI64(ps, nodes, kids[0]);
      assert forall i :: 0 <= i < |kids[1..]| ==> kids[1..][i] == kids[i + 1];
      RowsOfI64(ps, nodes, kids[1..]);
      RowsOfHead(kids);
    }
  }

  lemma ShownRows(pages: map<nat, seq<byte>>, rows: seq<Row>)
    requires AllI64(rows)
    ensures ShownAll(pages, rows) == Scanned(rows)
  {
    forall i | 0 <= i < |rows| ensures Shown(pages, rows[i]) == Some((rows[i].key, rows[i].payload)) {
      assert rows[i] in rows;
    }
  }

  /** The walk makes as many stops as there are rows exactly on trees without an empty leaf, or without any row. */
  lemma StopCountIff(ps: nat, nodes: map<nat, Node>, t: Tree)
    requires PageSizeOk(ps) && Repr(ps, nodes, t)
    ensures |Visited(t)| == |Rows(t)| <==> NoEmptyLeaf(t) || Rows(t) == []
  {
    hide Repr, Rows, FirstRows, NoEmptyLeaf, Stops, HasKids;
    StoredHasKids(ps, nodes, t);
    ExtraStops(t);
    FirstRowsIn(t);
    if NoEmptyLeaf(t) {
      StopsSame(t);
    }
  }

  /** The walk is a full scan exactly on these trees, whatever the slots of empty leaves lead to. */
  lemma WalkIsScanIff(ps: nat, nodes: map<nat, Node>, t: Tree, pages: map<nat, seq<byte>>)
    requires PageSizeOk(ps) && Repr(ps, nodes, t)
    ensures ShownAll(pages, Visited(t)) == Scanned(Rows(t)) <==> NoEmptyLeaf(t) || Rows(t) == []
  {
    hide Repr, Rows, FirstRows, NoEmptyLeaf, Stops, AllI64, Shown;
    StopCountIff(ps, nodes, t);
    RowsI64(ps, nodes, t);
    FirstRowsIn(t);
    if NoEmptyLeaf(t) {
      StopsSame(t);
      ShownRows(pages, Rows(t));
    }
  }

  // ---- a deleted row comes back ----

  /** The leaf for `key` is empty. */
  ghost predicate LeafEmptied(t: Tree, key: int)
    decreases t
  {
    match t
    case LeafT(_, rows) => rows == []
    case NodeT(_, keys, kids) => exists i :: 0 <= i < |kids| && IsUpperBound(keys, key, i) && LeafEmptied(kids[i], key)
  }

  lemma KidRowsIn(t: Tree, i: nat)
    requires t.NodeT? && i < |t.kids|
    ensures forall r :: r in Rows(t.kids[i]) ==> r in Rows(t)
  {
    hide RowsOf;
    NodeRows(t);
    RowsOfSplit(t.kids, i);
  }

  lemma {:induction false} EmptiedStop(pages: map<nat, seq<byte>>, t: Tree, key: int, payload: seq<byte>)
    returns (r: Row)
    requires StillLeadsTo(pages, t, key, Inline(key, payload)) && LeafEmptied(t, key)
    ensures r in Rows(Stops(t)) && Shown(pages, r) == Some((key, payload))
    decreases t
  {
    if t.LeafT? {
      r := Leftover(t.page);
    } else {
      var i :| 0 <= i < |t.kids| && IsUpperBound(t.keys, key, i) && LeafEmptied(t.kids[i], key);
      r := EmptiedStop(pages, t.kids[i], key, payload);
      KidRowsIn(Stops(t), i);
    }
  }

  /** A row that was the last one of its leaf is shown again after its deletion, unless the walk ends at once. */
  lemma DeletedRowShown(pages: map<nat, seq<byte>>, t: Tree, key: int, payload: seq<byte>)
    requires StillLeadsTo(pages, t, key, Inline(key, payload)) && LeafEmptied(t, key)
    ensures FirstRows(t) != [] ==> Some((key, payload)) in ShownAll(pages, Visited(t))
  {
    hide StillLeadsTo, LeafEmptied, Rows, Stops, Shown, FirstRows;
    var r := EmptiedStop(pages, t, key, payload);
    var i :| 0 <= i < |Rows(Stops(t))| && Rows(Stops(t))[i] == r;
    if FirstRows(t) != [] {
      assert ShownAll(pages, Visited(t))[i] == Some((key, payload));
    }
  }
}
