/** Which keys a search tree holds, and where. */
module TreeKeys {
  import opened Bytes
  import opened PageStore
  import opened TreeSpec

  /** A key that child `i` is responsible for and does not hold is nowhere in the tree. */
  lemma KeyElsewhere(t: Tree, lo: int, hi: int, h: nat, i: nat, key: int)
    requires t.NodeT? && h > 0 && OrderedOf(t.keys, t.kids, lo, hi, h - 1) && i < |t.kids|
    requires IsUpperBound(t.keys, key, i) && key !in RowKeys(Rows(t.kids[i]))
    ensures key !in RowKeys(Rows(t))
  {
    hide RowsOf, Rows, RowKeys, Ordered, IsUpperBound;
    KeyOutside(t.keys, t.kids, lo, hi, h - 1, i, key);
    NodeRows(t);
    RowsOfSplit(t.kids, i);
    JoinKeys(RowsOf(t.kids[..i]), Rows(t.kids[i]), RowsOf(t.kids[i + 1..]), key);
  }

  lemma NodeRows(t: Tree)
    requires t.NodeT?
    ensures Rows(t) == RowsOf(t.kids)
  {
  }

  lemma JoinKeys(a: seq<Row>, b: seq<Row>, c: seq<Row>, key: int)
    requires key !in RowKeys(a) && key !in RowKeys(b) && key !in RowKeys(c)
    ensures key !in RowKeys(a + (b + c))
  {
  }

  lemma {:induction false} KeysInRange(t: Tree, lo: int, hi: int, h: nat)
    requires Ordered(t, lo, hi, h)
    ensures forall r :: r in Rows(t) ==> lo <= r.key < hi
    decreases t, 0
  {
    if t.NodeT? {
      KeysOfInRange(t.keys, t.kids, lo, hi, h - 1);
    }
  }

  lemma {:induction false} KeysOfInRange(keys: seq<int>, kids: seq<Tree>, lo: int, hi: int, h: nat)
    requires OrderedOf(keys, kids, lo, hi, h)
    ensures forall r :: r in RowsOf(kids) ==> lo <= r.key < hi
    decreases kids, 1
  {
    assert Ordered(kids[0], LowOf(keys, lo, 0), HighOf(keys, hi, 0), h);
    KeysInRange(kids[0], LowOf(keys, lo, 0), HighOf(keys, hi, 0), h);
    if |kids| > 1 {
      OrderedCut(keys, kids, lo, hi, h, 0);
      KeysOfInRange(keys[1..], kids[1..], keys[0], hi, h);
    }
  }

  lemma KeyOutside(keys: seq<int>, kids: seq<Tree>, lo: int, hi: int, h: nat, i: nat, key: int)
    requires OrderedOf(keys, kids, lo, hi, h) && i < |kids| && IsUpperBound(keys, key, i)
    ensures key !in RowKeys(RowsOf(kids[..i])) && key !in RowKeys(RowsOf(kids[i + 1..]))
  {
    hide RowsOf, Ordered;
    if i > 0 {
      OrderedCut(keys, kids, lo, hi, h, i - 1);
      KeysOfInRange(keys[..i - 1], kids[..i], lo, keys[i - 1], h);
    } else {
      EmptyRows(kids[..i]);
    }
    if i < |keys| {
      OrderedCut(keys, kids, lo, hi, h, i);
      KeysOfInRange(keys[i + 1..], kids[i + 1..], keys[i], hi, h);
    } else {
      EmptyRows(kids[i + 1..]);
    }
    NotAKey(RowsOf(kids[..i]), key);
    NotAKey(RowsOf(kids[i + 1..]), key);
  }

  lemma EmptyRows(kids: seq<Tree>)
    requires kids == []
    ensures RowsOf(kids) == []
  {
  }

  lemma NotAKey(rows: seq<Row>, key: int)
    requires forall r :: r in rows ==> r.key != key
    ensures key !in RowKeys(rows)
  {
  }

  lemma RowOfChild(t: Tree, i: nat, k: nat)
    requires t.NodeT? && i < |t.kids| && k < |Rows(t.kids[i])|
    ensures var at := |RowsOf(t.kids[..i])| + k; at < |Rows(t)| && Rows(t)[at] == Rows(t.kids[i])[k]
  {
    hide RowsOf;
    RowsOfSplit(t.kids, i);
  }

  lemma KidKeys(t: Tree, i: nat, key: int)
    requires t.NodeT? && i < |t.kids| && key !in RowKeys(Rows(t))
    ensures key !in RowKeys(Rows(t.kids[i]))
  {
    hide RowsOf, RowKeys;
    RowsOfSplit(t.kids, i);
    MiddleKeys(RowsOf(t.kids[..i]), Rows(t.kids[i]), RowsOf(t.kids[i + 1..]), key);
  }

  lemma MiddleKeys(a: seq<Row>, b: seq<Row>, c: seq<Row>, key: int)
    requires key !in RowKeys(a + (b + c))
    ensures key !in RowKeys(a) && key !in RowKeys(b) && key !in RowKeys(c)
  {
    var all := RowKeys(a + (b + c));
    assert forall j :: 0 <= j < |a| ==> RowKeys(a)[j] == all[j];
    assert forall j :: 0 <= j < |b| ==> RowKeys(b)[j] == all[|a| + j];
    assert forall j :: 0 <= j < |c| ==> RowKeys(c)[j] == all[|a| + |b| + j];
  }
}
