/** What the unchecked paths of a leaf split do to an emptied leaf and to a duplicate rowid. */
module SplitHazards {
  import opened Bytes
  import opened SlottedPage
  import opened PageFormat
  import opened PageStore
  import opened TreeInsert
  import opened BTree

  // ---- An emptied leaf ----

  /** A leaf without live cells is cut before its new row: the divider is the row's own key. */
  lemma EmptiedLeafCut(c: LeafCell)
    ensures var all := Insert([], 0, c);
      CutPoint(|all|, 0) == 0 && all[CutPoint(|all|, 0)].key == c.key && all[..0] == []
  {
  }

  /**
   * After child `i` was cut at `d`, and with room on its parent: `insert_interior_cell` puts the
   * separator at `i`, `replace_child_pointer` redirects the child after the first separator equal
   * to `d`.  A lookup of `d` then reaches the new page exactly when `d` was not a separator already.
   */
  lemma NewPageReachable(n: Node, d: int, page: nat, i: nat, j: nat)
    requires n.Interior? && Increasing(SepKeys(n.seps)) && IsUpperBound(SepKeys(n.seps), d, i)
    requires i <= |n.seps| && page != ChildAt(n, i)
    requires var es := Insert(n.seps, i, Sep(ChildAt(n, i), d)); IsFirst(SepKeys(es), d, j) && j < |es|
    ensures var n' := WithChild(n.(seps := Insert(n.seps, i, Sep(ChildAt(n, i), d))), j + 1, page);
            && IsUpperBound(SepKeys(n'.seps), d, i + 1)
            && (ChildAt(n', i + 1) == page <==> d !in SepKeys(n.seps))
  {
    var es := Insert(n.seps, i, Sep(ChildAt(n, i), d));
    var ks := SepKeys(n.seps);
    SepKeysInsert(n.seps, i, Sep(ChildAt(n, i), d));
    var n' := WithChild(n.(seps := es), j + 1, page);
    assert SepKeys(n'.seps) == SepKeys(es);
    FirstPosition(ks, d, i, j);
  }

  /** The first separator equal to `d` is the new one, or the old one just before it. */
  lemma FirstPosition(ks: seq<int>, d: int, i: nat, j: nat)
    requires Increasing(ks) && IsUpperBound(ks, d, i) && IsFirst(Insert(ks, i, d), d, j)
    ensures IsUpperBound(Insert(ks, i, d), d, i + 1)
    ensures j == if d in ks then i - 1 else i
  {
    if d in ks {
      var a :| 0 <= a < |ks| && ks[a] == d;
      SeparatorBefore(ks, d, i, a);
      assert forall b :: 0 <= b < i - 1 ==> ks[b] < ks[i - 1];
    } else {
      InsertedIsFirst(ks, d, i, j);
    }
  }

  lemma SeparatorBefore(ks: seq<int>, d: int, i: nat, a: nat)
    requires Increasing(ks) && IsUpperBound(ks, d, i) && a < |ks| && ks[a] == d
    ensures i > 0 && ks[i - 1] == d
  {
  }

  /** The two pages `split_interior` makes of a full page, and the key between them. */
  function Halves(full: Node, m: nat): (Node, int, Node)
    requires full.Interior? && m < |full.seps|
  {
    (Interior(full.seps[..m], full.seps[m].child), full.seps[m].key, Interior(full.seps[m + 1..], full.right))
  }

  /**
   * Without room on the parent, `split_interior` redirects the child after the separator it
   * just placed, so a lookup of `d` reaches the new page whether or not `d` was a separator.
   */
  lemma NewPageReachableBySplit(n: Node, d: int, page: nat, i: nat, m: nat)
    requires n.Interior? && Increasing(SepKeys(n.seps)) && IsUpperBound(SepKeys(n.seps), d, i) && m <= |n.seps|
    ensures var (left, promoted, right) := Halves(SepAdded(n, i, Sep(ChildAt(n, i), d), page), m);
      var (half, j) := if d < promoted then (left, i + 1) else (right, i - m);
      j >= 0 && IsUpperBound(SepKeys(half.seps), d, j) && ChildAt(half, j) == page
  {
    hide SepKeys, Increasing, IsUpperBound, SepAdded, ChildAt;
    FullPage(n, d, page, i);
    var full := SepAdded(n, i, Sep(ChildAt(n, i), d), page);
    BoundInHalves(SepKeys(full.seps), d, i + 1, m);
    HalfPages(full, m, i + 1);
  }

  lemma FullPage(n: Node, d: int, page: nat, i: nat)
    requires n.Interior? && IsUpperBound(SepKeys(n.seps), d, i)
    ensures i <= |n.seps|
    ensures var full := SepAdded(n, i, Sep(ChildAt(n, i), d), page);
      && full.Interior? && |full.seps| == |n.seps| + 1 && |SepKeys(full.seps)| == |full.seps|
      && IsUpperBound(SepKeys(full.seps), d, i + 1) && ChildAt(full, i + 1) == page
  {
    var full := SepAdded(n, i, Sep(ChildAt(n, i), d), page);
    SepKeysInsert(n.seps, i, Sep(ChildAt(n, i), d));
    assert SepKeys(full.seps) == Insert(SepKeys(n.seps), i, d);
  }

  lemma HalfPages(full: Node, m: nat, b: nat)
    requires full.Interior? && m < |full.seps| && b <= |full.seps|
    ensures var (left, promoted, right) := Halves(full, m);
      && SepKeys(left.seps) == SepKeys(full.seps)[..m] && SepKeys(right.seps) == SepKeys(full.seps)[m + 1..]
      && promoted == SepKeys(full.seps)[m]
      && (b <= m ==> ChildAt(left, b) == ChildAt(full, b))
      && (b > m ==> ChildAt(right, b - m - 1) == ChildAt(full, b))
  {
  }

  /** An upper bound in a sorted list is one in the half that a search enters. */
  lemma BoundInHalves(ks: seq<int>, d: int, b: nat, m: nat)
    requires IsUpperBound(ks, d, b) && m < |ks|
    ensures d < ks[m] ==> b <= m && IsUpperBound(ks[..m], d, b)
    ensures d >= ks[m] ==> b >= m + 1 && IsUpperBound(ks[m + 1..], d, b - m - 1)
  {
  }

  /**
   * An emptied leaf of a 512-byte page whose content area is used up, at its own lower
   * separator 5: a row 5 does not fit, the leaf is cut at 5, and the parent, which has room,
   * sends lookups of 5 to the old, empty page 3 instead of the new page 9.
   */
  lemma EmptiedLeafLosesRow(c: LeafCell)
    requires c.key == 5 && CellSize(c) == 100
    ensures var leaf, parent := Leaf([], 40, 0, 2), Interior([Sep(2, 5)], 3);
      && LEAF_HEADER_SIZE + 2 * |leaf.cells| + 2 + CellSize(c) > leaf.co
      && SplitFits(512, leaf.cells, 0, CellSize(c)) && Insert(leaf.cells, 0, c)[CutPoint(1, 0)].key == 5
      && var grown := parent.(seps := Insert(parent.seps, 1, Sep(3, 5)));
      && IsFirst(SepKeys(grown.seps), 5, 0)
      && IsUpperBound(SepKeys(WithChild(grown, 1, 9).seps), 5, 2) && ChildAt(WithChild(grown, 1, 9), 2) == 3
  {
    var parent := Interior([Sep(2, 5)], 3);
    var grown := parent.(seps := Insert(parent.seps, 1, Sep(3, 5)));
    assert grown.seps == [Sep(2, 5), Sep(3, 5)];
    assert SepKeys(grown.seps) == [5, 5] && SepKeys(WithChild(grown, 1, 9).seps) == [5, 5];
  }

  // ---- A duplicate rowid ----

  /** The cells on the page and on the new one after a split, and whether it ended in an error. */
  datatype SplitOutcome = SplitOutcome(left: seq<LeafCell>, right: seq<LeafCell>, error: bool)

  /** `split_leaf` clears the page before it refills it; after an error no new page is linked. */
  function AfterSplit(cells: seq<LeafCell>, pos: nat, c: LeafCell): SplitOutcome
    requires pos <= |cells|
  {
    var all := Insert(cells, pos, c);
    var m := CutPoint(|all|, pos);
    var left, right := Refilled(all[..m]), Refilled(all[m..]);
    if |left| < m || |right| < |all| - m then SplitOutcome(left, [], true) else SplitOutcome(left, right, false)
  }

  /**
   * The pages `split_leaf` leaves hold that outcome.  After an error the page has left the leaf
   * list, whose other pages still lead to it.
   */
  lemma SplitFollows(
      ps: nat, before: map<nat, Node>, now: map<nat, Node>, n: nat, right: nat, pos: nat, c: LeafCell, ok: bool)
    requires n in before && before[n].Leaf? && pos <= |before[n].cells|
    requires before[n].next != n && right != n
    requires before[n].next != 0 ==> before[n].next in before && before[before[n].next].Leaf?
    requires var all := Insert(before[n].cells, pos, c);
      var m := CutPoint(|all|, pos);
      && LeafRoom(ps, all[..m]) >= 0 && LeafRoom(ps, all[m..]) >= 0
      && HalvesWritten(ps, before, now, n, right, all, m, ok)
    ensures var o := AfterSplit(before[n].cells, pos, c);
      && (ok <==> !o.error) && n in now && now[n].Leaf? && now[n].cells == o.left
      && (ok ==> right in now && now[right].Leaf? && now[right].cells == o.right)
      && (!ok ==> now[n].next == 0 && now[n].prev == 0 && forall x :: x in before && x != n ==> now[x] == before[x])
  {
    hide Refilled, CellBytes;
    var all := Insert(before[n].cells, pos, c);
    var m := CutPoint(|all|, pos);
    RefilledBound(all[..m]);
    RefilledBound(all[m..]);
  }

  /** The right half of a cut between the two cells with the duplicate rowid. */
  lemma AfterDuplicate(cells: seq<LeafCell>, a: nat, c: LeafCell)
    requires Increasing(CellKeys(cells)) && a < |cells| && cells[a].key == c.key
    ensures Increasing(CellKeys([c] + cells[a + 1..]))
  {
    var ks := CellKeys([c] + cells[a + 1..]);
    assert forall j :: 1 <= j < |ks| ==> ks[j] == CellKeys(cells)[a + j];
    assert ks[0] == CellKeys(cells)[a];
  }

  /**
   * A rowid that a full leaf already holds: the error comes exactly when the cut does not fall
   * between the two equal rowids, and by then rows of the cleared page are gone; otherwise
   * there is no error, and the rowid is stored twice.
   */
  lemma DuplicateSplit(cells: seq<LeafCell>, a: nat, c: LeafCell)
    requires Increasing(CellKeys(cells)) && a < |cells| && cells[a].key == c.key
    ensures var all, o := Insert(cells, a + 1, c), AfterSplit(cells, a + 1, c);
      && (o.error <==> CutPoint(|cells| + 1, a + 1) != a + 1)
      && (o.error ==> |o.left| < |cells| && o.left == cells[..|o.left|] && o.right == [])
      && (!o.error ==> o.left + o.right == all)
  {
    hide Refilled, Increasing, CellKeys, Insert;
    var k := a + 1;
    var m := CutPoint(|cells| + 1, k);
    InsertSlices(cells, k, c, m);
    RefilledBound(cells[..m]);
    if k < m {
      IncreasingPart(cells, 0, k);
      RefilledPast(cells[0..k], c, cells[k..m - 1]);
    } else {
      IncreasingPart(cells, 0, m);
      RefilledAll(cells[0..m]);
      if m == k {
        AfterDuplicate(cells, a, c);
        RefilledAll([c] + cells[k..]);
      } else {
        IncreasingPart(cells, m, k);
        RefilledPast(cells[m..k], c, cells[k..]);
      }
    }
  }

  lemma RefilledPast(front: seq<LeafCell>, c: LeafCell, rest: seq<LeafCell>)
    requires front != [] && front[|front| - 1].key == c.key && Increasing(CellKeys(front))
    ensures Refilled(front + [c] + rest) == front
  {
    var all := front + [c] + rest;
    assert all[..|front|] == front;
    RefilledStops(all, |front| - 1);
  }

  lemma RefilledBound(cells: seq<LeafCell>)
    ensures |Refilled(cells)| <= |cells| && (|Refilled(cells)| == |cells| <==> Refilled(cells) == cells)
  {
  }

  /** The halves of a list with one element inserted. */
  lemma InsertSlices(cells: seq<LeafCell>, k: nat, c: LeafCell, m: nat)
    requires k <= |cells| && m <= |cells|
    ensures var all := Insert(cells, k, c);
      && |all| == |cells| + 1 && all[..m] + all[m..] == all
      && (k < m ==> all[..m] == cells[0..k] + [c] + cells[k..m - 1])
      && (m <= k ==> all[..m] == cells[0..m] == cells[..m] && all[m..] == cells[m..k] + [c] + cells[k..])
      && (m == k ==> all[m..] == [c] + cells[k..])
  {
  }

  /** The split path keeps the leaf's rows and adds the new one exactly when its rowid is new. */
  lemma SplitKeepsRowsIff(cells: seq<LeafCell>, pos: nat, c: LeafCell)
    requires pos <= |cells| && Increasing(CellKeys(cells)) && IsUpperBound(CellKeys(cells), c.key, pos)
    ensures var all, o := Insert(cells, pos, c), AfterSplit(cells, pos, c);
      (!o.error && o.left + o.right == all && Increasing(CellKeys(all))) <==> c.key !in CellKeys(cells)
  {
    hide Refilled, Increasing, IsUpperBound;
    var all := Insert(cells, pos, c);
    if c.key !in CellKeys(cells) {
      NewRowidSplits(cells, pos, c);
      InsertIncreasing(cells, pos, c);
      assert all[..CutPoint(|all|, pos)] + all[CutPoint(|all|, pos)..] == all;
    } else {
      var a :| 0 <= a < |cells| && CellKeys(cells)[a] == c.key;
      TwiceNotIncreasing(cells, pos, c, a);
    }
  }

  lemma TwiceNotIncreasing(cells: seq<LeafCell>, pos: nat, c: LeafCell, a: nat)
    requires pos <= |cells| && a < |cells| && cells[a].key == c.key
    ensures !Increasing(CellKeys(Insert(cells, pos, c)))
  {
    var ks := CellKeys(Insert(cells, pos, c));
    var b := if a < pos then a else a + 1;
    assert ks[b] == c.key && ks[pos] == c.key;
  }
}
