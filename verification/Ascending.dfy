/** Strictly ascending lists of positions, as filters that keep the order pick them. */
module Ascending {
  predicate Ascends(at: seq<nat>, n: nat)
  {
    (forall i, j :: 0 <= i < j < |at| ==> at[i] < at[j]) && forall i :: 0 <= i < |at| ==> at[i] < n
  }

  lemma Snoc(at: seq<nat>, n: nat)
    requires Ascends(at, n)
    ensures Ascends(at, n + 1) && Ascends(at + [n], n + 1)
  {
  }

  lemma AscendsBelow(at: seq<nat>, n: nat)
    requires Ascends(at, n)
    ensures forall i :: 0 <= i < |at| ==> at[i] < n
  {
  }

  lemma {:induction false} Spread(at: seq<nat>, n: nat, i: nat, j: nat)
    requires Ascends(at, n) && i <= j < |at|
    ensures at[j] - at[i] >= j - i
    decreases j - i
  {
    if i < j {
      Spread(at, n, i, j - 1);
    }
  }

  /** Position `i` has `i` smaller ones before it, and as many larger ones after it as are left. */
  lemma {:induction false} Bounds(at: seq<nat>, n: nat)
    requires Ascends(at, n)
    ensures forall i :: 0 <= i < |at| ==> i <= at[i] <= n - |at| + i
    ensures |at| <= n
    decreases |at|
  {
    if at != [] {
      var m := |at| - 1;
      Bounds(at[..m], at[m]);
      assert forall i :: 0 <= i < m ==> at[..m][i] == at[i];
    }
  }

  /** All but one of the positions below `n`: everything after the missing one is one further on. */
  lemma AllButOne(at: seq<nat>, n: nat, gap: nat)
    requires Ascends(at, n) && gap < n && gap !in at && |at| == n - 1
    ensures forall i :: 0 <= i < |at| ==> at[i] == if i < gap then i else i + 1
  {
    Bounds(at, n);
    forall i | 0 <= i < |at| ensures at[i] == if i < gap then i else i + 1 {
      if i < gap {
        assert at[gap - 1] != gap;
        Spread(at, n, i, gap - 1);
      } else {
        assert at[gap] != gap;
        Spread(at, n, gap, i);
      }
    }
  }

  lemma {:induction false} AtLeast(at: seq<nat>, n: nat, s: set<nat>)
    requires Ascends(at, n) && forall p :: p in s ==> p in at
    ensures |at| >= |s|
    decreases |at|
  {
    if at != [] {
      var m := |at| - 1;
      assert at == at[..m] + [at[m]];
      AtLeast(at[..m], n, s - {at[m]});
    } else {
      assert forall p :: p !in s;
      assert s == {};
    }
  }

  /** The positions below `n`. */
  function Below(n: nat): (s: set<nat>)
    ensures |s| == n && forall p :: p in s <==> 0 <= p < n
  {
    if n == 0 then {} else Below(n - 1) + {n - 1}
  }

  lemma FullHas(at: seq<nat>, n: nat, p: nat)
    requires Ascends(at, n) && p < n
    ensures |at| == n ==> p in at
  {
    Bounds(at, n);
    if |at| == n {
      assert at[p] == p;
    }
  }

  /** If only one position is missing, all others are there. */
  lemma OnlyGap(at: seq<nat>, n: nat, gap: nat)
    requires Ascends(at, n) && gap < n && gap !in at && forall p :: 0 <= p < n && p != gap ==> p in at
    ensures |at| == n - 1
  {
    AtLeast(at, n, Below(n) - {gap});
    Bounds(at, n);
    FullHas(at, n, gap);
  }

  /** With one position fewer than all and `gap` missing, every other one is there. */
  lemma NoOtherGap(at: seq<nat>, n: nat, gap: nat, other: nat)
    requires Ascends(at, n) && gap < n && other < n && gap != other && gap !in at
    ensures |at| == n - 1 ==> other in at
  {
    if |at| == n - 1 {
      AllButOne(at, n, gap);
      assert at[if other < gap then other else other - 1] == other;
    }
  }
}
