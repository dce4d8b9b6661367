/** Levenshtein distance: the dynamic-programming table, edit scripts and fuzzy search. */
module EditDistance {
  function Min(x: nat, y: nat): nat { if x <= y then x else y }

  function Mismatch(x: char, y: char): nat { if x == y then 0 else 1 }

  function Front(a: string): string
    requires a != []
  {
    a[..|a| - 1]
  }

  function Last(a: string): char
    requires a != []
  {
    a[|a| - 1]
  }

  /** What the table holds for the prefixes `a` and `b`. */
  function Lev(a: string, b: string): nat
    decreases |a| + |b|
  {
    if a == [] then |b|
    else if b == [] then |a|
    else
      Min(Min(Lev(Front(a), b) + 1, Lev(a, Front(b)) + 1),
          Lev(Front(a), Front(b)) + Mismatch(Last(a), Last(b)))
  }

  // ---- Scripts: what is done to each character, from left to right ----

  datatype Script =
    | Done
    | Insert(before: Script, y: char)
    | Delete(before: Script, x: char)
    | Replace(before: Script, x: char, y: char)

  function Source(s: Script): string
  {
    match s
    case Done => []
    case Insert(t, _) => Source(t)
    case Delete(t, x) => Source(t) + [x]
    case Replace(t, x, _) => Source(t) + [x]
  }

  function Target(s: Script): string
  {
    match s
    case Done => []
    case Insert(t, y) => Target(t) + [y]
    case Delete(t, _) => Target(t)
    case Replace(t, _, y) => Target(t) + [y]
  }

  /** Replacing a character by itself is free. */
  function Cost(s: Script): nat
  {
    match s
    case Done => 0
    case Insert(t, _) => Cost(t) + 1
    case Delete(t, _) => Cost(t) + 1
    case Replace(t, x, y) => Cost(t) + Mismatch(x, y)
  }

  predicate Turns(s: Script, a: string, b: string) { Source(s) == a && Target(s) == b }

  /** A script of the table's cost. */
  function Best(a: string, b: string): Script
    decreases |a| + |b|
  {
    if a == [] then (if b == [] then Done else Insert(Best(a, Front(b)), Last(b)))
    else if b == [] then Delete(Best(Front(a), b), Last(a))
    else Choose(a, b, Best(Front(a), b), Best(a, Front(b)), Best(Front(a), Front(b)))
  }

  /** The cheapest of the three ways to deal with the last characters. */
  function Choose(a: string, b: string, d: Script, i: Script, r: Script): Script
    requires a != [] && b != []
  {
    var del, ins, rep := Lev(Front(a), b) + 1, Lev(a, Front(b)) + 1,
                         Lev(Front(a), Front(b)) + Mismatch(Last(a), Last(b));
    if del <= ins && del <= rep then Delete(d, Last(a))
    else if ins <= rep then Insert(i, Last(b))
    else Replace(r, Last(a), Last(b))
  }

  lemma {:induction false} BestTurns(a: string, b: string)
    ensures Turns(Best(a, b), a, b) && Cost(Best(a, b)) == Lev(a, b)
    decreases |a| + |b|
  {
    if a == [] {
      if b != [] {
        BestTurns(a, Front(b));
        assert Front(b) + [Last(b)] == b;
      }
    } else if b == [] {
      BestTurns(Front(a), b);
      assert Front(a) + [Last(a)] == a;
    } else {
      hide Lev, Choose;
      BestTurns(Front(a), b);
      BestTurns(a, Front(b));
      BestTurns(Front(a), Front(b));
      BestUnfold(a, b);
      ChooseTurns(a, b, Best(Front(a), b), Best(a, Front(b)), Best(Front(a), Front(b)));
    }
  }

  lemma ChooseTurns(a: string, b: string, d: Script, i: Script, r: Script)
    requires a != [] && b != []
    requires Turns(d, Front(a), b) && Cost(d) == Lev(Front(a), b)
    requires Turns(i, a, Front(b)) && Cost(i) == Lev(a, Front(b))
    requires Turns(r, Front(a), Front(b)) && Cost(r) == Lev(Front(a), Front(b))
    ensures Turns(Choose(a, b, d, i, r), a, b) && Cost(Choose(a, b, d, i, r)) == Lev(a, b)
  {
    hide Lev;
    assert Front(a) + [Last(a)] == a && Front(b) + [Last(b)] == b;
    LevUnfold(a, b);
  }

  lemma LevUnfold(a: string, b: string)
    requires a != [] && b != []
    ensures Lev(a, b) ==
      Min(Min(Lev(Front(a), b) + 1, Lev(a, Front(b)) + 1),
          Lev(Front(a), Front(b)) + Mismatch(Last(a), Last(b)))
  {
    hide Min, Front, Last, Mismatch;
  }

  lemma BestUnfold(a: string, b: string)
    requires a != [] && b != []
    ensures Best(a, b) == Choose(a, b, Best(Front(a), b), Best(a, Front(b)), Best(Front(a), Front(b)))
  {
  }

  /** No script costs less than the table says. */
  lemma {:induction false} LevMinimal(s: Script)
    ensures Lev(Source(s), Target(s)) <= Cost(s)
  {
    var a, b := Source(s), Target(s);
    match s
    case Done =>
    case Insert(t, y) =>
      LevMinimal(t);
      assert Front(b) == Target(t);
    case Delete(t, x) =>
      LevMinimal(t);
      assert Front(a) == Source(t);
    case Replace(t, x, y) =>
      LevMinimal(t);
      assert Front(a) == Source(t) && Front(b) == Target(t);
  }

  /** Do `p`, then `q`. */
  function Compose(p: Script, q: Script): Script
    requires Target(p) == Source(q)
    decreases p, q
  {
    if p.Delete? then Delete(Compose(p.before, q), p.x)
    else if q.Insert? then Insert(Compose(p, q.before), q.y)
    else if p.Done? || q.Done? then Done
    else
      assert Target(p.before) == Front(Target(p)) && Source(q.before) == Front(Source(q));
      var rest := Compose(p.before, q.before);
      if p.Insert? && q.Delete? then rest
      else if p.Insert? then Insert(rest, q.y)
      else if q.Delete? then Delete(rest, p.x)
      else Replace(rest, p.x, q.y)
  }

  lemma {:induction false} ComposeTurns(p: Script, q: Script)
    requires Target(p) == Source(q)
    ensures Turns(Compose(p, q), Source(p), Target(q)) && Cost(Compose(p, q)) <= Cost(p) + Cost(q)
    decreases p, q
  {
    if p.Delete? {
      ComposeTurns(p.before, q);
    } else if q.Insert? {
      ComposeTurns(p, q.before);
    } else if !p.Done? && !q.Done? {
      assert Target(p.before) == Front(Target(p)) && Source(q.before) == Front(Source(q));
      assert Last(Target(p)) == Last(Source(q));
      ComposeTurns(p.before, q.before);
    }
  }

  function Reverse(s: Script): Script
  {
    match s
    case Done => Done
    case Insert(t, y) => Delete(Reverse(t), y)
    case Delete(t, x) => Insert(Reverse(t), x)
    case Replace(t, x, y) => Replace(Reverse(t), y, x)
  }

  lemma {:induction false} ReverseTurns(s: Script)
    ensures Turns(Reverse(s), Target(s), Source(s)) && Cost(Reverse(s)) == Cost(s)
  {
    if !s.Done? {
      ReverseTurns(s.before);
    }
  }

  // ---- The metric laws ----

  lemma TriangleInequality(a: string, b: string, c: string)
    ensures Lev(a, c) <= Lev(a, b) + Lev(b, c)
  {
    hide Lev, Best, Compose;
    BestTurns(a, b);
    BestTurns(b, c);
    ComposeTurns(Best(a, b), Best(b, c));
    LevMinimal(Compose(Best(a, b), Best(b, c)));
  }

  lemma {:induction false} Symmetric(a: string, b: string)
    ensures Lev(a, b) == Lev(b, a)
  {
    hide Lev, Best;
    BestTurns(a, b);
    BestTurns(b, a);
    ReverseTurns(Best(a, b));
    ReverseTurns(Best(b, a));
    LevMinimal(Reverse(Best(a, b)));
    LevMinimal(Reverse(Best(b, a)));
  }

  lemma {:induction false} FreeScript(s: Script)
    requires Cost(s) == 0
    ensures Source(s) == Target(s)
  {
    if !s.Done? {
      FreeScript(s.before);
    }
  }

  lemma {:induction false} ZeroIffEqual(a: string, b: string)
    ensures Lev(a, b) == 0 <==> a == b
    decreases |a|
  {
    if a == b {
      if a != [] {
        ZeroIffEqual(Front(a), Front(b));
      }
    } else {
      BestTurns(a, b);
      if Lev(a, b) == 0 {
        FreeScript(Best(a, b));
      }
    }
  }

  // ---- Shortest sequence of single edits ----

  /** One insertion, deletion or substitution of one character, anywhere. */
  ghost predicate OneEdit(s: string, t: string)
  {
    exists u, x, y, v :: EditAt(s, t, u, x, y, v)
  }

  predicate EditAt(s: string, t: string, u: string, x: string, y: string, v: string)
  {
    |x| <= 1 && |y| <= 1 && s == u + x + v && t == u + y + v
  }

  /** Each string of the path is one edit from the one before. */
  ghost predicate IsPath(p: seq<string>)
  {
    p != [] && forall i :: 0 <= i < |p| - 1 ==> OneEdit(p[i], p[i + 1])
  }

  /** Keep every character of `v` after the script `s`. */
  function KeepAll(s: Script, v: string): Script
  {
    if v == [] then s else Replace(KeepAll(s, Front(v)), Last(v), Last(v))
  }

  lemma {:induction false} KeepAllTurns(s: Script, v: string)
    ensures Turns(KeepAll(s, v), Source(s) + v, Target(s) + v) && Cost(KeepAll(s, v)) == Cost(s)
    decreases |v|
  {
    if v == [] {
      assert Source(s) + v == Source(s) && Target(s) + v == Target(s);
    } else {
      KeepAllTurns(s, Front(v));
      assert Front(v) + [Last(v)] == v;
      assert Source(s) + v == Source(s) + Front(v) + [Last(v)];
      assert Target(s) + v == Target(s) + Front(v) + [Last(v)];
    }
  }

  lemma OneEditDistance(s: string, t: string)
    requires OneEdit(s, t)
    ensures Lev(s, t) <= 1
  {
    hide Lev, KeepAll;
    var u, x, y, v :| EditAt(s, t, u, x, y, v);
    var kept := KeepAll(Done, u);
    KeepAllTurns(Done, u);
    assert [] + u == u;
    var mid :=
      if x == [] then (if y == [] then kept else Insert(kept, y[0]))
      else if y == [] then Delete(kept, x[0])
      else Replace(kept, x[0], y[0]);
    assert x == [] || x == [x[0]];
    assert y == [] || y == [y[0]];
    assert u + [] == u;
    assert Turns(mid, u + x, u + y);
    KeepAllTurns(mid, v);
    LevMinimal(KeepAll(mid, v));
  }

  /** No sequence of single edits is shorter than the distance. */
  lemma {:induction false} PathNotShorter(p: seq<string>)
    requires IsPath(p)
    ensures Lev(p[0], p[|p| - 1]) <= |p| - 1
    decreases |p|
  {
    hide Lev, OneEdit;
    var n := |p| - 1;
    if n == 0 {
      ZeroIffEqual(p[0], p[0]);
    } else {
      PathNotShorter(p[..n]);
      OneEditDistance(p[n - 1], p[n]);
      TriangleInequality(p[0], p[n - 1], p[n]);
    }
  }

  /** Appending the same character everywhere keeps a path a path. */
  function Appended(p: seq<string>, c: char): (q: seq<string>)
    ensures |q| == |p|
  {
    seq(|p|, i requires 0 <= i < |p| => p[i] + [c])
  }

  lemma AppendedPath(p: seq<string>, c: char)
    requires IsPath(p)
    ensures IsPath(Appended(p, c))
  {
    var q := Appended(p, c);
    forall i | 0 <= i < |q| - 1 ensures OneEdit(q[i], q[i + 1]) {
      assert OneEdit(p[i], p[i + 1]);
      var u, x, y, v :| EditAt(p[i], p[i + 1], u, x, y, v);
      assert q[i] == u + x + (v + [c]) && q[i + 1] == u + y + (v + [c]);
      assert EditAt(q[i], q[i + 1], u, x, y, v + [c]);
    }
  }

  lemma ExtendPath(p: seq<string>, t: string, u: string, x: string, y: string)
    requires IsPath(p) && |x| <= 1 && |y| <= 1
    requires p[|p| - 1] == u + x && t == u + y
    ensures IsPath(p + [t])
  {
    hide OneEdit;
    var q := p + [t];
    var s := p[|p| - 1];
    assert OneEdit(s, t) by {
      assert s == u + x + [] && t == u + y + [];
      LastEdit(s, t, u, x, y);
    }
    forall i | 0 <= i < |q| - 1 ensures OneEdit(q[i], q[i + 1]) {
      assert i < |p| - 1 ==> OneEdit(p[i], p[i + 1]);
    }
  }

  lemma LastEdit(s: string, t: string, u: string, x: string, y: string)
    requires EditAt(s, t, u, x, y, [])
    ensures OneEdit(s, t)
  {
  }

  /** A sequence of single edits of exactly the script's cost. */
  lemma {:induction false} ScriptPath(s: Script) returns (p: seq<string>)
    ensures IsPath(p) && p[0] == Source(s) && p[|p| - 1] == Target(s) && |p| - 1 == Cost(s)
  {
    hide OneEdit;
    match s
    case Done => p := [[]];
    case Insert(t, y) =>
      var q := ScriptPath(t);
      p := q + [Target(s)];
      assert Target(t) == Target(t) + [];
      ExtendPath(q, Target(s), Target(t), [], [y]);
    case Delete(t, x) =>
      var q := ScriptPath(t);
      AppendedPath(q, x);
      p := Appended(q, x) + [Target(s)];
      assert Target(s) == Target(t) + [];
      ExtendPath(Appended(q, x), Target(s), Target(t), [x], []);
    case Replace(t, x, y) =>
      var q := ScriptPath(t);
      AppendedPath(q, x);
      p := Appended(q, x);
      if x != y {
        ExtendPath(p, Target(s), Target(t), [x], [y]);
        p := p + [Target(s)];
      }
  }

  /** The table's value is the least number of single-character edits from `a` to `b`. */
  lemma LevIsShortest(a: string, b: string)
    ensures exists p :: IsPath(p) && p[0] == a && p[|p| - 1] == b && |p| - 1 == Lev(a, b)
    ensures forall p :: IsPath(p) && p[0] == a && p[|p| - 1] == b ==> Lev(a, b) <= |p| - 1
  {
    hide Lev, Best, OneEdit;
    BestTurns(a, b);
    var q := ScriptPath(Best(a, b));
    forall p | IsPath(p) && p[0] == a && p[|p| - 1] == b ensures Lev(a, b) <= |p| - 1 {
      PathNotShorter(p);
    }
  }

  // ---- The table ----

  /** What belongs in row `i`, column `j`. */
  function Cell(a: string, b: string, i: nat, j: nat): nat
    requires i <= |a| && j <= |b|
  {
    Lev(a[..i], b[..j])
  }

  lemma CellStep(a: string, b: string, i: nat, j: nat)
    requires 0 < i <= |a| && 0 < j <= |b|
    ensures Cell(a, b, i, j) ==
      Min(Min(Cell(a, b, i - 1, j) + 1, Cell(a, b, i, j - 1) + 1),
          Cell(a, b, i - 1, j - 1) + Mismatch(a[i - 1], b[j - 1]))
  {
    hide Min, Lev;
    assert Front(a[..i]) == a[..i - 1] && Front(b[..j]) == b[..j - 1];
    LevUnfold(a[..i], b[..j]);
  }

  lemma CellEdges(a: string, b: string)
    ensures forall k :: 0 <= k <= |a| ==> Cell(a, b, k, 0) == k
    ensures forall k :: 0 <= k <= |b| ==> Cell(a, b, 0, k) == k
    ensures Cell(a, b, |a|, |b|) == Lev(a, b)
  {
    hide Min;
    assert a[..|a|] == a && b[..|b|] == b;
  }

  ghost predicate TableFor(dp: array2<nat>, a: string, b: string)
  {
    dp.Length0 == |a| + 1 && dp.Length1 == |b| + 1
  }

  /** Row `i` of the table is filled in up to column `j`. */
  ghost predicate RowHolds(dp: array2<nat>, a: string, b: string, i: nat, j: nat)
    requires TableFor(dp, a, b) && i <= |a| && j <= |b| + 1
    reads dp
  {
    forall l :: 0 <= l < j ==> dp[i, l] == Cell(a, b, i, l)
  }

  ghost predicate EdgeHolds(dp: array2<nat>, a: string, b: string, i: nat)
    requires TableFor(dp, a, b) && i <= |a| + 1
    reads dp
  {
    forall k :: 0 <= k < i ==> dp[k, 0] == k
  }

  method FillEdges(dp: array2<nat>, a: string, b: string)
    requires TableFor(dp, a, b)
    modifies dp
    ensures EdgeHolds(dp, a, b, |a| + 1) && RowHolds(dp, a, b, 0, |b| + 1)
  {
    CellEdges(a, b);
    hide Cell;
    for i := 0 to |a| + 1
      invariant EdgeHolds(dp, a, b, i)
    {
      dp[i, 0] := i;
    }
    for j := 0 to |b| + 1
      invariant EdgeHolds(dp, a, b, |a| + 1) && RowHolds(dp, a, b, 0, j)
    {
      dp[0, j] := j;
    }
  }

  method FillRow(dp: array2<nat>, a: string, b: string, i: nat)
    requires TableFor(dp, a, b) && 0 < i <= |a|
    requires EdgeHolds(dp, a, b, |a| + 1) && RowHolds(dp, a, b, i - 1, |b| + 1)
    modifies dp
    ensures EdgeHolds(dp, a, b, |a| + 1) && RowHolds(dp, a, b, i, |b| + 1)
  {
    CellEdges(a, b);
    hide Cell, Min;
    for j := 1 to |b| + 1
      invariant EdgeHolds(dp, a, b, |a| + 1)
      invariant RowHolds(dp, a, b, i - 1, |b| + 1)
      invariant RowHolds(dp, a, b, i, j)
    {
      var cost := if a[i - 1] == b[j - 1] then 0 else 1;
      CellStep(a, b, i, j);
      dp[i, j] := Min(Min(dp[i - 1, j] + 1, dp[i, j - 1] + 1), dp[i - 1, j - 1] + cost);
    }
  }

  method EditDistanceOf(a: string, b: string) returns (d: nat)
    ensures d == Lev(a, b)
  {
    hide Cell, Lev;
    var m, n := |a|, |b|;
    var dp := new nat[m + 1, n + 1]((_, _) => 0);
    FillEdges(dp, a, b);
    for i := 1 to m + 1
      invariant EdgeHolds(dp, a, b, m + 1)
      invariant RowHolds(dp, a, b, i - 1, n + 1)
    {
      FillRow(dp, a, b, i);
    }
    CellEdges(a, b);
    d := dp[m, n];
  }
}
