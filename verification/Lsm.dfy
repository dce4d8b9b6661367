/** Leveled compaction of an LSM tree: run counts and sizes per level. */
module Lsm {
  import opened Options

  datatype Level = Level(runs: nat, maxRuns: nat, size: nat)

  predicate NeedsCompaction(v: Level) { v.runs >= v.maxRuns }

  function AddRun(v: Level, size: nat): Level { v.(runs := v.runs + 1, size := v.size + size) }

  function ClearRuns(v: Level): Level { v.(runs := 0, size := 0) }

  /** All bytes on all levels. */
  function TotalBytes(levels: seq<Level>): nat
  {
    if levels == [] then 0 else levels[0].size + TotalBytes(levels[1..])
  }

  /** Every run counted once for each level it still has to descend. */
  function Weight(levels: seq<Level>): nat
  {
    if levels == [] then 0 else levels[0].runs * (|levels| - 1) + Weight(levels[1..])
  }

  /** No level but the last is due. */
  predicate Settled(levels: seq<Level>) { forall i :: 0 <= i < |levels| - 1 ==> !NeedsCompaction(levels[i]) }

  /** What `compact_all` needs to terminate: levels above the last hold at least one run. */
  predicate Limited(levels: seq<Level>) { forall i :: 0 <= i < |levels| - 1 ==> levels[i].maxRuns >= 1 }

  predicate SameLimits(a: seq<Level>, b: seq<Level>)
  {
    |a| == |b| && forall i :: 0 <= i < |a| ==> a[i].maxRuns == b[i].maxRuns
  }

  /** Merge the runs of level `i` into one run of level `i + 1`. */
  function Merge(levels: seq<Level>, i: nat): (r: seq<Level>)
    requires i + 1 < |levels|
    ensures SameLimits(r, levels)
  {
    levels[i := ClearRuns(levels[i])][i + 1 := AddRun(levels[i + 1], levels[i].size)]
  }

  // ---- One merge ----

  /** The level is empty afterwards, the next one has one run and all of its bytes more, the others are as before. */
  lemma MergeMeans(levels: seq<Level>, i: nat)
    requires i + 1 < |levels|
    ensures var r := Merge(levels, i);
      && |r| == |levels| && r[i].runs == 0 && r[i].size == 0
      && r[i + 1].runs == levels[i + 1].runs + 1 && r[i + 1].size == levels[i + 1].size + levels[i].size
      && forall j :: 0 <= j < |r| && j != i && j != i + 1 ==> r[j] == levels[j]
  {
  }

  lemma {:induction false} MergeKeepsBytes(levels: seq<Level>, i: nat)
    requires i + 1 < |levels|
    ensures TotalBytes(Merge(levels, i)) == TotalBytes(levels)
    decreases i
  {
    var r := Merge(levels, i);
    if i == 0 {
      assert r[1..][1..] == levels[1..][1..];
      assert r[1..][0] == AddRun(levels[1..][0], levels[0].size);
    } else {
      assert r[1..] == Merge(levels[1..], i - 1);
      MergeKeepsBytes(levels[1..], i - 1);
    }
  }

  /** A merge of at least one run loses weight. */
  lemma {:induction false} MergeLosesWeight(levels: seq<Level>, i: nat)
    requires i + 1 < |levels| && levels[i].runs >= 1
    ensures Weight(Merge(levels, i)) < Weight(levels)
    decreases i
  {
    var r := Merge(levels, i);
    if i == 0 {
      var n := |levels|;
      assert r[1..][1..] == levels[1..][1..];
      assert Weight(r) == (levels[1].runs + 1) * (n - 2) + Weight(levels[1..][1..]);
      assert Weight(levels) == levels[0].runs * (n - 1) + levels[1].runs * (n - 2) + Weight(levels[1..][1..]);
      assert (levels[1].runs + 1) * (n - 2) == levels[1].runs * (n - 2) + (n - 2);
      AtLeastOnce(levels[0].runs, n - 1);
    } else {
      assert r[1..] == Merge(levels[1..], i - 1);
      MergeLosesWeight(levels[1..], i - 1);
    }
  }

  lemma AtLeastOnce(a: nat, b: nat)
    requires a >= 1
    ensures a * b >= b
  {
  }

  // ---- One round ----

  datatype RoundResult = RoundResult(levels: seq<Level>, merges: nat)

  /** The levels after the part of a round that starts at level `i`, and the merges it made. */
  function Round(levels: seq<Level>, i: nat): RoundResult
    decreases |levels| - i
  {
    if i + 1 >= |levels| then RoundResult(levels, 0)
    else if NeedsCompaction(levels[i]) then
      var rest := Round(Merge(levels, i), i + 1);
      rest.(merges := rest.merges + 1)
    else Round(levels, i + 1)
  }

  /** The bytes moved by that part of the round. */
  function RoundBytes(levels: seq<Level>, i: nat): nat
    decreases |levels| - i
  {
    if i + 1 >= |levels| then 0
    else if NeedsCompaction(levels[i]) then levels[i].size + RoundBytes(Merge(levels, i), i + 1)
    else RoundBytes(levels, i + 1)
  }

  lemma {:induction false} RoundKeeps(levels: seq<Level>, i: nat)
    ensures var RoundResult(r, n) := Round(levels, i);
      && TotalBytes(r) == TotalBytes(levels)
      && SameLimits(r, levels)
      && (n == 0 ==> r == levels && forall j :: i <= j < |levels| - 1 ==> !NeedsCompaction(levels[j]))
      && (Limited(levels) ==> Weight(r) <= Weight(levels) && (n > 0 ==> Weight(r) < Weight(levels)))
    decreases |levels| - i
  {
    hide TotalBytes, Weight, Merge;
    if i + 1 < |levels| {
      if NeedsCompaction(levels[i]) {
        MergeKeepsBytes(levels, i);
        MergeLimits(levels, i);
        if Limited(levels) {
          MergeLosesWeight(levels, i);
        }
        RoundKeeps(Merge(levels, i), i + 1);
      } else {
        RoundKeeps(levels, i + 1);
      }
    }
  }

  /** A level with one more run of the given bytes, if there is one. */
  function With(v: Level, run: Option<nat>): Level
  {
    if run.None? then v else Level(v.runs + 1, v.maxRuns, v.size + run.value)
  }

  /** The bytes a round merges into level `j`, if the level above it is due by then. */
  function Inflow(levels: seq<Level>, j: nat): Option<nat>
    requires j <= |levels|
  {
    if j == 0 then None
    else
      var v := With(levels[j - 1], Inflow(levels, j - 1));
      if v.runs >= v.maxRuns then Some(v.size) else None
  }

  /** The levels from `i` on that a round finds due. */
  function DueFrom(levels: seq<Level>, i: nat): nat
    requires i < |levels|
    decreases |levels| - i
  {
    if i + 1 == |levels| then 0 else (if Inflow(levels, i + 1).Some? then 1 else 0) + DueFrom(levels, i + 1)
  }

  /** A round, level by level: what comes from above is added, and a level then due is emptied downwards. */
  lemma RoundMeans(levels: seq<Level>, j: nat)
    requires j < |levels|
    ensures |Round(levels, 0).levels| == |levels|
    ensures var v := With(levels[j], Inflow(levels, j));
      Round(levels, 0).levels[j] ==
        if j + 1 < |levels| && v.runs >= v.maxRuns then Level(0, v.maxRuns, 0) else v
    ensures Round(levels, 0).merges == DueFrom(levels, 0)
  {
    RoundFrom(levels, levels, 0, j);
  }

  lemma {:induction false} RoundFrom(levels: seq<Level>, now: seq<Level>, i: nat, j: nat)
    requires |now| == |levels| && i < |levels| && j < |levels| && now[i] == With(levels[i], Inflow(levels, i))
    requires forall k :: i < k < |levels| ==> now[k] == levels[k]
    ensures var r, v := Round(now, i).levels, With(levels[j], Inflow(levels, j));
      && |r| == |levels| && (j < i ==> r[j] == now[j])
      && (j >= i ==> r[j] == if j + 1 < |levels| && v.runs >= v.maxRuns then Level(0, v.maxRuns, 0) else v)
    ensures Round(now, i).merges == DueFrom(levels, i)
    decreases |levels| - i
  {
    if i + 1 < |levels| {
      RoundFrom(levels, if NeedsCompaction(now[i]) then Merge(now, i) else now, i + 1, j);
    }
  }

  /** Bytes times the number of levels above them. */
  function Depth(levels: seq<Level>, above: nat): nat
  {
    if levels == [] then 0 else above * levels[0].size + Depth(levels[1..], above + 1)
  }

  /** A merge sinks the bytes of its level by one. */
  lemma {:induction false} MergeSinks(levels: seq<Level>, i: nat, above: nat)
    requires i + 1 < |levels|
    ensures Depth(Merge(levels, i), above) == Depth(levels, above) + levels[i].size
    decreases i
  {
    var r := Merge(levels, i);
    if i == 0 {
      var a, b := levels[0].size, levels[1].size;
      assert r[1..][1..] == levels[1..][1..] && r[0].size == 0 && r[1].size == b + a;
      assert (above + 1) * (b + a) == above * a + (above + 1) * b + a;
    } else {
      assert r[1..] == Merge(levels[1..], i - 1);
      MergeSinks(levels[1..], i - 1, above + 1);
    }
  }

  /** The bytes a round counts are those it sank, once for every level they sank. */
  lemma {:induction false} RoundBytesSink(levels: seq<Level>, i: nat)
    ensures Depth(Round(levels, i).levels, 0) == Depth(levels, 0) + RoundBytes(levels, i)
    decreases |levels| - i
  {
    hide Depth, Merge;
    if i + 1 < |levels| {
      if NeedsCompaction(levels[i]) {
        MergeLimits(levels, i);
        MergeSinks(levels, i, 0);
        RoundBytesSink(Merge(levels, i), i + 1);
      } else {
        RoundBytesSink(levels, i + 1);
      }
    }
  }

  // ---- Flushes ----

  function Flushed(levels: seq<Level>, size: nat): seq<Level>
  {
    if levels == [] then [] else levels[0 := AddRun(levels[0], size)]
  }

  function FlushedAll(levels: seq<Level>, sizes: seq<nat>): seq<Level>
    decreases |sizes|
  {
    if sizes == [] then levels else FlushedAll(Flushed(levels, sizes[0]), sizes[1..])
  }

  function Sum(sizes: seq<nat>): nat { if sizes == [] then 0 else sizes[0] + Sum(sizes[1..]) }

  lemma {:induction false} FlushesAddRuns(levels: seq<Level>, sizes: seq<nat>)
    requires levels != []
    ensures var r := FlushedAll(levels, sizes);
      && |r| == |levels| && r[1..] == levels[1..] && r[0].maxRuns == levels[0].maxRuns
      && r[0].runs == levels[0].runs + |sizes| && r[0].size == levels[0].size + Sum(sizes)
    decreases |sizes|
  {
    if sizes != [] {
      FlushesAddRuns(Flushed(levels, sizes[0]), sizes[1..]);
    }
  }

  /** Flushes to an empty first level are merged down by the next round exactly once the limit is reached. */
  lemma FlushesMergeIff(levels: seq<Level>, sizes: seq<nat>)
    requires |levels| >= 2 && levels[0].runs == 0 && levels[0].size == 0
    ensures var full, limit := FlushedAll(levels, sizes), levels[0].maxRuns;
      && |full| == |Round(full, 0).levels| == |levels|
      && (|sizes| >= limit ==> Round(full, 0).levels[0] == Level(0, limit, 0) && Round(full, 0).merges > 0)
      && (|sizes| < limit ==> Round(full, 0).levels[0] == Level(|sizes|, limit, Sum(sizes)))
      && Inflow(full, 1) == if |sizes| >= limit then Some(Sum(sizes)) else None
  {
    hide Merge, FlushedAll;
    FlushesAddRuns(levels, sizes);
    var full := FlushedAll(levels, sizes);
    RoundMeans(full, 0);
    assert Inflow(full, 0) == None;
  }

  lemma MergeLimits(levels: seq<Level>, i: nat)
    requires i + 1 < |levels|
    ensures SameLimits(Merge(levels, i), levels)
  {
  }

  /** A level that may hold no run is due in every round, so rounds never stop merging. */
  lemma {:induction false} ZeroLimitNeverSettles(levels: seq<Level>, i: nat, z: nat)
    requires i <= z < |levels| - 1 && levels[z].maxRuns == 0
    ensures Round(levels, i).merges > 0
    decreases |levels| - i
  {
    if i < z && !NeedsCompaction(levels[i]) {
      ZeroLimitNeverSettles(levels, i + 1, z);
    }
  }

  class LsmCompactor {
    var levels: seq<Level>
    var totalCompactions: nat
    var totalBytesCompacted: nat

    constructor (numLevels: nat, l0MaxRuns: nat, sizeRatio: nat)
      ensures levels == seq(numLevels, i => Level(0, if i == 0 then l0MaxRuns else sizeRatio, 0))
      ensures totalCompactions == 0 && totalBytesCompacted == 0
      ensures l0MaxRuns >= 1 && sizeRatio >= 1 ==> Limited(levels)
    {
      levels := seq(numLevels, i => Level(0, if i == 0 then l0MaxRuns else sizeRatio, 0));
      totalCompactions, totalBytesCompacted := 0, 0;
    }

    /** Without a level the bytes are dropped; otherwise they land on the first one. */
    method FlushMemtable(size: nat)
      modifies this`levels
      ensures SameLimits(levels, old(levels))
      ensures TotalBytes(levels) == TotalBytes(old(levels)) + if old(levels) == [] then 0 else size
      ensures levels == Flushed(old(levels), size)
      ensures levels != [] ==>
        && levels[0].runs == old(levels)[0].runs + 1 && levels[0].size == old(levels)[0].size + size
        && levels[1..] == old(levels)[1..]
    {
      if levels != [] {
        levels := levels[0 := AddRun(levels[0], size)];
      }
    }

    /** One round, from the first level down. */
    method Compact() returns (compactions: nat)
      modifies this
      ensures RoundResult(levels, compactions) == Round(old(levels), 0)
      ensures totalCompactions == old(totalCompactions) + compactions
      ensures totalBytesCompacted == old(totalBytesCompacted) + RoundBytes(old(levels), 0)
    {
      hide Merge;
      compactions := 0;
      var n := if |levels| == 0 then 0 else |levels| - 1;
      for i := 0 to n
        invariant |levels| == |old(levels)|
        invariant totalCompactions == old(totalCompactions)
        invariant old(totalBytesCompacted) + RoundBytes(old(levels), 0) == totalBytesCompacted + RoundBytes(levels, i)
        invariant Round(old(levels), 0) == RoundResult(Round(levels, i).levels, compactions + Round(levels, i).merges)
      {
        if NeedsCompaction(levels[i]) {
          MergeLimits(levels, i);
          totalBytesCompacted := totalBytesCompacted + levels[i].size;
          levels := Merge(levels, i);
          compactions := compactions + 1;
        }
      }
      totalCompactions := totalCompactions + compactions;
    }

    /**
     * With run limits of at least one, repeated rounds stop: every level but the last is
     * within its limit, and no byte was lost or made up on the way.
     */
    method CompactAll() returns (total: nat)
      requires Limited(levels)
      modifies this
      ensures Settled(levels) && SameLimits(levels, old(levels))
      ensures TotalBytes(levels) == TotalBytes(old(levels))
      ensures totalCompactions == old(totalCompactions) + total
      ensures total == 0 <==> Settled(old(levels))
      ensures total == 0 ==> levels == old(levels)
    {
      hide TotalBytes, Weight, Round;
      total := 0;
      while true
        invariant SameLimits(levels, old(levels)) && TotalBytes(levels) == TotalBytes(old(levels))
        invariant totalCompactions == old(totalCompactions) + total
        invariant total == 0 ==> levels == old(levels)
        invariant total > 0 ==> !Settled(old(levels))
        decreases Weight(levels)
      {
        RoundKeeps(levels, 0);
        SettledIff(levels);
        var n := Compact();
        if n == 0 {
          return;
        }
        total := total + n;
      }
    }
  }

  /** A round merges nothing exactly when no level but the last is due. */
  lemma SettledIff(levels: seq<Level>)
    ensures Round(levels, 0).merges == 0 <==> Settled(levels)
  {
    hide TotalBytes, Weight;
    RoundKeeps(levels, 0);
    if Settled(levels) {
      QuietRound(levels, 0);
    }
  }

  lemma {:induction false} QuietRound(levels: seq<Level>, i: nat)
    requires Settled(levels)
    ensures Round(levels, i) == RoundResult(levels, 0)
    decreases |levels| - i
  {
    if i + 1 < |levels| {
      QuietRound(levels, i + 1);
    }
  }

  /** `compact_all` settles within as many rounds as the weight; a zero limit keeps every round busy. */
  function Rounds(levels: seq<Level>, k: nat): seq<Level>
    decreases k
  {
    if k == 0 then levels else Rounds(Round(levels, 0).levels, k - 1)
  }

  lemma {:induction false} RoundsSettle(levels: seq<Level>, k: nat)
    requires Limited(levels) && k >= Weight(levels)
    ensures Settled(Rounds(levels, k))
    decreases k
  {
    hide Weight, Round, Settled;
    RoundKeeps(levels, 0);
    SettledIff(levels);
    if k > 0 {
      var r := Round(levels, 0);
      if r.merges > 0 {
        RoundsSettle(r.levels, k - 1);
      } else {
        RoundsStay(levels, k);
      }
    }
  }

  lemma {:induction false} RoundsStay(levels: seq<Level>, k: nat)
    requires Settled(levels)
    ensures Rounds(levels, k) == levels
    decreases k
  {
    hide Round;
    QuietRound(levels, 0);
    if k > 0 {
      RoundsStay(levels, k - 1);
    }
  }

  lemma {:induction false} RoundsNeverSettle(levels: seq<Level>, k: nat, z: nat)
    requires z < |levels| - 1 && levels[z].maxRuns == 0
    ensures !Settled(Rounds(levels, k))
    decreases k
  {
    RoundKeeps(levels, 0);
    ZeroLimitNeverSettles(levels, 0, z);
    SettledIff(levels);
    if k > 0 {
      RoundsNeverSettle(Round(levels, 0).levels, k - 1, z);
    }
  }

  /** The rounds of `compact_all` come to one without merges exactly when every limit but the last is positive. */
  lemma CompactAllTerminatesIff(levels: seq<Level>)
    ensures (exists k :: Settled(Rounds(levels, k))) <==> Limited(levels)
  {
    hide Rounds, Settled, Weight;
    if Limited(levels) {
      RoundsSettle(levels, Weight(levels));
    } else {
      var z :| 0 <= z < |levels| - 1 && levels[z].maxRuns == 0;
      forall k ensures !Settled(Rounds(levels, k)) {
        RoundsNeverSettle(levels, k, z);
      }
    }
  }
}
