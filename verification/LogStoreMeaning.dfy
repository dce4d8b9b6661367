/** What the Raft log store does to its entries, index by index, and to its counters. */
module LogStoreMeaning {
  import opened Bytes
  import opened Options
  import opened RaftTypes
  import opened Framing
  import opened LogStoreSpec
  import opened LogStoreRuns

  // ---- Replay ----

  /** Record `i` put an entry at index `k`, and no later record puts another there or cuts it off. */
  ghost predicate Decides(c: Codec, ps: seq<seq<byte>>, i: int, k: nat)
  {
    && 0 <= i < |ps|
    && (exists e :: c.decode(ps[i]) == Some(Append(e)) && e.id.index == k)
    && forall j :: i < j < |ps| ==> LeavesAlone(c, ps[j], k)
  }

  ghost predicate LeavesAlone(c: Codec, p: seq<byte>, k: nat)
  {
    match c.decode(p)
    case None => true
    case Some(Append(e)) => e.id.index != k
    case Some(Truncate(from)) => k < from
  }

  /** The entry at an index is the last one appended there, unless a later truncation reached down to it. */
  lemma {:induction false} ReplayIff(c: Codec, ps: seq<seq<byte>>, k: nat)
    ensures k in Replay(c, map[], ps) <==> exists i :: Decides(c, ps, i, k)
    ensures forall i :: Decides(c, ps, i, k) && k in Replay(c, map[], ps) ==>
      c.decode(ps[i]) == Some(Append(Replay(c, map[], ps)[k]))
    decreases |ps|
  {
    if ps != [] {
      var n := |ps| - 1;
      var front := ps[..n];
      assert ps == front + [ps[n]];
      ReplayOne(c, map[], front, ps[n]);
      ReplayIff(c, front, k);
      LastRecord(c, ps, k);
    }
  }

  lemma LastRecord(c: Codec, ps: seq<seq<byte>>, k: nat)
    requires ps != []
    ensures var n := |ps| - 1;
      && (Decides(c, ps, n, k) <==> exists e :: c.decode(ps[n]) == Some(Append(e)) && e.id.index == k)
      && forall i :: i < n ==> (Decides(c, ps, i, k) <==> Decides(c, ps[..n], i, k) && LeavesAlone(c, ps[n], k))
  {
    var n := |ps| - 1;
    forall i | i < n ensures Decides(c, ps, i, k) <==> Decides(c, ps[..n], i, k) && LeavesAlone(c, ps[n], k) {
      assert forall j :: 0 <= j < n ==> ps[..n][j] == ps[j];
    }
  }

  // ---- Entries after an operation ----

  /** `es[i]` is the last of the entries for index `k`. */
  predicate LastFor(es: seq<Entry>, i: int, k: nat)
  {
    0 <= i < |es| && es[i].id.index == k && forall j :: i < j < |es| ==> es[j].id.index != k
  }

  lemma {:induction false} PutMeans(log: map<nat, Entry>, es: seq<Entry>, k: nat)
    ensures k in Put(log, es) <==> k in log || exists i :: 0 <= i < |es| && es[i].id.index == k
    ensures forall i :: LastFor(es, i, k) ==> k in Put(log, es) && Put(log, es)[k] == es[i]
    ensures (forall i :: 0 <= i < |es| ==> es[i].id.index != k) && k in log ==> Put(log, es)[k] == log[k]
    decreases |es|
  {
    if es != [] {
      var rest := es[1..];
      PutMeans(log[es[0].id.index := es[0]], rest, k);
      forall i | LastFor(es, i, k) ensures k in Put(log, es) && Put(log, es)[k] == es[i] {
        if i > 0 {
          assert LastFor(rest, i - 1, k);
        }
      }
    }
  }

  /** An append leaves at each index the last of its entries for that index, or what was there. */
  lemma AppendMeans(c: Codec, s: Store, es: seq<Entry>, k: nat)
    ensures var log := NextMemory(c, s, AppendOp(es)).log;
      && (k in log <==> k in s.mem.log || exists i :: 0 <= i < |es| && es[i].id.index == k)
      && (forall i :: LastFor(es, i, k) ==> k in log && log[k] == es[i])
      && ((forall i :: 0 <= i < |es| ==> es[i].id.index != k) && k in s.mem.log ==> log[k] == s.mem.log[k])
  {
    PutMeans(s.mem.log, es, k);
  }

  /** A truncation keeps exactly the entries below its index. */
  lemma TruncateMeans(c: Codec, s: Store, id: LogId, k: nat)
    ensures var log := NextMemory(c, s, TruncateOp(id)).log;
      (k in log <==> k in s.mem.log && k < id.index) && (k in log ==> log[k] == s.mem.log[k])
  {
  }

  /** A purge keeps exactly the entries above its index, and sets the purge point, whether it compacts or not. */
  lemma PurgeMeans(c: Codec, s: Store, id: LogId, k: nat)
    ensures var m := NextMemory(c, s, PurgeOp(id));
      && m.purged == Some(id) && m.vote == s.mem.vote
      && (k in m.log <==> k in s.mem.log && k > id.index) && (k in m.log ==> m.log[k] == s.mem.log[k])
  {
  }

  /** All of that survives a reopen, after every legal operation. */
  lemma OperationReopens(c: Codec, s: Store, ps: seq<seq<byte>>, op: Op)
    requires Lawful(c) && Sound(c, s, ps) && AllLegal(c, Observed(s.mem), Changes(op))
    ensures var t := Next(c, s, op);
      Reopen(c, t.disk).log == NextMemory(c, s, op).log && Reopen(c, t.disk).purged == t.mem.purged
      && Reopen(c, t.disk).vote == t.mem.vote
  {
    hide Sound, AllLegal, NextMemory, Writes, Changes, Reopen;
    var qs := StepSound(c, s, ps, op);
    SoundReopens(c, Next(c, s, op), qs);
  }

  lemma SoundReopens(c: Codec, s: Store, ps: seq<seq<byte>>)
    requires Sound(c, s, ps)
    ensures Observed(Reopen(c, s.disk)) == Observed(s.mem)
  {
    hide Faithful, Reopen;
    FaithfulReopens(c, s.disk, ps, Observed(s.mem));
  }

  /** After a legal truncation the file gives back exactly the entries below its index. */
  lemma TruncateReopens(c: Codec, s: Store, ps: seq<seq<byte>>, id: LogId, k: nat)
    requires Lawful(c) && Sound(c, s, ps) && AllLegal(c, Observed(s.mem), Changes(TruncateOp(id)))
    ensures var log := Reopen(c, Next(c, s, TruncateOp(id)).disk).log;
      (k in log <==> k in s.mem.log && k < id.index) && (k in log ==> log[k] == s.mem.log[k])
  {
    hide Sound, AllLegal, NextMemory, Next, Changes, Reopen;
    OperationReopens(c, s, ps, TruncateOp(id));
    TruncateMeans(c, s, id, k);
  }

  // ---- Counters ----

  lemma KeysSplit(log: map<nat, Entry>, kept: map<nat, Entry>, gone: set<nat>)
    requires kept.Keys + gone == log.Keys && kept.Keys !! gone
    ensures |kept| + |gone| == |log|
  {
    assert |kept.Keys| == |kept| && |log.Keys| == |log|;
  }

  /** A truncation counts its own record, and once more every entry it removes. */
  lemma TruncateCounts(c: Codec, s: Store, id: LogId)
    ensures var m := NextMemory(c, s, TruncateOp(id));
      m.total == if s.durable then s.mem.total + 1 + (|s.mem.log| - |m.log|) else s.mem.total
  {
    var log := s.mem.log;
    KeysSplit(log, Below(log, id.index), set k | k in log && k >= id.index);
  }

  /**
   * A purge compacts exactly when the records that are not live, with the purged ones counted
   * once more, exceed the threshold; then every record left is live.
   */
  lemma PurgeCompactsIff(c: Codec, s: Store, id: LogId)
    requires s.durable && s.mem.total >= |s.mem.log|
    ensures var m := NextMemory(c, s, PurgeOp(id));
      var dead, purged := s.mem.total - |m.log|, |s.mem.log| - |m.log|;
      && dead >= purged >= 0
      && m.threshold == s.mem.threshold
      && if dead + purged > s.mem.threshold && dead > 0
         then m.total == |m.log| && m.compactions == s.mem.compactions + 1 && m.eliminated == s.mem.eliminated + dead
         else m.total == s.mem.total && m.compactions == s.mem.compactions && m.eliminated == s.mem.eliminated
  {
    var log := s.mem.log;
    KeysSplit(log, Above(log, Some(id)), set k | k in log && k <= id.index);
  }

  // ---- The compacted file ----

  /** `ks` are the keys of the log, each once and ascending. */
  ghost predicate KeysInOrder(log: map<nat, Entry>, ks: seq<nat>)
  {
    (forall i, j :: 0 <= i < j < |ks| ==> ks[i] < ks[j]) && forall k :: k in ks <==> k in log
  }

  /** A compaction writes the live entries by ascending index. */
  lemma {:induction false} ValuesInOrder(log: map<nat, Entry>) returns (ks: seq<nat>)
    ensures KeysInOrder(log, ks) && |Values(log)| == |ks|
    ensures forall i :: 0 <= i < |ks| ==> ks[i] in log && Values(log)[i] == log[ks[i]]
    decreases |log|
  {
    hide Least, KeysInOrder, Values;
    if log == map[] {
      ks := [];
      NoKeys(log);
    } else {
      var k := Least(log.Keys);
      LeastOf(log);
      MinusKeySize(log, k);
      var rest := ValuesInOrder(log - {k});
      ks := [k] + rest;
      LeastFirst(log, k, rest);
    }
  }

  lemma NoKeys(log: map<nat, Entry>)
    requires log == map[]
    ensures KeysInOrder(log, []) && Values(log) == []
  {
  }

  lemma LeastOf(log: map<nat, Entry>)
    requires log != map[]
    ensures var k := Least(log.Keys);
      IsLeast(k, log.Keys) && k in log && Values(log) == [log[k]] + Values(log - {k})
  {
  }

  lemma LeastFirst(log: map<nat, Entry>, k: nat, rest: seq<nat>)
    requires IsLeast(k, log.Keys) && KeysInOrder(log - {k}, rest)
    ensures KeysInOrder(log, [k] + rest)
  {
    forall j | 0 <= j < |rest| ensures k < rest[j] {
      assert rest[j] in rest;
    }
  }
}
