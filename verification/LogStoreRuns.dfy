/** What every operation of the Raft log store keeps, and what a crash in the middle of one leaves. */
module LogStoreRuns {
  import opened Bytes
  import opened Options
  import opened RaftTypes
  import opened Framing
  import opened LogStoreSpec
  import opened Crc

  // ---- Replay ----

  lemma {:induction false} ReplayConcat(c: Codec, m: map<nat, Entry>, ps: seq<seq<byte>>, qs: seq<seq<byte>>)
    ensures Replay(c, m, ps + qs) == Replay(c, Replay(c, m, ps), qs)
    decreases |ps|
  {
    if ps == [] {
      assert ps + qs == qs;
    } else {
      assert (ps + qs)[1..] == ps[1..] + qs;
      ReplayConcat(c, ReplayPayload(c, m, ps[0]), ps[1..], qs);
    }
  }

  lemma ReplayOne(c: Codec, m: map<nat, Entry>, ps: seq<seq<byte>>, p: seq<byte>)
    ensures Replay(c, m, ps + [p]) == ReplayPayload(c, Replay(c, m, ps), p)
  {
    ReplayConcat(c, m, ps, [p]);
    var n := Replay(c, m, ps);
    assert Replay(c, n, [p]) == Replay(c, ReplayPayload(c, n, p), [p][1..]);
  }

  ghost predicate Keyed(log: map<nat, Entry>) { forall k :: k in log ==> log[k].id.index == k }

  lemma {:induction false} ReplayKeyed(c: Codec, m: map<nat, Entry>, ps: seq<seq<byte>>)
    requires Keyed(m)
    ensures Keyed(Replay(c, m, ps))
    decreases |ps|
  {
    if ps != [] {
      ReplayKeyed(c, ReplayPayload(c, m, ps[0]), ps[1..]);
    }
  }

  lemma SubMapSize(m: map<nat, Entry>, n: map<nat, Entry>)
    requires m.Keys <= n.Keys
    ensures |m| <= |n|
    ensures |m| == |n| ==> m.Keys == n.Keys
  {
    SubsetSize(m.Keys, n.Keys);
    assert |m.Keys| == |m| && |n.Keys| == |n|;
  }

  lemma {:induction false} SubsetSize(a: set<nat>, b: set<nat>)
    requires a <= b
    ensures |a| <= |b|
    ensures |a| == |b| ==> a == b
    decreases |a|
  {
    if a != {} {
      var x :| x in a;
      SubsetSize(a - {x}, b - {x});
      if |a| == |b| {
        assert a == a - {x} + {x} == b - {x} + {x} == b;
      }
    } else if |b| == 0 {
      assert b == {};
    }
  }

  lemma ReplayPayloadSize(c: Codec, m: map<nat, Entry>, p: seq<byte>)
    ensures |ReplayPayload(c, m, p)| <= |m| + 1
    ensures |ReplayPayload(c, m, p)| == |m| + 1 ==>
      exists e :: c.decode(p) == Some(Append(e)) && e.id.index !in m
  {
    match c.decode(p)
    case None =>
    case Some(Append(e)) =>
      assert (m[e.id.index := e]).Keys == m.Keys + {e.id.index};
    case Some(Truncate(from)) => SubMapSize(Below(m, from), m);
  }

  /** Record `i` of the log is live: an append that `log` still holds and no other record repeats. */
  ghost predicate LiveRecord(c: Codec, ps: seq<seq<byte>>, log: map<nat, Entry>, i: nat)
    requires i < |ps|
  {
    exists e :: c.decode(ps[i]) == Some(Append(e)) && e.id.index in log && log[e.id.index] == e
      && forall j, f :: 0 <= j < |ps| && j != i && c.decode(ps[j]) == Some(Append(f)) ==> f.id.index != e.id.index
  }

  /** A log cannot hold more entries than its file holds records; equally many only if none is dead. */
  lemma {:induction false} ReplaySize(c: Codec, ps: seq<seq<byte>>)
    ensures |Replay(c, map[], ps)| <= |ps|
    ensures |Replay(c, map[], ps)| == |ps| ==> forall i :: 0 <= i < |ps| ==> LiveRecord(c, ps, Replay(c, map[], ps), i)
    decreases |ps|
  {
    if ps != [] {
      var front, p := ps[..|ps| - 1], ps[|ps| - 1];
      assert ps == front + [p];
      var m := Replay(c, map[], front);
      ReplayOne(c, map[], front, p);
      ReplaySize(c, front);
      ReplayPayloadSize(c, m, p);
      if |Replay(c, map[], ps)| == |ps| {
        var e :| c.decode(p) == Some(Append(e)) && e.id.index !in m;
        forall i | 0 <= i < |ps| ensures LiveRecord(c, ps, Replay(c, map[], ps), i) {
          LastAddsLive(c, front, p, m, e, i);
        }
      }
    }
  }

  lemma LastAddsLive(c: Codec, front: seq<seq<byte>>, p: seq<byte>, m: map<nat, Entry>, e: Entry, i: nat)
    requires forall j :: 0 <= j < |front| ==> LiveRecord(c, front, m, j)
    requires c.decode(p) == Some(Append(e)) && e.id.index !in m
    requires i <= |front|
    ensures LiveRecord(c, front + [p], m[e.id.index := e], i)
  {
    var ps, n := front + [p], m[e.id.index := e];
    var g :=
      if i == |front| then e
      else
        assert LiveRecord(c, front, m, i);
        var g :| c.decode(front[i]) == Some(Append(g)) && g.id.index in m && m[g.id.index] == g
          && forall j, f :: 0 <= j < |front| && j != i && c.decode(front[j]) == Some(Append(f)) ==>
               f.id.index != g.id.index;
        g;
    assert c.decode(ps[i]) == Some(Append(g)) && g.id.index in n && n[g.id.index] == g;
    forall j, f | 0 <= j < |ps| && j != i && c.decode(ps[j]) == Some(Append(f)) ensures f.id.index != g.id.index {
      if j < |front| {
        assert ps[j] == front[j];
        assert LiveRecord(c, front, m, j);
      }
    }
  }

  // ---- What an observer of the store sees ----

  datatype Seen = Seen(log: map<nat, Entry>, purged: Option<LogId>, vote: Option<Vote>)

  function Observed(m: Memory): Seen { Seen(m.log, m.purged, m.vote) }

  /** The durable steps an operation is made of. */
  datatype Change = Added(entry: Entry) | CutFrom(index: nat) | PurgedTo(id: LogId) | VotedFor(vote: Vote)

  function Change1(v: Seen, g: Change): Seen
  {
    match g
    case Added(e) => v.(log := v.log[e.id.index := e])
    case CutFrom(i) => v.(log := Below(v.log, i))
    case PurgedTo(id) => v.(log := Above(v.log, Some(id)), purged := Some(id))
    case VotedFor(w) => v.(vote := Some(w))
  }

  function Changed(v: Seen, gs: seq<Change>): Seen
    decreases |gs|
  {
    if gs == [] then v else Changed(Change1(v, gs[0]), gs[1..])
  }

  function Changes(op: Op): seq<Change>
  {
    match op
    case AppendOp(es) => Adds(es)
    case TruncateOp(id) => [CutFrom(id.index)]
    case PurgeOp(id) => [PurgedTo(id)]
    case VoteOp(v) => [VotedFor(v)]
    case CompactOp => []
    case ThresholdOp(_) => []
    case ReopenOp => []
  }

  predicate AbovePurge(purged: Option<LogId>, index: nat) { purged.None? || index > purged.value.index }

  /** What Raft guarantees its log store: no append at or below the purge point, no purge going back. */
  ghost predicate Legal(c: Codec, v: Seen, g: Change)
  {
    match g
    case Added(e) => AbovePurge(v.purged, e.id.index) && Fits(c.encode(Append(e)))
    case CutFrom(i) => Fits(c.encode(Truncate(i)))
    case PurgedTo(id) => v.purged.None? || v.purged.value.index <= id.index
    case VotedFor(_) => true
  }

  ghost predicate AllLegal(c: Codec, v: Seen, gs: seq<Change>)
    decreases |gs|
  {
    gs == [] || (Legal(c, v, gs[0]) && AllLegal(c, Change1(v, gs[0]), gs[1..]))
  }

  // ---- The invariant ----

  ghost predicate LogFits(c: Codec, log: map<nat, Entry>) { forall k :: k in log ==> Fits(c.encode(Append(log[k]))) }

  /** The log file is the frames of `ps`, and replaying them shows `v`. */
  ghost predicate Faithful(c: Codec, d: Disk, ps: seq<seq<byte>>, v: Seen)
  {
    && AllFit(ps)
    && d.wal == Frames(ChecksumLast, ps)
    && v == Seen(Above(Replay(c, map[], ps), d.purge), d.purge, d.vote)
    && LogFits(c, v.log)
  }

  lemma FaithfulReopens(c: Codec, d: Disk, ps: seq<seq<byte>>, v: Seen)
    requires Faithful(c, d, ps, v)
    ensures Observed(Reopen(c, d)) == v
    ensures Reopen(c, d).total == |ps|
  {
    PayloadsOfFrames(ChecksumLast, ps, []);
    assert Frames(ChecksumLast, ps) + [] == Frames(ChecksumLast, ps);
    assert ps + [] == ps;
  }

  function RecordOf(g: Change): WalRecord
    requires g.Added? || g.CutFrom?
  {
    if g.Added? then Append(g.entry) else Truncate(g.index)
  }

  lemma ReplayCommutes(m: map<nat, Entry>, purged: Option<LogId>, g: Change)
    requires g.Added? || g.CutFrom?
    requires g.Added? ==> AbovePurge(purged, g.entry.id.index)
    ensures Above(ReplayRecord(m, RecordOf(g)), purged) == ReplayRecord(Above(m, purged), RecordOf(g))
  {
  }

  lemma ExtendFaithful(c: Codec, d: Disk, ps: seq<seq<byte>>, v: Seen, g: Change)
    requires Lawful(c) && Faithful(c, d, ps, v)
    requires (g.Added? || g.CutFrom?) && Legal(c, v, g)
    ensures var p := c.encode(RecordOf(g));
      Faithful(c, Perform(d, Extend(Frame(ChecksumLast, p))), ps + [p], Change1(v, g))
  {
    var r := RecordOf(g);
    var p := c.encode(r);
    FramesAppend(ChecksumLast, ps, p);
    ReplayOne(c, map[], ps, p);
    ReplayCommutes(Replay(c, map[], ps), d.purge, g);
    assert c.decode(p) == Some(r);
  }

  /** A record cut short by a crash is as if never written. */
  lemma TornExtend(c: Codec, d: Disk, ps: seq<seq<byte>>, v: Seen, p: seq<byte>, k: nat)
    requires Faithful(c, d, ps, v) && Fits(p)
    requires k < |Frame(ChecksumLast, p)|
    ensures Observed(Reopen(c, d.(wal := d.wal + Frame(ChecksumLast, p)[..k]))) == v
  {
    hide Frame, ReadFrame;
    ReadFrameCut(ChecksumLast, p, k);
    PayloadsOfFrames(ChecksumLast, ps, Frame(ChecksumLast, p)[..k]);
    assert ps + [] == ps;
  }

  lemma PurgeFaithful(c: Codec, d: Disk, ps: seq<seq<byte>>, v: Seen, id: LogId)
    requires Faithful(c, d, ps, v)
    requires Legal(c, v, PurgedTo(id))
    ensures Faithful(c, Perform(d, SetPurge(id)), ps, Change1(v, PurgedTo(id)))
  {
    hide Replay, Frames;
    AboveLater(Replay(c, map[], ps), d.purge, id);
  }

  lemma AboveLater(m: map<nat, Entry>, purged: Option<LogId>, id: LogId)
    requires purged.None? || purged.value.index <= id.index
    ensures Above(Above(m, purged), Some(id)) == Above(m, Some(id))
  {
  }

  lemma VoteFaithful(c: Codec, d: Disk, ps: seq<seq<byte>>, v: Seen, vote: Vote)
    requires Faithful(c, d, ps, v)
    ensures Faithful(c, Perform(d, SetVote(vote)), ps, Change1(v, VotedFor(vote)))
  {
  }

  // ---- Compaction ----

  lemma LeastIsKey(log: map<nat, Entry>)
    requires log != map[]
    ensures Least(log.Keys) in log
  {
  }

  lemma MinusKeySize<T>(log: map<nat, T>, k: nat)
    requires k in log
    ensures |log - {k}| == |log| - 1
  {
  }

  lemma MinusKey<T>(m: map<nat, T>, log: map<nat, T>, k: nat)
    requires k in log
    ensures m[k := log[k]] + (log - {k}) == m + log
  {
  }

  lemma {:induction false} PutValues(m: map<nat, Entry>, log: map<nat, Entry>)
    requires Keyed(log)
    ensures |Values(log)| == |log|
    ensures Put(m, Values(log)) == m + log
    decreases |log|
  {
    hide Least;
    if log == map[] {
      assert m + log == m;
    } else {
      var k := Least(log.Keys);
      LeastIsKey(log);
      MinusKey(m, log, k);
      MinusKeySize(log, k);
      PutValues(m[k := log[k]], log - {k});
    }
  }

  lemma {:induction false} ReplayTexts(c: Codec, m: map<nat, Entry>, es: seq<Entry>)
    requires Lawful(c)
    ensures Replay(c, m, Texts(c, es)) == Put(m, es)
    decreases |es|
  {
    if es != [] {
      var ps := Texts(c, es);
      assert ps[1..] == Texts(c, es[1..]);
      assert c.decode(ps[0]) == Some(Append(es[0]));
      ReplayTexts(c, m[es[0].id.index := es[0]], es[1..]);
    }
  }

  lemma {:induction false} ValuesFrom(log: map<nat, Entry>, i: nat)
    requires i < |Values(log)|
    ensures exists k :: k in log && Values(log)[i] == log[k]
    decreases |log|
  {
    if log != map[] {
      var k := Least(log.Keys);
      if i > 0 {
        ValuesFrom(log - {k}, i - 1);
      }
    }
  }

  lemma AboveTwice(m: map<nat, Entry>, purged: Option<LogId>)
    ensures Above(Above(m, purged), purged) == Above(m, purged)
    ensures Keyed(m) ==> Keyed(Above(m, purged))
  {
  }

  /** Writing the live entries in key order and replaying them gives the live entries. */
  lemma ReplayValues(c: Codec, log: map<nat, Entry>)
    requires Lawful(c) && Keyed(log)
    ensures Replay(c, map[], Texts(c, Values(log))) == log
    ensures |Texts(c, Values(log))| == |log|
  {
    hide Values, Replay, Put;
    PutValues(map[], log);
    ReplayTexts(c, map[], Values(log));
    assert map[] + log == log;
  }

  lemma ValuesFit(c: Codec, log: map<nat, Entry>)
    requires forall k :: k in log ==> Fits(c.encode(Append(log[k])))
    ensures AllFit(Texts(c, Values(log)))
  {
    hide Values;
    forall i | 0 <= i < |Values(log)| ensures Fits(Texts(c, Values(log))[i]) {
      ValuesFrom(log, i);
    }
  }

  lemma CompactFaithful(c: Codec, d: Disk, ps: seq<seq<byte>>, v: Seen)
    requires Lawful(c) && Faithful(c, d, ps, v)
    ensures var qs := Texts(c, Values(v.log));
      && |qs| == |v.log|
      && Faithful(c, d.(wal := Frames(ChecksumLast, qs), scratch := []), qs, v)
  {
    hide Values, Replay, Above, Texts;
    ReplayKeyed(c, map[], ps);
    AboveTwice(Replay(c, map[], ps), d.purge);
    ReplayValues(c, v.log);
    ValuesFit(c, v.log);
  }

  // ---- One operation ----

  function Adds(es: seq<Entry>): (gs: seq<Change>)
    ensures |gs| == |es|
  {
    seq(|es|, i requires 0 <= i < |es| => Added(es[i]))
  }

  ghost predicate Sound(c: Codec, s: Store, ps: seq<seq<byte>>)
  {
    && s.durable
    && Faithful(c, s.disk, ps, Observed(s.mem))
    && s.mem.total >= |ps|
  }

  lemma AddsUnfold(c: Codec, es: seq<Entry>)
    requires es != []
    ensures Adds(es)[0] == Added(es[0]) && Adds(es)[1..] == Adds(es[1..])
    ensures Texts(c, es) == [c.encode(Append(es[0]))] + Texts(c, es[1..])
    ensures Extends(c, es)[0] == Extend(Frame(ChecksumLast, c.encode(Append(es[0]))))
    ensures Extends(c, es)[1..] == Extends(c, es[1..])
  {
  }

  lemma {:induction false} AppendFaithful(c: Codec, d: Disk, ps: seq<seq<byte>>, v: Seen, es: seq<Entry>)
    requires Lawful(c) && Faithful(c, d, ps, v) && AllLegal(c, v, Adds(es))
    ensures Changed(v, Adds(es)) == v.(log := Put(v.log, es))
    ensures Faithful(c, PerformAll(d, Extends(c, es)), ps + Texts(c, es), Changed(v, Adds(es)))
    decreases |es|
  {
    hide Faithful, Frame, Texts, Extends, Adds;
    if es == [] {
      NoEntries(c, ps);
    } else {
      AddsUnfold(c, es);
      var p := c.encode(Append(es[0]));
      ExtendFaithful(c, d, ps, v, Added(es[0]));
      AppendFaithful(c, Perform(d, Extend(Frame(ChecksumLast, p))), ps + [p], Change1(v, Added(es[0])), es[1..]);
      Assoc(ps, [p], Texts(c, es[1..]));
    }
  }

  lemma NoEntries(c: Codec, ps: seq<seq<byte>>)
    ensures Adds([]) == [] && Extends(c, []) == [] && ps + Texts(c, []) == ps
  {
  }

  /** A crash in the middle of an append keeps a first part of the entries. */
  lemma {:induction false} AppendCrash(c: Codec, d: Disk, ps: seq<seq<byte>>, v: Seen, es: seq<Entry>, crashed: Disk)
    returns (j: nat)
    requires Lawful(c) && Faithful(c, d, ps, v) && AllLegal(c, v, Adds(es))
    requires MidWrites(d, Extends(c, es), crashed)
    ensures j <= |es|
    ensures Observed(Reopen(c, crashed)) == Changed(v, Adds(es)[..j])
    decreases |es|
  {
    hide Faithful, Frame, Texts, Extends, Reopen, Replay;
    FaithfulReopens(c, d, ps, v);
    j := 0;
    if crashed != d {
      if es == [] {
        NoEntries(c, ps);
      } else {
        AddsUnfold(c, es);
        var p := c.encode(Append(es[0]));
        var w := Extend(Frame(ChecksumLast, p));
        ExtendFaithful(c, d, ps, v, Added(es[0]));
        var next := Perform(d, w);
        if MidWrites(next, Extends(c, es[1..]), crashed) {
          var i := AppendCrash(c, next, ps + [p], Change1(v, Added(es[0])), es[1..], crashed);
          j := i + 1;
          assert Adds(es)[..j][1..] == Adds(es[1..])[..i];
        } else {
          var k :| 0 <= k <= |w.bytes| && crashed == d.(wal := d.wal + w.bytes[..k]);
          TornExtend(c, d, ps, v, p, k);
        }
      }
    }
  }

  lemma ScratchIgnored(c: Codec, d: Disk, ps: seq<seq<byte>>, v: Seen, scratch: seq<byte>)
    requires Faithful(c, d, ps, v)
    ensures Faithful(c, d.(scratch := scratch), ps, v)
  {
  }

  /** Compaction shows the same log at every moment; the rename switches to the live records. */
  lemma CompactCrash(c: Codec, d: Disk, ps: seq<seq<byte>>, v: Seen, m: Memory, crashed: Disk)
    requires Lawful(c) && Faithful(c, d, ps, v) && m.log == v.log
    requires MidWrites(d, CompactWrites(c, m), crashed)
    ensures Observed(Reopen(c, crashed)) == v
  {
    hide Faithful, Reopen, Texts, Values, Frames;
    FaithfulReopens(c, d, ps, v);
    if crashed != d {
      var qs := Texts(c, Values(v.log));
      var bytes := Frames(ChecksumLast, qs);
      var ws := CompactWrites(c, m);
      var filled := d.(scratch := bytes);
      MidTwoWrites(d, ws[0], RenameScratch, crashed);
      CompactFaithful(c, d, ps, v);
      var renamed := d.(wal := bytes, scratch := []);
      assert renamed == Perform(filled, RenameScratch);
      if crashed == renamed {
        FaithfulReopens(c, renamed, qs, v);
      } else {
        assert MidWrite(d, ws[0], crashed) || crashed == filled;
        assert crashed == d.(scratch := crashed.scratch);
        ScratchIgnored(c, d, ps, v, crashed.scratch);
        FaithfulReopens(c, crashed, ps, v);
      }
    }
  }

  lemma FaithfulSize(c: Codec, d: Disk, ps: seq<seq<byte>>, v: Seen)
    requires Faithful(c, d, ps, v)
    ensures |v.log| <= |ps|
    ensures |v.log| == |ps| ==> forall i :: 0 <= i < |ps| ==> LiveRecord(c, ps, v.log, i)
  {
    hide Replay, LiveRecord;
    var m := Replay(c, map[], ps);
    ReplaySize(c, ps);
    SubMapSize(v.log, m);
    if |v.log| == |ps| {
      assert v.log == m;
    }
  }

  lemma CompactSound(c: Codec, d: Disk, ps: seq<seq<byte>>, m: Memory) returns (qs: seq<seq<byte>>)
    requires Lawful(c) && Faithful(c, d, ps, Observed(m)) && m.total >= |ps|
    ensures Faithful(c, PerformAll(d, CompactWrites(c, m)), qs, Observed(m))
    ensures Compacted(m).total >= |qs| && Observed(Compacted(m)) == Observed(m)
    ensures |qs| == |m.log|
  {
    hide Faithful, Texts, Values, Frames;
    qs := ps;
    FaithfulSize(c, d, ps, Observed(m));
    if Dead(m) != 0 {
      CompactFaithful(c, d, ps, Observed(m));
      qs := Texts(c, Values(m.log));
      TwoWrites(d, FillScratch(Frames(ChecksumLast, qs)), RenameScratch);
    }
  }

  lemma TwoWrites(d: Disk, w: Write, x: Write)
    ensures PerformAll(d, [w, x]) == Perform(Perform(d, w), x)
  {
    assert [w, x][1..] == [x];
    OneWrite(Perform(d, w), x);
  }

  lemma MidTwoWrites(d: Disk, w: Write, x: Write, crashed: Disk)
    requires MidWrites(d, [w, x], crashed)
    ensures MidWrite(d, w, crashed) || MidWrite(Perform(d, w), x, crashed)
  {
    hide MidWrite, Perform;
    assert [w, x][1..] == [x];
    MidWriteEnds(d, w);
    if MidWrites(Perform(d, w), [x], crashed) {
      MidOneWrite(Perform(d, w), x, crashed);
    }
  }

  lemma MidOneWrite(d: Disk, w: Write, crashed: Disk)
    requires MidWrites(d, [w], crashed)
    ensures MidWrite(d, w, crashed)
  {
  }

  lemma MidWriteEnds(d: Disk, w: Write)
    ensures MidWrite(d, w, d) && MidWrite(d, w, Perform(d, w))
  {
  }

  lemma {:induction false} PerformConcat(d: Disk, ws: seq<Write>, xs: seq<Write>)
    ensures PerformAll(d, ws + xs) == PerformAll(PerformAll(d, ws), xs)
    decreases |ws|
  {
    if ws == [] {
      assert ws + xs == xs;
    } else {
      assert (ws + xs)[1..] == ws[1..] + xs;
      PerformConcat(Perform(d, ws[0]), ws[1..], xs);
    }
  }

  /** Every operation keeps the store sound and changes what is seen by its durable steps. */
  lemma StepSound(c: Codec, s: Store, ps: seq<seq<byte>>, op: Op) returns (qs: seq<seq<byte>>)
    requires Lawful(c) && Sound(c, s, ps) && AllLegal(c, Observed(s.mem), Changes(op))
    ensures Sound(c, Next(c, s, op), qs)
    ensures Observed(Next(c, s, op).mem) == Changed(Observed(s.mem), Changes(op))
    ensures op.PurgeOp? ==> |qs| - |Next(c, s, op).mem.log| <= s.mem.threshold
    ensures op.CompactOp? ==> |qs| == |Next(c, s, op).mem.log|
  {
    hide Faithful, Frame, Texts, Values, Frames, Reopen, CompactWrites, Put, Above, Below, Extends;
    var v, d := Observed(s.mem), s.disk;
    match op
    case AppendOp(es) =>
      AppendFaithful(c, d, ps, v, es);
      qs := ps + Texts(c, es);
      TextsLength(c, es);
    case TruncateOp(id) =>
      ExtendFaithful(c, d, ps, v, CutFrom(id.index));
      var p := c.encode(Truncate(id.index));
      qs := ps + [p];
      OneWrite(d, Extend(Frame(ChecksumLast, p)));
      OneChange(v, CutFrom(id.index));
    case PurgeOp(id) =>
      PurgeFaithful(c, d, ps, v, id);
      OneChange(v, PurgedTo(id));
      OneWrite(d, SetPurge(id));
      qs := ps;
      if PurgeCompacts(s.mem, id) {
        qs := CompactSound(c, Perform(d, SetPurge(id)), ps, Purged(s.mem, id));
        PerformConcat(d, [SetPurge(id)], CompactWrites(c, Purged(s.mem, id)));
      }
    case CompactOp => qs := CompactSound(c, d, ps, s.mem);
    case VoteOp(vote) =>
      VoteFaithful(c, d, ps, v, vote);
      OneChange(v, VotedFor(vote));
      OneWrite(d, SetVote(vote));
      qs := ps;
    case ThresholdOp(_) => qs := ps;
    case ReopenOp =>
      FaithfulReopens(c, d, ps, v);
      qs := ps;
  }

  lemma TextsLength(c: Codec, es: seq<Entry>)
    ensures |Texts(c, es)| == |es|
  {
  }

  /** A crash can leave every first part of the bytes on their way to a file, and an emptied purge or vote file. */
  lemma EveryCut(d: Disk, b: seq<byte>, k: nat, id: LogId, vote: Vote)
    requires k <= |b|
    ensures MidWrites(d, [Extend(b)], d.(wal := d.wal + b[..k]))
    ensures MidWrites(d, [FillScratch(b)], d.(scratch := b[..k]))
    ensures MidWrites(d, [SetPurge(id)], d.(purge := None)) && MidWrites(d, [SetVote(vote)], d.(vote := None))
  {
  }

  lemma OneWrite(d: Disk, w: Write)
    ensures PerformAll(d, [w]) == Perform(d, w)
    ensures PerformAll(d, [w] + []) == Perform(d, w)
  {
  }

  lemma OneChange(v: Seen, g: Change)
    ensures Changed(v, [g]) == Change1(v, g)
  {
  }

  /** The crash emptied a purge or vote file that held something, and did not get to fill it again. */
  predicate Forgets(d: Disk, op: Op, crashed: Disk)
  {
    || (op.PurgeOp? && d.purge.Some? && crashed == d.(purge := None))
    || (op.VoteOp? && d.vote.Some? && crashed == d.(vote := None))
  }

  /**
   * A crash at any byte of any write of any operation reopens to some first part of its durable
   * steps, exactly unless it emptied a purge or vote file that held something.
   */
  lemma StepCrash(c: Codec, s: Store, ps: seq<seq<byte>>, op: Op, crashed: Disk) returns (j: nat)
    requires Lawful(c) && Sound(c, s, ps) && AllLegal(c, Observed(s.mem), Changes(op))
    requires MidWrites(s.disk, Writes(c, s, op), crashed)
    ensures j <= |Changes(op)|
    ensures !Forgets(s.disk, op, crashed) ==>
      Observed(Reopen(c, crashed)) == Changed(Observed(s.mem), Changes(op)[..j])
    ensures Forgets(s.disk, op, crashed) ==>
      forall i :: 0 <= i <= |Changes(op)| ==> Observed(Reopen(c, crashed)) != Changed(Observed(s.mem), Changes(op)[..i])
  {
    hide Faithful, Frame, Texts, Values, Frames, Reopen, CompactWrites, Put, Above, Below, Extends, Perform, MidWrite;
    var v, d := Observed(s.mem), s.disk;
    FaithfulReopens(c, d, ps, v);
    j := 0;
    if Forgets(d, op, crashed) {
      ForgottenStep(c, s, ps, op, crashed);
    } else if crashed != d {
      match op
      case AppendOp(es) => j := AppendCrash(c, d, ps, v, es, crashed);
      case TruncateOp(id) =>
        MidOneWrite(d, Writes(c, s, op)[0], crashed);
        j := TruncateCrash(c, d, ps, v, id.index, crashed);
      case PurgeOp(id) => j := PurgeCrash(c, s, ps, id, crashed);
      case CompactOp => CompactCrash(c, d, ps, v, s.mem, crashed);
      case VoteOp(vote) =>
        MidOneWrite(d, SetVote(vote), crashed);
        MidReplacement(d, SetVote(vote), crashed);
        VoteFaithful(c, d, ps, v, vote);
        FaithfulReopens(c, crashed, ps, Change1(v, VotedFor(vote)));
        j := 1;
        OneChange(v, VotedFor(vote));
      case ThresholdOp(_) =>
      case ReopenOp =>
    }
  }

  lemma NoChange(v: Seen)
    ensures Changed(v, []) == v
  {
  }

  /** Replacing a file whole, a crash in between apart. */
  lemma MidReplacement(d: Disk, w: Write, crashed: Disk)
    requires w.SetPurge? || w.SetVote?
    requires MidWrite(d, w, crashed)
    requires w.SetPurge? ==> !(d.purge.Some? && crashed == d.(purge := None))
    requires w.SetVote? ==> !(d.vote.Some? && crashed == d.(vote := None))
    ensures crashed == d || crashed == Perform(d, w)
  {
  }

  /** No step of a purge or a vote leaves the purge point or the vote unset that was set. */
  lemma ForgottenStep(c: Codec, s: Store, ps: seq<seq<byte>>, op: Op, crashed: Disk)
    requires Sound(c, s, ps) && Forgets(s.disk, op, crashed)
    ensures forall i :: 0 <= i <= |Changes(op)| ==>
      Observed(Reopen(c, crashed)) != Changed(Observed(s.mem), Changes(op)[..i])
  {
    hide Replay, Above, Payloads, Changed, Below;
    var v := Observed(s.mem);
    var g := Changes(op)[0];
    OneChange(v, g);
    NoChange(v);
    forall i | 0 <= i <= 1 ensures Changed(v, [g][..i]) == if i == 0 then v else Change1(v, g) {
      assert i == 1 ==> [g][..i] == [g];
    }
  }

  /**
   * A purge file cut short is opened as none: all entries the log file still holds are back, and
   * this is the state before or after the purge exactly when there was no purge point before.
   */
  lemma TornPurgeIff(c: Codec, d: Disk, ps: seq<seq<byte>>, v: Seen, id: LogId)
    requires Faithful(c, d, ps, v)
    ensures var torn := Observed(Reopen(c, d.(purge := None)));
      && torn.log == Replay(c, map[], ps) && torn.purged == None
      && ((torn == v || torn == Change1(v, PurgedTo(id))) <==> v.purged.None?)
  {
    hide Replay;
    var e := d.(purge := None);
    PayloadsOfFrames(ChecksumLast, ps, []);
    assert Frames(ChecksumLast, ps) + [] == Frames(ChecksumLast, ps);
    assert ps + [] == ps;
  }

  lemma WithoutVote(c: Codec, d: Disk, ps: seq<seq<byte>>, v: Seen)
    requires Faithful(c, d, ps, v)
    ensures Faithful(c, d.(vote := None), ps, v.(vote := None))
  {
  }

  /** A vote file cut short forgets the vote, so a second one may be cast in the same term. */
  lemma TornVoteIff(c: Codec, d: Disk, ps: seq<seq<byte>>, v: Seen, vote: Vote)
    requires Faithful(c, d, ps, v)
    ensures var torn := Observed(Reopen(c, d.(vote := None)));
      torn == v.(vote := None) && ((torn == v || torn == Change1(v, VotedFor(vote))) <==> v.vote.None?)
  {
    hide Faithful, Reopen;
    WithoutVote(c, d, ps, v);
    FaithfulReopens(c, d.(vote := None), ps, v.(vote := None));
  }

  lemma TruncateCrash(c: Codec, d: Disk, ps: seq<seq<byte>>, v: Seen, index: nat, crashed: Disk) returns (j: nat)
    requires Lawful(c) && Faithful(c, d, ps, v) && Legal(c, v, CutFrom(index))
    requires MidWrite(d, Extend(Frame(ChecksumLast, c.encode(Truncate(index)))), crashed)
    ensures j <= 1
    ensures Observed(Reopen(c, crashed)) == Changed(v, [CutFrom(index)][..j])
  {
    hide Faithful, Frame, Reopen, Below;
    var p := c.encode(Truncate(index));
    var f := Frame(ChecksumLast, p);
    FaithfulReopens(c, d, ps, v);
    ExtendFaithful(c, d, ps, v, CutFrom(index));
    FaithfulReopens(c, Perform(d, Extend(f)), ps + [p], Change1(v, CutFrom(index)));
    OneChange(v, CutFrom(index));
    if crashed == Perform(d, Extend(f)) {
      j := 1;
    } else {
      j := 0;
      if crashed != d {
        var k :| 0 <= k <= |f| && crashed == d.(wal := d.wal + f[..k]);
        TornExtend(c, d, ps, v, p, k);
      }
    }
  }

  lemma PurgeCrash(c: Codec, s: Store, ps: seq<seq<byte>>, id: LogId, crashed: Disk) returns (j: nat)
    requires Lawful(c) && Sound(c, s, ps) && Legal(c, Observed(s.mem), PurgedTo(id))
    requires MidWrites(s.disk, Writes(c, s, PurgeOp(id)), crashed) && !Forgets(s.disk, PurgeOp(id), crashed)
    ensures j <= 1
    ensures Observed(Reopen(c, crashed)) == Changed(Observed(s.mem), [PurgedTo(id)][..j])
  {
    hide Faithful, Reopen, CompactWrites, Above, Perform, MidWrite;
    var v, d := Observed(s.mem), s.disk;
    var w, m := SetPurge(id), Purged(s.mem, id);
    FaithfulReopens(c, d, ps, v);
    PurgeFaithful(c, d, ps, v, id);
    var next := Perform(d, w);
    FaithfulReopens(c, next, ps, Change1(v, PurgedTo(id)));
    OneChange(v, PurgedTo(id));
    var rest := if PurgeCompacts(s.mem, id) then CompactWrites(c, m) else [];
    assert ([w] + rest)[1..] == rest;
    if crashed == d {
      j := 0;
    } else {
      j := 1;
      if MidWrites(next, rest, crashed) {
        if PurgeCompacts(s.mem, id) {
          CompactCrash(c, next, ps, Change1(v, PurgedTo(id)), m, crashed);
        }
      } else {
        MidReplacement(d, w, crashed);
      }
    }
  }

  lemma {:induction false} ChangedConcat(v: Seen, gs: seq<Change>, hs: seq<Change>)
    ensures Changed(v, gs + hs) == Changed(Changed(v, gs), hs)
    decreases |gs|
  {
    if gs == [] {
      assert gs + hs == hs;
    } else {
      assert (gs + hs)[1..] == gs[1..] + hs;
      ChangedConcat(Change1(v, gs[0]), gs[1..], hs);
    }
  }
}
