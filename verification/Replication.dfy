/** Incremental pull replication: the leader's stream endpoint and the follower that replays it. */
module Replication {
  import opened Bytes
  import opened Options
  import opened Framing
  import opened Base64
  import opened LogRecords
  import opened BinlogSpec
  import opened Binlog
  import opened Ascending

  /** One line of the stream: the offset after a record, and its framed bytes in base64. */
  datatype Line = Line(pos: nat, data: seq<char>)

  function Lines(frames: seq<(nat, seq<byte>)>): (ls: seq<Line>)
    ensures |ls| == |frames|
  {
    seq(|frames|, i requires 0 <= i < |frames| => Line(frames[i].0, Encode(frames[i].1)))
  }

  /** The endpoint `GET /binlog/stream`. */
  method Serve(leader: BinlogManager, from: nat) returns (ls: seq<Line>)
    ensures ls == Lines(Scan(if leader.durable then leader.file else leader.memBuf, from))
  {
    hide Encode;
    var frames := leader.ReadFrom(from);
    ls := [];
    for i := 0 to |frames|
      invariant ls == Lines(frames)[..i]
    {
      var data := EncodeText(frames[i].1);
      ls := ls + [Line(frames[i].0, data)];
    }
  }

  /** What the follower makes of a response: an error, or the records that decode, with their offsets. */
  function Pulled(ls: seq<Line>): Option<seq<(nat, LogRecord)>>
  {
    if ls == [] then Some([])
    else
      match Decode(ls[0].data)
      case None => None
      case Some(framed) => Kept(RecordOf(ls[0].pos, framed), Pulled(ls[1..]))
  }

  /** The record behind the 8-byte header, if there is one that decodes. */
  function RecordOf(pos: nat, framed: seq<byte>): seq<(nat, LogRecord)>
  {
    if |framed| < 8 then []
    else
      match DecRecord(framed[8..], 0)
      case None => []
      case Some((r, _)) => [(pos, r)]
  }

  function Kept(first: seq<(nat, LogRecord)>, rest: Option<seq<(nat, LogRecord)>>): Option<seq<(nat, LogRecord)>>
  {
    if rest.None? then None else Some(first + rest.value)
  }

  /** Line `i` holds no record: its frame is too short, or what is behind the header does not decode. */
  ghost predicate Skipped(l: Line)
  {
    Decode(l.data).Some? && (|Decode(l.data).value| < 8 || DecRecord(Decode(l.data).value[8..], 0).None?)
  }

  ghost predicate Delivers(l: Line, pos: nat, r: LogRecord)
  {
    && l.pos == pos && Decode(l.data).Some? && |Decode(l.data).value| >= 8
    && DecRecord(Decode(l.data).value[8..], 0).Some? && DecRecord(Decode(l.data).value[8..], 0).value.0 == r
  }

  /** The batch is the records of the lines at `at`, in their order; all other lines are skipped. */
  ghost predicate BatchOf(batch: seq<(nat, LogRecord)>, ls: seq<Line>, at: seq<nat>)
  {
    && Ascends(at, |ls|) && |batch| == |at|
    && (forall k :: 0 <= k < |at| ==> Delivers(ls[at[k]], batch[k].0, batch[k].1))
    && forall i :: 0 <= i < |ls| && i !in at ==> Skipped(ls[i])
  }

  lemma {:induction false} PulledConcat(a: seq<Line>, b: seq<Line>)
    ensures Pulled(a + b) ==
      if Pulled(a).None? || Pulled(b).None? then None else Some(Pulled(a).value + Pulled(b).value)
    decreases |a|
  {
    hide Decode, RecordOf;
    if a == [] {
      assert a + b == b;
      KeptEnds([], Pulled(b));
    } else {
      assert (a + b)[1..] == a[1..] + b;
      PulledConcat(a[1..], b);
      if Pulled(a[1..]).Some? && Pulled(b).Some? && Decode(a[0].data).Some? {
        Assoc(RecordOf(a[0].pos, Decode(a[0].data).value), Pulled(a[1..]).value, Pulled(b).value);
      }
    }
  }

  lemma PulledOne(l: Line)
    ensures Pulled([l]) ==
      if Decode(l.data).None? then None else Some(RecordOf(l.pos, Decode(l.data).value))
  {
    hide Decode, RecordOf;
    assert [l][1..] == [];
    assert Pulled([]) == Some([]);
    if Decode(l.data).Some? {
      KeptEnds(RecordOf(l.pos, Decode(l.data).value), None);
    }
  }

  /** A response is an error exactly when some line is not base64; otherwise it gives its records, in order. */
  lemma {:induction false} PulledMeans(ls: seq<Line>) returns (at: seq<nat>)
    ensures Pulled(ls).None? <==> exists i :: 0 <= i < |ls| && Decode(ls[i].data).None?
    ensures Pulled(ls).Some? ==> BatchOf(Pulled(ls).value, ls, at)
    decreases |ls|
  {
    hide Decode, RecordOf, Pulled, BatchOf;
    if ls == [] {
      at := [];
      NothingPulled();
    } else {
      var n := |ls| - 1;
      assert ls == ls[..n] + [ls[n]];
      var front := PulledMeans(ls[..n]);
      PulledConcat(ls[..n], [ls[n]]);
      PulledOne(ls[n]);
      at := front;
      if Pulled(ls).Some? {
        at := BatchSnoc(Pulled(ls[..n]).value, ls, front);
      }
    }
  }

  lemma NothingPulled()
    ensures Pulled([]) == Some([]) && BatchOf([], [], [])
  {
  }

  lemma BatchSnoc(batch: seq<(nat, LogRecord)>, ls: seq<Line>, front: seq<nat>) returns (at: seq<nat>)
    requires ls != [] && BatchOf(batch, ls[..|ls| - 1], front) && Decode(ls[|ls| - 1].data).Some?
    ensures BatchOf(batch + RecordOf(ls[|ls| - 1].pos, Decode(ls[|ls| - 1].data).value), ls, at)
  {
    hide Decode, DecRecord, Ascends;
    var n := |ls| - 1;
    var found := RecordOf(ls[n].pos, Decode(ls[n].data).value);
    Snoc(front, n);
    AscendsBelow(front, n);
    assert forall i :: 0 <= i < n ==> ls[..n][i] == ls[i];
    at := if found == [] then front else front + [n];
    forall i | 0 <= i < |ls| && i !in at ensures Skipped(ls[i]) {
      assert i < n ==> i !in front;
      assert found != [] ==> at[|at| - 1] == n;
    }
  }

  /** The follower's position and what it has applied, after replaying a batch. */
  datatype Follower = Follower(pos: nat, applied: seq<LogRecord>)

  function Replayed(f: Follower, batch: seq<(nat, LogRecord)>): Follower
    decreases |batch|
  {
    if batch == [] then f else Replayed(Follower(batch[0].0, f.applied + [batch[0].1]), batch[1..])
  }

  function AfterPull(f: Follower, ls: seq<Line>): Follower
  {
    match Pulled(ls)
    case None => f
    case Some(batch) => Replayed(f, batch)
  }

  class BinlogFollower {
    var pos: nat
    /** The records handed to the apply callback, in order. */
    var applied: seq<LogRecord>
    /** The position on disk, if it was ever saved. */
    var checkpoint: Option<nat>

    ghost function State(): Follower
      reads this
    {
      Follower(pos, applied)
    }

    /** A follower starts at its checkpoint, or at the beginning. */
    constructor (checkpoint: Option<nat>)
      ensures State() == Follower(if checkpoint.Some? then checkpoint.value else 0, [])
      ensures this.checkpoint == checkpoint
    {
      this.checkpoint := checkpoint;
      pos, applied := if checkpoint.Some? then checkpoint.value else 0, [];
    }

    method PullBatch(ls: seq<Line>) returns (r: Option<seq<(nat, LogRecord)>>)
      ensures r == Pulled(ls)
    {
      hide Decode, DecRecord, Kept, RecordOf;
      var results: seq<(nat, LogRecord)> := [];
      assert ls[0..] == ls;
      KeptEnds([], Pulled(ls));
      for i := 0 to |ls|
        invariant Pulled(ls) == Kept(results, Pulled(ls[i..]))
      {
        assert ls[i..][0] == ls[i] && ls[i..][1..] == ls[i + 1..];
        KeptEnds(results, None);
        var framed := DecodeText(ls[i].data);
        if framed.None? {
          return None;
        }
        KeptTwice(results, RecordOf(ls[i].pos, framed.value), Pulled(ls[i + 1..]));
        var found := RecordAfterHeader(ls[i].pos, framed.value);
        results := results + found;
      }
      KeptEnds(results, None);
      r := Some(results);
    }

    method RecordAfterHeader(pos: nat, framed: seq<byte>) returns (found: seq<(nat, LogRecord)>)
      ensures found == RecordOf(pos, framed)
    {
      found := [];
      if |framed| >= 8 {
        var decoded := DecRecord(framed[8..], 0);
        if decoded.Some? {
          found := [(pos, decoded.value.0)];
        }
      }
    }

    /** One turn of the replication loop on a response; an error changes nothing. */
    method Round(ls: seq<Line>)
      modifies this
      ensures State() == AfterPull(old(State()), ls)
      ensures checkpoint == if Pulled(ls).Some? && Pulled(ls).value != [] then Some(pos) else old(checkpoint)
    {
      hide Pulled;
      var r := PullBatch(ls);
      if r.Some? && r.value != [] {
        var batch := r.value;
        assert batch[0..] == batch;
        for i := 0 to |batch|
          invariant Replayed(old(State()), batch) == Replayed(State(), batch[i..])
          invariant checkpoint == old(checkpoint)
        {
          assert batch[i..][0] == batch[i] && batch[i..][1..] == batch[i + 1..];
          applied := applied + [batch[i].1];
          pos := batch[i].0;
        }
        checkpoint := Some(pos);
      }
    }
  }

  lemma KeptEnds(results: seq<(nat, LogRecord)>, rest: Option<seq<(nat, LogRecord)>>)
    ensures Kept([], rest) == rest && Kept(results, Some([])) == Some(results) && Kept(results, None) == None
  {
    assert results + [] == results;
    assert rest.Some? ==> [] + rest.value == rest.value;
  }

  lemma KeptTwice(a: seq<(nat, LogRecord)>, b: seq<(nat, LogRecord)>, rest: Option<seq<(nat, LogRecord)>>)
    ensures Kept(a, Kept(b, rest)) == Kept(a + b, rest)
  {
    if rest.Some? {
      Assoc(a, b, rest.value);
    }
  }

  // ---- One pull ----

  function Numbered(rs: seq<LogRecord>, i: nat, w: nat): seq<(nat, LogRecord)>
    requires AllLoggable(rs) && i <= w <= |rs|
    decreases w - i
  {
    if i == w then [] else [(Offset(rs, i + 1), rs[i])] + Numbered(rs, i + 1, w)
  }

  lemma FrameDecodes(pos: nat, r: LogRecord)
    requires Loggable(r)
    ensures RecordOf(pos, Frame(ChecksumFirst, EncRecord(r))) == [(pos, r)]
  {
    hide DecRecord, IsRecord, EncRecord;
    var f, p := Frame(ChecksumFirst, EncRecord(r)), EncRecord(r);
    FramePayload(p);
    assert p[0..0 + |p|] == p;
    DecEncRecord(p, 0, r);
  }

  lemma FramePayload(p: seq<byte>)
    ensures |Frame(ChecksumFirst, p)| == 8 + |p| && Frame(ChecksumFirst, p)[8..] == p
  {
  }

  /** Frame scan, base64 and record decoding compose: the follower gets the leader's records back. */
  lemma {:induction false} PullDecodes(rs: seq<LogRecord>, i: nat, w: nat)
    requires AllLoggable(rs) && i <= w <= |rs|
    ensures Pulled(Lines(FramesBetween(rs, i, w))) == Some(Numbered(rs, i, w))
    decreases w - i
  {
    hide Decode, Encode, RecordOf, Frame, Loggable, Offset;
    if i < w {
      var frames := FramesBetween(rs, i, w);
      assert Lines(frames)[1..] == Lines(frames[1..]);
      assert frames[1..] == FramesBetween(rs, i + 1, w);
      NumberedFirst(rs, i);
      DecodeEncode(frames[0].1);
      PullDecodes(rs, i + 1, w);
    }
  }

  lemma NumberedFirst(rs: seq<LogRecord>, i: nat)
    requires AllLoggable(rs) && i < |rs|
    ensures RecordOf(Offset(rs, i + 1), Frame(ChecksumFirst, EncRecord(rs[i]))) == [(Offset(rs, i + 1), rs[i])]
  {
    hide RecordOf, Frame, IsRecord, EncRecord, Offset;
    FrameDecodes(Offset(rs, i + 1), rs[i]);
  }

  lemma {:induction false} ReplayNumbered(rs: seq<LogRecord>, i: nat, w: nat)
    requires AllLoggable(rs) && i <= w <= |rs|
    ensures Replayed(Follower(Offset(rs, i), rs[..i]), Numbered(rs, i, w)) == Follower(Offset(rs, w), rs[..w])
    decreases w - i
  {
    hide Loggable, Offset;
    if i < w {
      assert Numbered(rs, i, w)[1..] == Numbered(rs, i + 1, w);
      assert rs[..i] + [rs[i]] == rs[..i + 1];
      ReplayNumbered(rs, i + 1, w);
    }
  }

  // ---- Every interleaving ----

  /** The leader's appended records, how many bytes of them the endpoint can read, and the follower. */
  datatype System = System(records: seq<LogRecord>, visible: nat, follower: Follower)

  datatype Event = AppendEvent(record: LogRecord) | FlushEvent(upTo: nat) | PullEvent | PullFailsEvent

  const START := System([], 0, Follower(0, []))

  ghost predicate Enabled(s: System, e: Event)
    requires AllLoggable(s.records)
  {
    match e
    case AppendEvent(r) => Loggable(r)
    case FlushEvent(upTo) => s.visible <= upTo <= |Stream(s.records)|
    case PullEvent => true
    case PullFailsEvent => true
  }

  ghost function Next(s: System, e: Event): System
    requires AllLoggable(s.records) && s.visible <= |Stream(s.records)|
  {
    match e
    case AppendEvent(r) => s.(records := s.records + [r])
    case FlushEvent(upTo) => s.(visible := upTo)
    case PullEvent =>
      s.(follower := AfterPull(s.follower, Lines(Scan(Stream(s.records)[..s.visible], s.follower.pos))))
    case PullFailsEvent => s
  }

  /** The follower has applied exactly the leader's first `i` records, and its position is where they end. */
  ghost predicate InStep(s: System, i: nat)
  {
    && AllLoggable(s.records) && s.visible <= |Stream(s.records)|
    && i <= WholeRecords(s.records, s.visible)
    && s.follower == Follower(Offset(s.records, i), s.records[..i])
  }

  /** A pull applies everything visible that was not applied yet, once and in order. */
  lemma PullCatchesUp(s: System, i: nat)
    requires InStep(s, i)
    ensures InStep(Next(s, PullEvent), WholeRecords(s.records, s.visible))
  {
    hide Loggable, Stream, Offset, WholeRecords, Scan, FramesBetween, Pulled, Replayed;
    var w := WholeRecords(s.records, s.visible);
    WholeRecordsWithin(s.records, s.visible);
    ScanCut(s.records, s.visible, i);
    PullDecodes(s.records, i, w);
    ReplayNumbered(s.records, i, w);
  }

  lemma WholeRecordsWithin(rs: seq<LogRecord>, k: nat)
    requires AllLoggable(rs)
    ensures WholeRecords(rs, k) <= |rs|
  {
  }

  lemma AppendKeepsStep(s: System, i: nat, r: LogRecord)
    requires InStep(s, i) && Loggable(r)
    ensures InStep(Next(s, AppendEvent(r)), i)
  {
    hide Loggable, Frame, EncRecord;
    var rs := s.records;
    StreamAppend(rs, r);
    WholeRecordsWithin(rs, s.visible);
    assert (rs + [r])[..i] == rs[..i];
    MoreRecords(rs, r, s.visible);
  }

  lemma MoreRecords(rs: seq<LogRecord>, r: LogRecord, k: nat)
    requires AllLoggable(rs + [r]) && AllLoggable(rs)
    ensures WholeRecords(rs, k) <= WholeRecords(rs + [r], k)
  {
    hide Loggable, EncRecord;
    assert Encoded(rs + [r]) == Encoded(rs) + Encoded(rs + [r])[|rs|..];
    WholeExtends(Encoded(rs), Encoded(rs + [r])[|rs|..], k);
  }

  lemma {:induction false} WholeExtends(ps: seq<seq<byte>>, qs: seq<seq<byte>>, k: nat)
    ensures Whole(ps, k) <= Whole(ps + qs, k)
    decreases |ps|
  {
    if ps != [] && k >= 8 + |ps[0]| {
      assert (ps + qs)[1..] == ps[1..] + qs;
      WholeExtends(ps[1..], qs, k - (8 + |ps[0]|));
    }
  }

  lemma {:induction false} WholeGrows(ps: seq<seq<byte>>, k: nat, l: nat)
    requires k <= l
    ensures Whole(ps, k) <= Whole(ps, l)
    decreases |ps|
  {
    if ps != [] && k >= 8 + |ps[0]| {
      WholeGrows(ps[1..], k - (8 + |ps[0]|), l - (8 + |ps[0]|));
    }
  }

  lemma StepInStep(s: System, i: nat, e: Event) returns (j: nat)
    requires InStep(s, i) && Enabled(s, e)
    ensures i <= j && InStep(Next(s, e), j)
    ensures e.PullEvent? ==> j == WholeRecords(s.records, s.visible)
  {
    hide Loggable, Stream, Offset, Scan, Encoded;
    match e
    case AppendEvent(r) =>
      AppendKeepsStep(s, i, r);
      j := i;
    case FlushEvent(upTo) =>
      WholeGrows(Encoded(s.records), s.visible, upTo);
      j := i;
    case PullEvent =>
      PullCatchesUp(s, i);
      j := WholeRecords(s.records, s.visible);
    case PullFailsEvent => j := i;
  }

  /** `t` is reached from `s` by the events `es`. */
  ghost predicate Reaches(s: System, es: seq<Event>, t: System)
    decreases |es|
  {
    if es == [] then s == t
    else
      AllLoggable(s.records) && s.visible <= |Stream(s.records)| && Enabled(s, es[0])
      && Reaches(Next(s, es[0]), es[1..], t)
  }

  lemma {:induction false} RunInStep(s: System, i: nat, es: seq<Event>, t: System) returns (j: nat)
    requires InStep(s, i) && Reaches(s, es, t)
    ensures i <= j && InStep(t, j)
    decreases |es|
  {
    hide InStep, Next, Enabled;
    j := i;
    if es != [] {
      var k := StepInStep(s, i, es[0]);
      j := RunInStep(Next(s, es[0]), k, es[1..], t);
    }
  }

  /**
   * Under any interleaving of appends, partial flushes, failed and successful pulls, the
   * follower has applied exactly the leader's records that end at or before its position,
   * in order, without gap or duplicate.
   */
  lemma FollowerInStep(es: seq<Event>, t: System) returns (i: nat)
    requires Reaches(START, es, t)
    ensures AllLoggable(t.records) && i <= |t.records|
    ensures t.follower.applied == t.records[..i]
    ensures t.follower.pos == Offset(t.records, i)
    ensures forall j :: 0 <= j <= |t.records| ==> (Offset(t.records, j) <= t.follower.pos <==> j <= i)
  {
    StartInStep();
    i := RunInStep(START, 0, es, t);
    WholeRecordsWithin(t.records, t.visible);
    forall j | 0 <= j <= |t.records| ensures Offset(t.records, j) <= t.follower.pos <==> j <= i {
      OffsetsOrdered(t.records, i, j);
    }
  }

  lemma StartInStep()
    ensures InStep(START, 0)
  {
  }

  lemma OffsetsOrdered(rs: seq<LogRecord>, i: nat, j: nat)
    requires AllLoggable(rs) && i <= |rs| && j <= |rs|
    ensures Offset(rs, j) <= Offset(rs, i) <==> j <= i
  {
    hide Loggable, EncRecord, Offset;
    if j <= i {
      OffsetMonotone(rs, j, i);
    } else {
      OffsetStep(rs, i);
      OffsetMonotone(rs, i + 1, j);
    }
  }

  /** The program's own pull is the `PullEvent` of the system. */
  method Pull(
      leader: BinlogManager, follower: BinlogFollower, ghost rs: seq<LogRecord>, ghost i: nat) returns (ghost w: nat)
    requires leader.Valid() && AllLoggable(rs) && leader.durable
    requires leader.Log() == Stream(rs)
    requires i <= WholeRecords(rs, |leader.file|) && follower.State() == Follower(Offset(rs, i), rs[..i])
    modifies follower
    ensures w == WholeRecords(rs, |leader.file|) <= |rs|
    ensures follower.State() == Follower(Offset(rs, w), rs[..w])
  {
    hide Loggable, Stream, Scan, Offset, WholeRecords, AfterPull;
    w := WholeRecords(rs, |leader.file|);
    WholeRecordsWithin(rs, |leader.file|);
    assert leader.file == Stream(rs)[..|leader.file|];
    PullCatchesUp(System(rs, |leader.file|, follower.State()), i);
    var ls := Serve(leader, follower.pos);
    follower.Round(ls);
  }
}
