/** The Raft log store over whole histories: runs of operations, crashes and reopenings. */
module LogStoreHistory {
  import opened Bytes
  import opened Options
  import opened RaftTypes
  import opened Crc
  import opened Framing
  import opened LogStoreSpec
  import opened LogStoreRuns

  const NOTHING := Seen(map[], None, None)

  /** Opening an empty directory. */
  function Fresh(c: Codec): Store { Store(Reopen(c, EMPTY), true, EMPTY) }

  /** An operation that finished, or one that a crash cut short, leaving the files `left`. */
  datatype Event = Finished(op: Op) | Crashed(op: Op, left: Disk)

  /** After a crash the store is opened again on what the crash left. */
  function AfterEvent(c: Codec, s: Store, e: Event): Store
  {
    match e
    case Finished(op) => Next(c, s, op)
    case Crashed(_, left) => Store(Reopen(c, left), true, left)
  }

  /** The operation is legal, and a crash left the log file on a record boundary and the other two whole. */
  ghost predicate Possible(c: Codec, s: Store, e: Event)
  {
    && AllLegal(c, Observed(s.mem), Changes(e.op))
    && (e.Crashed? ==>
          && MidWrites(s.disk, Writes(c, s, e.op), e.left)
          && OnBoundary(ChecksumLast, e.left.wal) && !Forgets(s.disk, e.op, e.left))
  }

  function Run(c: Codec, s: Store, es: seq<Event>): Store
    decreases |es|
  {
    if es == [] then s else Run(c, AfterEvent(c, s, es[0]), es[1..])
  }

  ghost predicate PossibleRun(c: Codec, s: Store, es: seq<Event>)
    decreases |es|
  {
    es == [] || (Possible(c, s, es[0]) && PossibleRun(c, AfterEvent(c, s, es[0]), es[1..]))
  }

  /** Of each event's durable steps the first `js[i]` were kept: all of them if it finished. */
  predicate Cuts(es: seq<Event>, js: seq<nat>)
  {
    && |js| == |es|
    && forall i :: 0 <= i < |es| ==>
         js[i] <= |Changes(es[i].op)| && (es[i].Finished? ==> js[i] == |Changes(es[i].op)|)
  }

  function KeptSteps(es: seq<Event>, js: seq<nat>): seq<Change>
    requires Cuts(es, js)
  {
    if es == [] then [] else Changes(es[0].op)[..js[0]] + KeptSteps(es[1..], js[1..])
  }

  // ---- Going on after a crash ----

  lemma {:induction false} ChangedFits(c: Codec, v: Seen, gs: seq<Change>, j: nat)
    requires LogFits(c, v.log) && AllLegal(c, v, gs) && j <= |gs|
    ensures LogFits(c, Changed(v, gs[..j]).log)
    decreases j
  {
    if j > 0 {
      assert gs[..j][1..] == gs[1..][..j - 1];
      ChangedFits(c, Change1(v, gs[0]), gs[1..], j - 1);
    }
  }

  /** A store reopened on a file that ends on a record boundary satisfies the invariant of every run. */
  lemma BoundaryResumes(c: Codec, d: Disk)
    requires OnBoundary(ChecksumLast, d.wal) && LogFits(c, Reopen(c, d).log)
    ensures Sound(c, Store(Reopen(c, d), true, d), Payloads(ChecksumLast, d.wal))
  {
    hide Replay, Above, Payloads, Frames;
    PayloadsFit(ChecksumLast, d.wal);
  }

  /** A crash on a record boundary keeps a first part of the operation's steps, and the store can go on. */
  lemma CrashResumes(c: Codec, s: Store, ps: seq<seq<byte>>, op: Op, left: Disk) returns (qs: seq<seq<byte>>, j: nat)
    requires Lawful(c) && Sound(c, s, ps) && Possible(c, s, Crashed(op, left))
    ensures Sound(c, AfterEvent(c, s, Crashed(op, left)), qs)
    ensures j <= |Changes(op)|
    ensures Observed(AfterEvent(c, s, Crashed(op, left)).mem) == Changed(Observed(s.mem), Changes(op)[..j])
  {
    hide Reopen, Changes, AllLegal, MidWrites, Frames, Replay, Above, LogFits;
    j := StepCrash(c, s, ps, op, left);
    ChangedFits(c, Observed(s.mem), Changes(op), j);
    BoundaryResumes(c, left);
    qs := Payloads(ChecksumLast, left.wal);
  }

  lemma {:induction false} PrefixIsMid(d: Disk, ws: seq<Write>, n: nat)
    requires n <= |ws|
    ensures MidWrites(d, ws, PerformAll(d, ws[..n]))
    decreases n
  {
    if n > 0 {
      assert ws[..n][1..] == ws[1..][..n - 1];
      PrefixIsMid(Perform(d, ws[0]), ws[1..], n - 1);
    }
  }

  lemma {:induction false} LegalPrefix(c: Codec, v: Seen, es: seq<Entry>, n: nat)
    requires n <= |es| && AllLegal(c, v, Adds(es))
    ensures AllLegal(c, v, Adds(es[..n]))
    decreases n
  {
    if n > 0 {
      assert Adds(es)[1..] == Adds(es[1..]) && Adds(es[..n])[1..] == Adds(es[1..][..n - 1]);
      LegalPrefix(c, Change1(v, Added(es[0])), es[1..], n - 1);
    }
  }

  lemma FaithfulOnBoundary(c: Codec, d: Disk, ps: seq<seq<byte>>, v: Seen)
    requires Faithful(c, d, ps, v)
    ensures OnBoundary(ChecksumLast, d.wal)
  {
    FaithfulPayloads(c, d, ps, v);
  }

  /** A crash between two durable writes of any operation leaves the file on a record boundary: such runs go on. */
  lemma BetweenWrites(c: Codec, s: Store, ps: seq<seq<byte>>, op: Op, n: nat)
    requires Lawful(c) && Sound(c, s, ps) && AllLegal(c, Observed(s.mem), Changes(op)) && n <= |Writes(c, s, op)|
    ensures Possible(c, s, Crashed(op, PerformAll(s.disk, Writes(c, s, op)[..n])))
  {
    hide Faithful, Frames, Frame, Payloads, Texts, Values, Adds, Extends, PerformAll, MidWrites;
    var v, d, ws := Observed(s.mem), s.disk, Writes(c, s, op);
    PrefixIsMid(d, ws, n);
    FaithfulOnBoundary(c, d, ps, v);
    FewWrites(d, ws, n);
    match op
    case AppendOp(es) =>
      LegalPrefix(c, v, es, n);
      AppendFaithful(c, d, ps, v, es[..n]);
      ExtendsPrefix(c, es, n);
      FaithfulOnBoundary(c, PerformAll(d, ws[..n]), ps + Texts(c, es[..n]), Changed(v, Adds(es[..n])));
    case TruncateOp(id) =>
      ExtendFaithful(c, d, ps, v, CutFrom(id.index));
      var p := c.encode(Truncate(id.index));
      FaithfulOnBoundary(c, Perform(d, ws[0]), ps + [p], Change1(v, CutFrom(id.index)));
    case PurgeOp(id) =>
      PurgeFaithful(c, d, ps, v, id);
      CompactFaithful(c, Perform(d, SetPurge(id)), ps, Change1(v, PurgedTo(id)));
      CompactedOnBoundary(c, Perform(d, SetPurge(id)), Change1(v, PurgedTo(id)));
    case CompactOp =>
      CompactFaithful(c, d, ps, v);
      CompactedOnBoundary(c, d, v);
    case VoteOp(_) =>
    case ThresholdOp(_) =>
    case ReopenOp =>
  }

  lemma CompactedOnBoundary(c: Codec, d: Disk, v: Seen)
    requires var qs := Texts(c, Values(v.log));
      Faithful(c, d.(wal := Frames(ChecksumLast, qs), scratch := []), qs, v)
    ensures OnBoundary(ChecksumLast, Frames(ChecksumLast, Texts(c, Values(v.log))))
  {
    var qs := Texts(c, Values(v.log));
    FaithfulOnBoundary(c, d.(wal := Frames(ChecksumLast, qs), scratch := []), qs, v);
  }

  lemma ExtendsPrefix(c: Codec, es: seq<Entry>, n: nat)
    requires n <= |es|
    ensures |Extends(c, es)| == |es| && Extends(c, es)[..n] == Extends(c, es[..n])
  {
  }

  lemma FewWrites(d: Disk, ws: seq<Write>, n: nat)
    requires n <= |ws|
    ensures n == 0 ==> PerformAll(d, ws[..n]) == d
    ensures n == 1 ==> PerformAll(d, ws[..n]) == Perform(d, ws[0])
    ensures n == 2 ==> PerformAll(d, ws[..n]) == Perform(Perform(d, ws[0]), ws[1])
    ensures n == 3 ==> PerformAll(d, ws[..n]) == Perform(Perform(Perform(d, ws[0]), ws[1]), ws[2])
  {
    hide Perform;
    if n == 1 {
      OneWrite(d, ws[0]);
      assert ws[..n] == [ws[0]];
    } else if n == 2 {
      TwoWrites(d, ws[0], ws[1]);
      assert ws[..n] == [ws[0], ws[1]];
    } else if n == 3 {
      TwoWrites(d, ws[0], ws[1]);
      OneWrite(Perform(Perform(d, ws[0]), ws[1]), ws[2]);
      PerformConcat(d, [ws[0], ws[1]], [ws[2]]);
      assert ws[..n] == [ws[0], ws[1]] + [ws[2]];
    }
  }

  lemma EventSound(c: Codec, s: Store, ps: seq<seq<byte>>, e: Event) returns (qs: seq<seq<byte>>, j: nat)
    requires Lawful(c) && Sound(c, s, ps) && Possible(c, s, e)
    ensures Sound(c, AfterEvent(c, s, e), qs)
    ensures j <= |Changes(e.op)| && (e.Finished? ==> j == |Changes(e.op)|)
    ensures Observed(AfterEvent(c, s, e).mem) == Changed(Observed(s.mem), Changes(e.op)[..j])
  {
    hide Sound, Next, Changes, AllLegal, MidWrites, Reopen;
    match e
    case Finished(op) =>
      qs := StepSound(c, s, ps, op);
      j := |Changes(op)|;
      assert Changes(op)[..j] == Changes(op);
    case Crashed(op, left) => qs, j := CrashResumes(c, s, ps, op, left);
  }

  /** Any alternation of operations and crashes on record boundaries keeps the store sound. */
  lemma {:induction false} RunSound(c: Codec, s: Store, ps: seq<seq<byte>>, es: seq<Event>)
    returns (qs: seq<seq<byte>>, js: seq<nat>)
    requires Lawful(c) && Sound(c, s, ps) && PossibleRun(c, s, es)
    ensures Sound(c, Run(c, s, es), qs)
    ensures Cuts(es, js) && Observed(Run(c, s, es).mem) == Changed(Observed(s.mem), KeptSteps(es, js))
    decreases |es|
  {
    hide Sound, AfterEvent, Changes, Possible;
    qs, js := ps, [];
    if es != [] {
      var rs, j := EventSound(c, s, ps, es[0]);
      var ks;
      qs, ks := RunSound(c, AfterEvent(c, s, es[0]), rs, es[1..]);
      js := [j] + ks;
      assert js[1..] == ks;
      ChangedConcat(Observed(s.mem), Changes(es[0].op)[..j], KeptSteps(es[1..], ks));
    }
  }

  lemma FreshSound(c: Codec)
    ensures Sound(c, Fresh(c), []) && Observed(Fresh(c).mem) == NOTHING
  {
  }

  lemma FaithfulPayloads(c: Codec, d: Disk, ps: seq<seq<byte>>, v: Seen)
    requires Faithful(c, d, ps, v)
    ensures Payloads(ChecksumLast, d.wal) == ps
  {
    PayloadsOfFrames(ChecksumLast, ps, []);
    assert Frames(ChecksumLast, ps) + [] == Frames(ChecksumLast, ps);
    assert ps + [] == ps;
  }

  // ---- The theorems ----

  /**
   * After any history, reopening the directory gives the log, purge point and vote in memory,
   * which are the durable steps of every finished operation and a first part of those of every
   * operation a crash cut short.  The counters bound the records in the file, which bound the
   * live entries, and a dead count of 0 means that every record is live.
   */
  lemma ReopenMatchesMemory(c: Codec, es: seq<Event>) returns (js: seq<nat>)
    requires Lawful(c) && PossibleRun(c, Fresh(c), es)
    ensures Cuts(es, js)
    ensures var s := Run(c, Fresh(c), es);
      && Observed(Reopen(c, s.disk)) == Observed(s.mem) == Changed(NOTHING, KeptSteps(es, js))
      && s.mem.total >= |Payloads(ChecksumLast, s.disk.wal)| >= Live(s.mem)
      && (Dead(s.mem) == 0 ==> forall i :: 0 <= i < |Payloads(ChecksumLast, s.disk.wal)| ==>
            LiveRecord(c, Payloads(ChecksumLast, s.disk.wal), s.mem.log, i))
  {
    hide Faithful, Next, LiveRecord, PossibleRun;
    FreshSound(c);
    var ps;
    ps, js := RunSound(c, Fresh(c), [], es);
    var s := Run(c, Fresh(c), es);
    FaithfulReopens(c, s.disk, ps, Observed(s.mem));
    FaithfulPayloads(c, s.disk, ps, Observed(s.mem));
    FaithfulSize(c, s.disk, ps, Observed(s.mem));
  }

  /**
   * A crash at any byte of any write after any history, torn record or not, reopens to the steps
   * kept before and some first part of the unfinished operation's, exactly unless it emptied a
   * purge or vote file that held something.
   */
  lemma CrashKeepsPrefix(c: Codec, es: seq<Event>, op: Op, crashed: Disk) returns (js: seq<nat>, j: nat)
    requires Lawful(c) && PossibleRun(c, Fresh(c), es)
    requires AllLegal(c, Observed(Run(c, Fresh(c), es).mem), Changes(op))
    requires MidWrites(Run(c, Fresh(c), es).disk, Writes(c, Run(c, Fresh(c), es), op), crashed)
    ensures Cuts(es, js) && j <= |Changes(op)|
    ensures !Forgets(Run(c, Fresh(c), es).disk, op, crashed) ==>
      Observed(Reopen(c, crashed)) == Changed(NOTHING, KeptSteps(es, js) + Changes(op)[..j])
    ensures Forgets(Run(c, Fresh(c), es).disk, op, crashed) ==>
      forall i :: 0 <= i <= |Changes(op)| ==>
        Observed(Reopen(c, crashed)) != Changed(NOTHING, KeptSteps(es, js) + Changes(op)[..i])
  {
    hide Sound, Next, Changes, MidWrites, Writes, PossibleRun, Forgets;
    FreshSound(c);
    var ps;
    ps, js := RunSound(c, Fresh(c), [], es);
    j := StepCrash(c, Run(c, Fresh(c), es), ps, op, crashed);
    forall i | 0 <= i <= |Changes(op)|
      ensures Changed(NOTHING, KeptSteps(es, js) + Changes(op)[..i])
           == Changed(Observed(Run(c, Fresh(c), es).mem), Changes(op)[..i])
    {
      ChangedConcat(NOTHING, KeptSteps(es, js), Changes(op)[..i]);
    }
  }

  /** With I/O succeeding, a purge leaves at most `compact_threshold` dead records in the file. */
  lemma PurgeBoundsDeadRecords(c: Codec, es: seq<Event>, id: LogId)
    requires Lawful(c) && PossibleRun(c, Fresh(c), es)
    requires Legal(c, Observed(Run(c, Fresh(c), es).mem), PurgedTo(id))
    ensures var s := Run(c, Fresh(c), es);
      var t := Next(c, s, PurgeOp(id));
      |Payloads(ChecksumLast, t.disk.wal)| - Live(t.mem) <= s.mem.threshold
  {
    hide Faithful, Next, PossibleRun;
    FreshSound(c);
    var ps, _ := RunSound(c, Fresh(c), [], es);
    var s := Run(c, Fresh(c), es);
    OneLegal(c, Observed(s.mem), PurgedTo(id));
    var qs := StepSound(c, s, ps, PurgeOp(id));
    var t := Next(c, s, PurgeOp(id));
    FaithfulPayloads(c, t.disk, qs, Observed(t.mem));
  }

  lemma OneLegal(c: Codec, v: Seen, g: Change)
    requires Legal(c, v, g)
    ensures AllLegal(c, v, [g])
  {
    assert [g][1..] == [];
  }

  // ---- Where the hypotheses are needed ----

  /** A history and a crash that forget a vote: one vote saved, and the next one cut short. */
  lemma ForgottenVote(c: Codec, a: Vote, b: Vote)
    ensures var s := Run(c, Fresh(c), [Finished(VoteOp(a))]);
      && PossibleRun(c, Fresh(c), [Finished(VoteOp(a))]) && AllLegal(c, Observed(s.mem), Changes(VoteOp(b)))
      && s.mem.vote == Some(a) && MidWrites(s.disk, Writes(c, s, VoteOp(b)), s.disk.(vote := None))
      && Forgets(s.disk, VoteOp(b), s.disk.(vote := None)) && Reopen(c, s.disk.(vote := None)).vote == None
  {
    hide Payloads, Replay, Above;
    var s := OneEvent(c, VoteOp(a));
    OneWrite(EMPTY, SetVote(a));
    OneLegal(c, NOTHING, VotedFor(a));
    OneLegal(c, Observed(s.mem), VotedFor(b));
  }

  lemma OneEvent(c: Codec, op: Op) returns (s: Store)
    ensures s == Run(c, Fresh(c), [Finished(op)]) == Next(c, Fresh(c), op)
    ensures Observed(Fresh(c).mem) == NOTHING
    ensures AllLegal(c, NOTHING, Changes(op)) ==> PossibleRun(c, Fresh(c), [Finished(op)])
  {
    hide Next, Changes;
    FreshSound(c);
    assert [Finished(op)][1..] == [];
    s := Next(c, Fresh(c), op);
  }

  /** The same for a purge point; the entries below it that the log file still holds come back. */
  lemma ForgottenPurge(c: Codec, a: LogId, b: LogId)
    requires a.index <= b.index
    ensures var s := Run(c, Fresh(c), [Finished(PurgeOp(a))]);
      && PossibleRun(c, Fresh(c), [Finished(PurgeOp(a))]) && AllLegal(c, Observed(s.mem), Changes(PurgeOp(b)))
      && s.mem.purged == Some(a) && MidWrites(s.disk, Writes(c, s, PurgeOp(b)), s.disk.(purge := None))
      && Forgets(s.disk, PurgeOp(b), s.disk.(purge := None)) && Reopen(c, s.disk.(purge := None)).purged == None
  {
    hide Payloads, Replay, Above, CompactWrites;
    var s := OneEvent(c, PurgeOp(a));
    PurgedDisk(c, a);
    OneLegal(c, NOTHING, PurgedTo(a));
    OneLegal(c, Observed(s.mem), PurgedTo(b));
  }

  lemma PurgedDisk(c: Codec, id: LogId)
    ensures var s := Next(c, Fresh(c), PurgeOp(id));
      s.durable && s.disk.purge == Some(id) && s.mem.purged == Some(id)
  {
    hide Payloads, Replay, Frames, Texts, Values;
    var rest := if PurgeCompacts(Fresh(c).mem, id) then CompactWrites(c, Purged(Fresh(c).mem, id)) else [];
    OneWrite(EMPTY, SetPurge(id));
    PerformConcat(EMPTY, [SetPurge(id)], rest);
    if rest != [] {
      TwoWrites(Perform(EMPTY, SetPurge(id)), rest[0], rest[1]);
    }
  }

  /** An append survives a reopen exactly when its index is above the purge point. */
  lemma AppendSurvivesIff(c: Codec, d: Disk, ps: seq<seq<byte>>, v: Seen, e: Entry)
    requires Lawful(c) && Faithful(c, d, ps, v) && Fits(c.encode(Append(e)))
    ensures var after := Perform(d, Extend(Frame(ChecksumLast, c.encode(Append(e)))));
      Observed(Reopen(c, after)) == Change1(v, Added(e)) <==> AbovePurge(v.purged, e.id.index)
  {
    hide Frame, ReadFrame, Replay, Fits;
    var p := c.encode(Append(e));
    var after := Perform(d, Extend(Frame(ChecksumLast, p)));
    if AbovePurge(v.purged, e.id.index) {
      ExtendFaithful(c, d, ps, v, Added(e));
      FaithfulReopens(c, after, ps + [p], Change1(v, Added(e)));
    } else {
      assert e.id.index !in Reopen(c, after).log;
    }
  }

  /** A purge agrees with a reopen exactly when the file holds no entry between the two points. */
  lemma PurgeSurvivesIff(c: Codec, d: Disk, ps: seq<seq<byte>>, v: Seen, id: LogId)
    requires Faithful(c, d, ps, v)
    ensures Observed(Reopen(c, Perform(d, SetPurge(id)))) == Change1(v, PurgedTo(id)) <==>
      forall k :: k in Replay(c, map[], ps) && k > id.index ==> AbovePurge(v.purged, k)
  {
    hide Replay;
    FaithfulPayloads(c, d, ps, v);
    var m := Replay(c, map[], ps);
    assert Reopen(c, Perform(d, SetPurge(id))).log == Above(m, Some(id));
    assert v.log == Above(m, v.purged);
    var alone, both := Above(m, Some(id)), Above(v.log, Some(id));
    if k :| k in m && k > id.index && !AbovePurge(v.purged, k) {
      assert k in alone && k !in both;
    } else {
      assert forall k :: k in alone <==> k in both;
      assert alone == both;
    }
  }

  /** The log file cut at any byte keeps exactly the records wholly inside the cut. */
  lemma CutReopens(c: Codec, d: Disk, ps: seq<seq<byte>>, v: Seen, k: nat)
    requires Faithful(c, d, ps, v) && k <= |d.wal|
    ensures var m := Reopen(c, d.(wal := d.wal[..k]));
      && m.log == Above(Replay(c, map[], ps[..Whole(ps, k)]), v.purged)
      && m.total == Whole(ps, k)
  {
    PayloadsOfCut(ChecksumLast, ps, k);
  }

  /**
   * `open` leaves a torn tail in the file, and the next record goes behind it.  A tail that is
   * any first part of a record with its length field, longer than what follows it, hides the
   * record appended after it, whatever the checksums.
   */
  lemma TornTailHidesAppend(c: Codec, d: Disk, ps: seq<seq<byte>>, v: Seen, q: seq<byte>, k: nat, p: seq<byte>)
    requires Faithful(c, d, ps, v) && Fits(q)
    requires 4 <= k <= |Frame(ChecksumLast, q)| && k + |p| < |q|
    ensures Observed(Reopen(c, d.(wal := d.wal + Frame(ChecksumLast, q)[..k] + Frame(ChecksumLast, p)))) == v
  {
    hide Replay, Above;
    var tail := Frame(ChecksumLast, q)[..k] + Frame(ChecksumLast, p);
    LongTail(q, k, p);
    Assoc(d.wal, Frame(ChecksumLast, q)[..k], Frame(ChecksumLast, p));
    PayloadsOfFrames(ChecksumLast, ps, tail);
    assert ps + [] == ps;
  }

  lemma LongTail(q: seq<byte>, k: nat, p: seq<byte>)
    requires Fits(q) && 4 <= k <= |Frame(ChecksumLast, q)| && k + |p| < |q|
    ensures ReadFrame(ChecksumLast, Frame(ChecksumLast, q)[..k] + Frame(ChecksumLast, p)) == None
  {
    hide Crc32, FromLe, Frame;
    var f, g := Frame(ChecksumLast, q), Frame(ChecksumLast, p);
    FrameLength(ChecksumLast, q);
    FrameLength(ChecksumLast, p);
    FrameHead(q);
    U32RoundTrip(|q|);
    assert (f[..k] + g)[..4] == f[..4];
  }

  /** The same for the shortest tail: the one byte that a record of 256, 512, ... bytes begins with. */
  lemma TornByteHidesAppend(c: Codec, d: Disk, ps: seq<seq<byte>>, v: Seen, q: seq<byte>, p: seq<byte>)
    requires Faithful(c, d, ps, v) && Fits(q) && |q| % 256 == 0 && 0 < |p| < 0x100_0000
    ensures Observed(Reopen(c, d.(wal := d.wal + Frame(ChecksumLast, q)[..1] + Frame(ChecksumLast, p)))) == v
  {
    hide Replay, Above;
    FirstByte(q);
    var tail := [0] + Frame(ChecksumLast, p);
    ShiftedLength(p);
    Assoc(d.wal, [0], Frame(ChecksumLast, p));
    PayloadsOfFrames(ChecksumLast, ps, tail);
    assert ps + [] == ps;
  }

  lemma FirstByte(q: seq<byte>)
    requires Fits(q) && |q| % 256 == 0
    ensures Frame(ChecksumLast, q)[..1] == [0]
  {
    hide Crc32;
    assert |q| % U32_LIMIT == |q| && Le(|q|, 4)[0] == 0;
  }

  lemma ShiftedLength(p: seq<byte>)
    requires 0 < |p| < 0x100_0000
    ensures ReadFrame(ChecksumLast, [0] + Frame(ChecksumLast, p)) == None
  {
    hide Crc32, FromLe, Frame;
    ShiftedHead(p);
    ShiftedValue(|p|);
  }

  lemma ShiftedHead(p: seq<byte>)
    requires |p| < 0x100_0000
    ensures var tail := [0] + Frame(ChecksumLast, p); |tail| == 9 + |p| && tail[..4] == [0] + Le(|p|, 3)
  {
    hide Crc32, Le;
    var f := Frame(ChecksumLast, p);
    FrameLength(ChecksumLast, p);
    FrameHead(p);
    LePrefix(|p|, 4, 3);
    assert f[..3] == f[..4][..3];
  }

  lemma FrameHead(p: seq<byte>)
    requires Fits(p)
    ensures Frame(ChecksumLast, p)[..4] == Le(|p|, 4)
  {
    hide Frame, ReadFrame;
    ReadFrameHere(ChecksumLast, p, []);
    assert Frame(ChecksumLast, p) + [] == Frame(ChecksumLast, p);
  }

  lemma ShiftedValue(n: nat)
    requires n < 0x100_0000
    ensures FromLe([0] + Le(n, 3)) == 256 * n
  {
    assert Pow256(3) == 256 * Pow256(2) && Pow256(2) == 256 * Pow256(1);
    FromLeLe(n, 3);
    assert ([0] + Le(n, 3))[1..] == Le(n, 3);
  }

  lemma {:induction false} LePrefix(n: nat, k: nat, j: nat)
    requires j <= k
    ensures Le(n, k)[..j] == Le(n, j)
    decreases j
  {
    if j > 0 {
      LePrefix(n / 256, k - 1, j - 1);
    }
  }
}
