/** The Raft log store: an in-memory log over an append-only file with in-place counters. */
module LogStore {
  import opened Bytes
  import opened Options
  import opened RaftTypes
  import opened Crc
  import opened Framing
  import opened LogStoreSpec
  import opened LogStoreRuns

  /** `read_record` at `pos`: the payload there, or nothing where the replay loop breaks. */
  method ReadRecord(file: seq<byte>, pos: nat) returns (r: Option<seq<byte>>)
    requires pos <= |file|
    ensures r == ReadFrame(ChecksumLast, file[pos..])
  {
    hide FromLe, Crc32;
    ghost var rest := file[pos..];
    if |file| - pos < 4 {
      return None;
    }
    assert file[pos..pos + 4] == rest[..4];
    var len := FromLe(file[pos..pos + 4]);
    if |file| - pos - 4 < len || |file| - pos - 4 - len < 4 {
      return None;
    }
    var payload := file[pos + 4..pos + 4 + len];
    var sum := file[pos + 4 + len..pos + 8 + len];
    assert payload == rest[4..4 + len] && sum == rest[4 + len..8 + len];
    var actual := Checksum(payload);
    r := if actual == FromLe(sum) then Some(payload) else None;
  }

  class KkdbLogStore {
    const codec: Codec
    const durable: bool
    var log: map<nat, Entry>
    var lastPurged: Option<LogId>
    var votedFor: Option<Vote>
    var totalRecords: nat
    var compactThreshold: nat
    var compactionCount: nat
    var totalDeadEliminated: nat
    /** The directory as it stands after every write so far. */
    var disk: Disk
    /** The durable writes so far, in order. */
    ghost var writes: seq<Write>

    ghost function State(): Store
      reads this
    {
      Store(
        Memory(log, lastPurged, votedFor, totalRecords, compactThreshold, compactionCount, totalDeadEliminated),
        durable,
        disk)
    }

    /** `open`: replay the log file, then drop what was purged. */
    constructor (codec: Codec, files: Disk)
      ensures this.codec == codec && durable && disk == files
      ensures State() == Store(Reopen(codec, files), true, files)
      ensures writes == []
    {
      hide ReadFrame;
      this.codec, durable, disk, writes := codec, true, files, [];
      votedFor, lastPurged := files.vote, files.purge;
      compactThreshold, compactionCount, totalDeadEliminated := COMPACT_THRESHOLD, 0, 0;
      var replayed: map<nat, Entry> := map[];
      var total, pos := 0, 0;
      var wal := files.wal;
      var more := true;
      ghost var ps := Payloads(ChecksumLast, wal);
      assert wal[0..] == wal;
      while more
        invariant pos <= |wal|
        invariant Replay(codec, map[], ps) ==
                  Replay(codec, replayed, if more then Payloads(ChecksumLast, wal[pos..]) else [])
        invariant |ps| == total + if more then |Payloads(ChecksumLast, wal[pos..])| else 0
        decreases more, |wal| - pos
      {
        var r := ReadRecord(wal, pos);
        match r
        case None => more := false;
        case Some(payload) =>
          total := total + 1;
          ReadFrameBound(ChecksumLast, wal[pos..]);
          ghost var here := Payloads(ChecksumLast, wal[pos..]);
          assert wal[pos..][8 + |payload|..] == wal[pos + 8 + |payload|..];
          assert here == [payload] + Payloads(ChecksumLast, wal[pos + 8 + |payload|..]);
          assert here[1..] == Payloads(ChecksumLast, wal[pos + 8 + |payload|..]);
          match codec.decode(payload) {
            case Some(Append(entry)) => replayed := replayed[entry.id.index := entry];
            case Some(Truncate(from)) => replayed := Below(replayed, from);
            case None =>
          }
          pos := pos + 8 + |payload|;
      }
      totalRecords := total;
      log := Above(replayed, files.purge);
    }

    /** A store without a directory: nothing is written, and compaction is a no-op. */
    constructor InMemory(codec: Codec)
      ensures this.codec == codec && writes == []
      ensures State() == Store(Memory(map[], None, None, 0, 0, 0, 0), false, EMPTY)
    {
      this.codec, durable, disk, writes := codec, false, EMPTY, [];
      log, lastPurged, votedFor := map[], None, None;
      totalRecords, compactThreshold, compactionCount, totalDeadEliminated := 0, 0, 0, 0;
    }

    /** One durable write. */
    method Persist(w: Write)
      modifies this`disk, this`writes
      ensures disk == Perform(old(disk), w) && writes == old(writes) + [w]
    {
      disk := Perform(disk, w);
      writes := writes + [w];
    }

    method AppendEntries(entries: seq<Entry>)
      modifies this
      ensures State() == Next(codec, old(State()), AppendOp(entries))
      ensures writes == old(writes) + Writes(codec, old(State()), AppendOp(entries))
    {
      hide Frame, Perform;
      assert entries[0..] == entries;
      for i := 0 to |entries|
        invariant unchanged(this`lastPurged, this`votedFor, this`compactThreshold)
        invariant unchanged(this`compactionCount, this`totalDeadEliminated)
        invariant Put(old(log), entries) == Put(log, entries[i..])
        invariant totalRecords == if durable then old(totalRecords) + i else old(totalRecords)
        invariant !durable ==> disk == old(disk) && writes == old(writes)
        invariant durable ==> writes == old(writes) + Extends(codec, entries)[..i]
        invariant durable ==>
          PerformAll(old(disk), Extends(codec, entries)) == PerformAll(disk, Extends(codec, entries)[i..])
      {
        var entry := entries[i];
        assert entries[i..][0] == entry && entries[i..][1..] == entries[i + 1..];
        if durable {
          ghost var ws := Extends(codec, entries);
          assert ws[i..][0] == ws[i] && ws[i..][1..] == ws[i + 1..];
          Persist(Extend(Frame(ChecksumLast, codec.encode(Append(entry)))));
          totalRecords := totalRecords + 1;
          assert ws[..i + 1] == ws[..i] + [ws[i]];
        }
        log := log[entry.id.index := entry];
      }
      assert entries[|entries|..] == [];
      assert durable ==> Extends(codec, entries)[|entries|..] == [];
      assert durable ==> Extends(codec, entries)[..|entries|] == Extends(codec, entries);
    }

    method TruncateFrom(id: LogId)
      modifies this
      ensures State() == Next(codec, old(State()), TruncateOp(id))
      ensures writes == old(writes) + Writes(codec, old(State()), TruncateOp(id))
      ensures forall k :: k in log <==> k in old(log) && k < id.index
    {
      hide Frame, Perform;
      if durable {
        var w := Extend(Frame(ChecksumLast, codec.encode(Truncate(id.index))));
        OneWrite(disk, w);
        Persist(w);
        totalRecords := totalRecords + 1 + CountFrom(log, id.index);
      }
      log := Below(log, id.index);
    }

    method Compact() returns (eliminated: nat)
      modifies this
      ensures State() == Next(codec, old(State()), CompactOp)
      ensures writes == old(writes) + Writes(codec, old(State()), CompactOp)
      ensures eliminated == if durable then Dead(old(State()).mem) else 0
      ensures log == old(log) && lastPurged == old(lastPurged)
      ensures durable ==> totalRecords == if old(totalRecords) > |log| then |log| else old(totalRecords)
    {
      hide Frames, Perform, Values, Texts;
      if !durable {
        return 0;
      }
      var liveCount := |log|;
      var dead := SaturatingSub(totalRecords, liveCount);
      if dead == 0 {
        return 0;
      }
      var bytes := RewriteLive();
      TwoWrites(disk, FillScratch(bytes), RenameScratch);
      Persist(FillScratch(bytes));
      Persist(RenameScratch);
      totalRecords := liveCount;
      compactionCount := compactionCount + 1;
      totalDeadEliminated := totalDeadEliminated + dead;
      eliminated := dead;
    }

    /** The bytes of `wal.new`: one append record per live entry, by ascending index. */
    method RewriteLive() returns (bytes: seq<byte>)
      ensures bytes == Frames(ChecksumLast, Texts(codec, Values(log)))
    {
      hide Frame;
      var entries := Values(log);
      ghost var ps := Texts(codec, entries);
      bytes := [];
      for i := 0 to |entries|
        invariant bytes == Frames(ChecksumLast, ps[..i])
      {
        var payload := codec.encode(Append(entries[i]));
        assert ps[..i + 1] == ps[..i] + [payload];
        FramesAppend(ChecksumLast, ps[..i], payload);
        bytes := bytes + Frame(ChecksumLast, payload);
      }
      assert ps[..|entries|] == ps;
    }

    method Purge(id: LogId)
      modifies this
      ensures State() == Next(codec, old(State()), PurgeOp(id))
      ensures writes == old(writes) + Writes(codec, old(State()), PurgeOp(id))
      ensures lastPurged == Some(id) && forall k :: k in log <==> k in old(log) && k > id.index
    {
      hide Perform, CompactWrites;
      var purgedCount := CountUpTo(log, id.index);
      lastPurged := Some(id);
      log := Above(log, Some(id));
      if durable {
        OneWrite(disk, SetPurge(id));
        Persist(SetPurge(id));
      }
      var live := |log|;
      var dead := SaturatingSub(totalRecords, live) + purgedCount;
      if dead > compactThreshold {
        PerformConcat(old(disk), [SetPurge(id)], CompactWrites(codec, State().mem));
        var _ := Compact();
      }
    }

    method SaveVote(vote: Vote)
      modifies this
      ensures State() == Next(codec, old(State()), VoteOp(vote))
      ensures writes == old(writes) + Writes(codec, old(State()), VoteOp(vote))
      ensures votedFor == Some(vote) && log == old(log) && lastPurged == old(lastPurged)
    {
      votedFor := Some(vote);
      if durable {
        OneWrite(disk, SetVote(vote));
        Persist(SetVote(vote));
      }
    }

    method SetCompactThreshold(threshold: nat)
      modifies this`compactThreshold
      ensures State() == Next(codec, old(State()), ThresholdOp(threshold))
      ensures compactThreshold == threshold
    {
      compactThreshold := threshold;
    }
  }
}
