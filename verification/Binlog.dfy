/** The binlog manager: an append-only file behind a write buffer, its scan and its recovery. */
module Binlog {
  import opened Bytes
  import opened Options
  import opened Crc
  import opened Framing
  import opened LogRecords
  import opened BinlogSpec

  /** The payload of the frame at `pos`, unless it is cut short or its checksum differs. */
  method ReadFrameAt(content: seq<byte>, pos: nat) returns (r: Option<seq<byte>>)
    requires pos <= |content|
    ensures r == ReadFrame(ChecksumFirst, content[pos..])
  {
    hide FromLe, Crc32;
    ghost var rest := content[pos..];
    if pos + 8 > |content| {
      return None;
    }
    assert content[pos..pos + 4] == rest[..4] && content[pos + 4..pos + 8] == rest[4..8];
    var len := FromLe(content[pos..pos + 4]);
    var stored := FromLe(content[pos + 4..pos + 8]);
    var start := pos + 8;
    var end := start + len;
    if end > |content| {
      return None;
    }
    assert content[start..end] == rest[8..8 + len];
    var actual := Checksum(content[start..end]);
    r := if actual == stored then Some(content[start..end]) else None;
  }

  method ScanFrames(content: seq<byte>, from: nat) returns (results: seq<(nat, seq<byte>)>)
    ensures results == Scan(content, from)
  {
    hide ReadFrame, Scan;
    results := [];
    var pos := from;
    ScanStep(content, from);
    if pos > |content| {
      return;
    }
    assert results + Scan(content, from) == Scan(content, from);
    while true
      invariant pos <= |content|
      invariant Scan(content, from) == results + Scan(content, pos)
      decreases |content| - pos
    {
      var payload := ReadFrameAt(content, pos);
      ScanStep(content, pos);
      if payload.None? {
        assert results + [] == results;
        return;
      }
      var next := pos + 8 + |payload.value|;
      Assoc(results, [(next, content[pos..next])], Scan(content, next));
      results := results + [(next, content[pos..next])];
      pos := next;
    }
  }

  lemma ScanStep(content: seq<byte>, pos: nat)
    ensures pos > |content| ==> Scan(content, pos) == []
    ensures pos <= |content| ==>
      match ReadFrame(ChecksumFirst, content[pos..])
      case None => Scan(content, pos) == []
      case Some(p) =>
        && pos + 8 + |p| <= |content|
        && Scan(content, pos) == [(pos + 8 + |p|, content[pos..pos + 8 + |p|])] + Scan(content, pos + 8 + |p|)
  {
  }

  class BinlogManager {
    /** Whether there is a file; without one, `memBuf` holds the whole log. */
    const durable: bool
    /** The bytes that reached the file, and those still in the write buffer. */
    var file: seq<byte>
    var pending: seq<byte>
    var memBuf: seq<byte>
    var writePos: nat

    ghost function Log(): seq<byte>
      reads this
    {
      if durable then file + pending else memBuf
    }

    ghost predicate Valid()
      reads this
    {
      writePos == |Log()|
    }

    constructor Open(content: seq<byte>)
      ensures Valid() && durable && file == content && pending == []
    {
      durable, file, pending, memBuf, writePos := true, content, [], [], |content|;
      new;
      assert file + [] == file;
    }

    constructor OpenMemory()
      ensures Valid() && !durable && Log() == []
    {
      durable, file, pending, memBuf, writePos := false, [], [], [], 0;
    }

    /** Appends one framed record; the start offset is where the log ended before. */
    method Append(r: LogRecord) returns (start: nat)
      requires Valid() && IsRecord(r)
      modifies this
      ensures Valid() && start == |old(Log())|
      ensures Log() == old(Log()) + Frame(ChecksumFirst, EncRecord(r))
      ensures file == old(file)
    {
      hide IsRecord, EncRecord, Crc32, Le;
      start := writePos;
      var data := EncRecord(r);
      var sum := Checksum(data);
      var header := Le(|data| % U32_LIMIT, 4) + Le(sum, 4);
      FrameLength(ChecksumFirst, data);
      assert header + data == Frame(ChecksumFirst, data);
      if durable {
        assert file + (pending + (header + data)) == file + pending + (header + data);
        pending := pending + (header + data);
      } else {
        memBuf := memBuf + (header + data);
      }
      writePos := writePos + 8 + |data|;
    }

    /** The write buffer may pass any first part of what it holds on to the file at any time. */
    method Drain(n: nat)
      requires Valid() && n <= |pending|
      modifies this
      ensures Valid() && Log() == old(Log()) && memBuf == old(memBuf)
      ensures file == old(file) + old(pending)[..n]
    {
      assert file + pending[..n] + pending[n..] == file + pending;
      file, pending := file + pending[..n], pending[n..];
    }

    method Fsync()
      requires Valid()
      modifies this
      ensures Valid() && Log() == old(Log())
      ensures durable ==> file == Log() && pending == []
    {
      if durable {
        file, pending := file + pending, [];
        assert file + [] == file;
      }
    }

    /** Only what reached the file can be read back. */
    method ReadFrom(from: nat) returns (results: seq<(nat, seq<byte>)>)
      ensures results == Scan(if durable then file else memBuf, from)
    {
      results := ScanFrames(if durable then file else memBuf, from);
    }

    /** Drops everything from the first unreadable record on; returns the transactions in doubt. */
    method Recover() returns (inDoubt: set<nat>)
      requires Valid()
      modifies this
      ensures Valid()
      ensures !durable ==> inDoubt == {} && Log() == old(Log())
      ensures durable ==>
        && Log() == file == old(Log())[..ValidLength(old(Log()))]
        && inDoubt == Prepared(Recovered(old(Log()))) - Finished(Recovered(old(Log())))
    {
      if !durable {
        return {};
      }
      file, pending := file + pending, [];
      var prepared, committed, lastValid := ReplayMarks(file);
      if lastValid < |file| {
        file := file[..lastValid];
      } else {
        assert file[..lastValid] == file;
      }
      assert file + [] == file;
      writePos := lastValid;
      inDoubt := prepared - committed;
    }
  }

  method ReplayMarks(content: seq<byte>) returns (prepared: set<nat>, committed: set<nat>, lastValid: nat)
    ensures prepared == Prepared(Recovered(content)) && committed == Finished(Recovered(content))
    ensures lastValid == ValidLength(content)
  {
    hide ReadFrame, DecRecord, Prepared, Finished, Recovered, ValidLength;
    prepared, committed, lastValid := {}, {}, 0;
    var more := true;
    ghost var done: seq<LogRecord> := [];
    NoMarks();
    assert content[0..] == content;
    while more
      invariant lastValid <= |content|
      invariant Recovered(content) == done + if more then Recovered(content[lastValid..]) else []
      invariant ValidLength(content) == lastValid + if more then ValidLength(content[lastValid..]) else 0
      invariant prepared == Prepared(done) && committed == Finished(done)
      decreases more, |content| - lastValid
    {
      var payload := ReadFrameAt(content, lastValid);
      ReadFrameBound(ChecksumFirst, content[lastValid..]);
      RecoverStep(content[lastValid..]);
      more := false;
      if payload.Some? {
        var decoded := DecRecord(payload.value, 0);
        if decoded.Some? {
          more := true;
          var record, n := decoded.value.0, 8 + |payload.value|;
          prepared, committed := Mark(record, prepared, committed, done);
          assert content[lastValid..][n..] == content[lastValid + n..];
          Assoc(done, [record], Recovered(content[lastValid + n..]));
          done := done + [record];
          lastValid := lastValid + n;
        }
      }
    }
    assert done + [] == done;
  }

  /** One record's mark. */
  method Mark(record: LogRecord, prepared: set<nat>, committed: set<nat>, ghost done: seq<LogRecord>)
    returns (p: set<nat>, c: set<nat>)
    requires prepared == Prepared(done) && committed == Finished(done)
    ensures p == Prepared(done + [record]) && c == Finished(done + [record])
  {
    hide Prepared, Finished;
    MarkStep(done, record);
    p, c := prepared, committed;
    match record {
      case Prepare(t) => p := p + {t};
      case Commit(t) => c := c + {t};
      case Rollback(t) => c := c + {t};
      case _ =>
    }
  }

  lemma NoMarks()
    ensures Prepared([]) == {} && Finished([]) == {}
  {
  }

  lemma MarkStep(rs: seq<LogRecord>, r: LogRecord)
    ensures Prepared(rs + [r]) == Prepared(rs) + if r.Prepare? then {r.txid} else {}
    ensures Finished(rs + [r]) == Finished(rs) + if r.Commit? || r.Rollback? then {r.txid} else {}
  {
  }

  /**
   * Crash and recovery, end to end: whatever was appended, and however many bytes of it
   * reached the file, a manager opened on those bytes recovers exactly the whole records,
   * reports exactly the transactions prepared but not finished among them, and goes on
   * appending after them.
   */
  method CrashRecoverAppend(rs: seq<LogRecord>, k: nat, r: LogRecord)
    returns (m: BinlogManager, inDoubt: set<nat>, results: seq<(nat, seq<byte>)>)
    requires AllLoggable(rs) && k <= |Stream(rs)| && Loggable(r)
    ensures var kept := rs[..WholeRecords(rs, k)];
      && (forall t: nat :: t in inDoubt <==> InDoubt(kept, t))
      && AllLoggable(kept + [r])
      && m.file == m.Log() == Stream(kept + [r])
      && results == FramesBetween(kept + [r], 0, |kept| + 1)
  {
    hide Loggable, Stream, Frame, Prepared, Finished, FramesBetween, WholeRecords, Scan, InDoubt;
    ghost var kept := rs[..WholeRecords(rs, k)];
    RecoverCutKept(rs, k);
    m := new BinlogManager.Open(Stream(rs)[..k]);
    assert m.Log() == Stream(rs)[..k];
    inDoubt := m.Recover();
    InDoubtIff(kept);
    StreamAppend(kept, r);
    LoggableIsRecord(r);
    var _ := m.Append(r);
    m.Fsync();
    results := m.ReadFrom(0);
    ScanWhole(kept + [r]);
  }

  lemma LoggableIsRecord(r: LogRecord)
    requires Loggable(r)
    ensures IsRecord(r)
  {
  }

  lemma RecoverCutKept(rs: seq<LogRecord>, k: nat)
    requires AllLoggable(rs) && k <= |Stream(rs)|
    ensures var kept := rs[..WholeRecords(rs, k)];
      var file := Stream(rs)[..k];
      && AllLoggable(kept)
      && Recovered(file) == kept && file[..ValidLength(file)] == Stream(kept)
  {
    hide Loggable, Stream;
    RecoverCut(rs, k);
  }

  lemma ScanWhole(rs: seq<LogRecord>)
    requires AllLoggable(rs)
    ensures Scan(Stream(rs), 0) == FramesBetween(rs, 0, |rs|)
  {
    hide Loggable, Scan;
    var k := |Stream(rs)|;
    WholeAll(Encoded(rs));
    ScanCut(rs, k, 0);
    assert Stream(rs)[..k] == Stream(rs);
    assert Encoded(rs[..0]) == [];
  }
}
