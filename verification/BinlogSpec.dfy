/** The binlog file as a value: framed records, the scan of frames and crash recovery. */
module BinlogSpec {
  import opened Bytes
  import opened Options
  import opened Framing
  import opened LogRecords

  predicate Loggable(r: LogRecord) { IsRecord(r) && Fits(EncRecord(r)) }

  predicate AllLoggable(rs: seq<LogRecord>) { forall i :: 0 <= i < |rs| ==> Loggable(rs[i]) }

  function Encoded(rs: seq<LogRecord>): (ps: seq<seq<byte>>)
    requires AllLoggable(rs)
    ensures |ps| == |rs| && AllFit(ps)
    ensures forall i :: 0 <= i < |rs| ==> ps[i] == EncRecord(rs[i])
  {
    seq(|rs|, i requires 0 <= i < |rs| => EncRecord(rs[i]))
  }

  /** The bytes that appending the records in order produces. */
  function Stream(rs: seq<LogRecord>): seq<byte>
    requires AllLoggable(rs)
  {
    Frames(ChecksumFirst, Encoded(rs))
  }

  /** The record at the start of `file`: a whole frame, checksum and all, that decodes. */
  function FirstRecord(file: seq<byte>): (r: Option<(LogRecord, nat)>)
    ensures r.Some? ==> 8 <= r.value.1 <= |file|
  {
    match ReadFrame(ChecksumFirst, file)
    case None => None
    case Some(p) =>
      match DecRecord(p, 0)
      case None => None
      case Some((r, _)) => Some((r, 8 + |p|))
  }

  /** The records recovery keeps. */
  function Recovered(file: seq<byte>): seq<LogRecord>
    decreases |file|
  {
    match FirstRecord(file)
    case None => []
    case Some((r, n)) => [r] + Recovered(file[n..])
  }

  /** Where recovery cuts the file. */
  function ValidLength(file: seq<byte>): (n: nat)
    ensures n <= |file|
    decreases |file|
  {
    match FirstRecord(file)
    case None => 0
    case Some((_, n)) => n + ValidLength(file[n..])
  }

  function Prepared(rs: seq<LogRecord>): set<nat> { set r | r in rs && r.Prepare? :: r.txid }

  function Finished(rs: seq<LogRecord>): set<nat> { set r | r in rs && (r.Commit? || r.Rollback?) :: r.txid }

  /** Prepared, and neither committed nor rolled back anywhere in the log. */
  predicate InDoubt(rs: seq<LogRecord>, t: nat)
  {
    && (exists i :: 0 <= i < |rs| && rs[i] == Prepare(t))
    && forall i :: 0 <= i < |rs| ==> rs[i] != Commit(t) && rs[i] != Rollback(t)
  }

  lemma InDoubtIff(rs: seq<LogRecord>)
    ensures forall t: nat :: t in Prepared(rs) - Finished(rs) <==> InDoubt(rs, t)
  {
    forall t: nat ensures t in Prepared(rs) - Finished(rs) <==> InDoubt(rs, t) {
      OneInDoubt(rs, t);
    }
  }

  lemma OneInDoubt(rs: seq<LogRecord>, t: nat)
    ensures t in Prepared(rs) - Finished(rs) <==> InDoubt(rs, t)
  {
    if t in Prepared(rs) {
      var r :| r in rs && r.Prepare? && r.txid == t;
      assert r == Prepare(t);
    }
    if t in Finished(rs) {
      var r :| r in rs && (r.Commit? || r.Rollback?) && r.txid == t;
      assert r == Commit(t) || r == Rollback(t);
    }
    assert Prepare(t) in rs ==> t in Prepared(rs);
    assert Commit(t) in rs || Rollback(t) in rs ==> t in Finished(rs);
  }

  // ---- Recovery ----

  lemma FirstRecordHere(r: LogRecord, rest: seq<byte>)
    requires Loggable(r)
    ensures FirstRecord(Frame(ChecksumFirst, EncRecord(r)) + rest) == Some((r, 8 + |EncRecord(r)|))
    ensures (Frame(ChecksumFirst, EncRecord(r)) + rest)[8 + |EncRecord(r)|..] == rest
  {
    hide Frame, ReadFrame, EncRecord, DecRecord, IsRecord;
    var p := EncRecord(r);
    ReadFrameHere(ChecksumFirst, p, rest);
    assert p[0..0 + |p|] == p;
    DecEncRecord(p, 0, r);
  }

  lemma FirstRecordCut(r: LogRecord, k: nat)
    requires Loggable(r) && k < 8 + |EncRecord(r)|
    ensures |Frame(ChecksumFirst, EncRecord(r))| == 8 + |EncRecord(r)|
    ensures FirstRecord(Frame(ChecksumFirst, EncRecord(r))[..k]) == None
  {
    hide Frame, ReadFrame, EncRecord, IsRecord;
    ReadFrameCut(ChecksumFirst, EncRecord(r), k);
  }

  lemma StreamUnfold(rs: seq<LogRecord>)
    requires AllLoggable(rs) && rs != []
    ensures AllLoggable(rs[1..])
    ensures Encoded(rs)[1..] == Encoded(rs[1..])
    ensures Stream(rs) == Frame(ChecksumFirst, EncRecord(rs[0])) + Stream(rs[1..])
  {
  }

  /**
   * The file cut at any byte: recovery keeps exactly the records whose frames lie wholly
   * inside the cut, and truncates the file right after the last of them.
   */
  lemma {:induction false} RecoverCut(rs: seq<LogRecord>, k: nat)
    requires AllLoggable(rs) && k <= |Stream(rs)|
    ensures var w := Whole(Encoded(rs), k);
      && Recovered(Stream(rs)[..k]) == rs[..w]
      && ValidLength(Stream(rs)[..k]) == |Stream(rs[..w])|
      && Stream(rs[..w]) == Stream(rs)[..k][..|Stream(rs[..w])|]
    decreases |rs|
  {
    hide Frame, EncRecord, IsRecord, FirstRecord, Recovered, ValidLength, Stream, Encoded;
    var file := Stream(rs)[..k];
    if rs == [] {
      NothingRecovered();
    } else {
      StreamUnfold(rs);
      var first, n := Frame(ChecksumFirst, EncRecord(rs[0])), 8 + |EncRecord(rs[0])|;
      FrameLength(ChecksumFirst, EncRecord(rs[0]));
      EncodedLength(rs);
      RecoverStep(file);
      if k < n {
        assert file == first[..k];
        FirstRecordCut(rs[0], k);
        NothingRecovered();
      } else {
        var tail := Stream(rs[1..])[..k - n];
        assert file == first + tail;
        FirstRecordHere(rs[0], tail);
        RecoverCut(rs[1..], k - n);
        var w := Whole(Encoded(rs), k);
        EncodedLength(rs[1..]);
        assert rs[..w][1..] == rs[1..][..w - 1];
        StreamUnfold(rs[..w]);
        assert [rs[0]] + rs[1..][..w - 1] == rs[..w];
        PrefixOfBoth(first, Stream(rs[1..][..w - 1]), tail);
      }
    }
  }

  lemma NothingRecovered()
    ensures Stream([]) == [] && Encoded([]) == []
    ensures Recovered([]) == [] && ValidLength([]) == 0
  {
  }

  lemma EncodedLength(rs: seq<LogRecord>)
    requires AllLoggable(rs)
    ensures |Encoded(rs)| == |rs| && (rs != [] ==> Encoded(rs)[0] == EncRecord(rs[0]))
  {
  }

  /** One turn of the recovery loop. */
  lemma RecoverStep(file: seq<byte>)
    ensures FirstRecord(file).None? ==> Recovered(file) == [] && ValidLength(file) == 0
    ensures FirstRecord(file).Some? ==>
      var (r, n) := FirstRecord(file).value;
      n <= |file| && Recovered(file) == [r] + Recovered(file[n..]) && ValidLength(file) == n + ValidLength(file[n..])
  {
  }

  lemma PrefixOfBoth(first: seq<byte>, x: seq<byte>, tail: seq<byte>)
    requires |x| <= |tail| && x == tail[..|x|]
    ensures first + x == (first + tail)[..|first + x|]
  {
  }

  /** Appending to a recovered file continues the stream of the surviving records. */
  lemma StreamAppend(rs: seq<LogRecord>, r: LogRecord)
    requires AllLoggable(rs) && Loggable(r)
    ensures AllLoggable(rs + [r]) && Stream(rs + [r]) == Stream(rs) + Frame(ChecksumFirst, EncRecord(r))
  {
    hide Frame, EncRecord, IsRecord, Frames;
    assert Encoded(rs + [r]) == Encoded(rs) + [EncRecord(r)];
    FramesAppend(ChecksumFirst, Encoded(rs), EncRecord(r));
  }

  lemma {:induction false} WholeAll(ps: seq<seq<byte>>)
    ensures Whole(ps, |Frames(ChecksumFirst, ps)|) == |ps|
  {
    hide Frame;
    if ps != [] {
      FrameLength(ChecksumFirst, ps[0]);
      WholeAll(ps[1..]);
    }
  }

  // ---- Scanning frames from an offset ----

  /** Each whole frame from `pos` on, with the offset after it. */
  function Scan(content: seq<byte>, pos: nat): seq<(nat, seq<byte>)>
    decreases |content| - pos
  {
    if pos > |content| then []
    else
      match ReadFrame(ChecksumFirst, content[pos..])
      case None => []
      case Some(p) => [(pos + 8 + |p|, content[pos..pos + 8 + |p|])] + Scan(content, pos + 8 + |p|)
  }

  /** The offset after the first `i` records. */
  function Offset(rs: seq<LogRecord>, i: nat): nat
    requires AllLoggable(rs) && i <= |rs|
  {
    |Stream(rs[..i])|
  }

  /** What a scan from record `i` to record `w` should give. */
  function FramesBetween(rs: seq<LogRecord>, i: nat, w: nat): seq<(nat, seq<byte>)>
    requires AllLoggable(rs) && i <= w <= |rs|
    decreases w - i
  {
    if i == w then [] else [(Offset(rs, i + 1), Frame(ChecksumFirst, EncRecord(rs[i])))] + FramesBetween(rs, i + 1, w)
  }

  lemma StreamSplit(rs: seq<LogRecord>, i: nat)
    requires AllLoggable(rs) && i <= |rs|
    ensures AllLoggable(rs[..i]) && AllLoggable(rs[i..]) && Stream(rs) == Stream(rs[..i]) + Stream(rs[i..])
  {
    hide IsRecord, EncRecord, Frames;
    assert Encoded(rs) == Encoded(rs[..i]) + Encoded(rs[i..]);
    FramesConcat(ChecksumFirst, Encoded(rs[..i]), Encoded(rs[i..]));
  }

  lemma OffsetStep(rs: seq<LogRecord>, i: nat)
    requires AllLoggable(rs) && i < |rs|
    ensures Offset(rs, i + 1) == Offset(rs, i) + 8 + |EncRecord(rs[i])|
  {
    hide IsRecord, EncRecord, Frame, Stream;
    assert rs[..i + 1] == rs[..i] + [rs[i]];
    StreamAppend(rs[..i], rs[i]);
    FrameLength(ChecksumFirst, EncRecord(rs[i]));
  }

  lemma {:induction false} OffsetMonotone(rs: seq<LogRecord>, i: nat, j: nat)
    requires AllLoggable(rs) && i <= j <= |rs|
    ensures Offset(rs, i) <= Offset(rs, j)
    decreases j - i
  {
    hide IsRecord, EncRecord, Offset;
    if i < j {
      OffsetStep(rs, i);
      OffsetMonotone(rs, i + 1, j);
    }
  }

  /** The records wholly inside the first `k` bytes of the stream. */
  function WholeRecords(rs: seq<LogRecord>, k: nat): (w: nat)
    requires AllLoggable(rs)
    ensures w <= |rs|
  {
    Whole(Encoded(rs), k)
  }

  lemma WholeRecordsBounds(rs: seq<LogRecord>, k: nat)
    requires AllLoggable(rs) && k <= |Stream(rs)|
    ensures var w := WholeRecords(rs, k);
      Offset(rs, w) <= k && (w < |rs| ==> k < Offset(rs, w + 1))
  {
    hide IsRecord, EncRecord, Whole, Frames;
    var w := WholeRecords(rs, k);
    WholeIsMaximal(ChecksumFirst, Encoded(rs), k);
    EncodedPrefix(rs, w);
    if w < |rs| {
      EncodedPrefix(rs, w + 1);
    }
  }

  lemma EncodedPrefix(rs: seq<LogRecord>, w: nat)
    requires AllLoggable(rs) && w <= |rs|
    ensures Encoded(rs)[..w] == Encoded(rs[..w])
  {
  }

  /** The bytes of the cut stream from record `i` on. */
  lemma CutFrom(rs: seq<LogRecord>, k: nat, i: nat)
    requires AllLoggable(rs) && k <= |Stream(rs)| && i <= |rs| && Offset(rs, i) <= k
    ensures AllLoggable(rs[i..]) && k - Offset(rs, i) <= |Stream(rs[i..])|
    ensures Stream(rs)[..k][Offset(rs, i)..] == Stream(rs[i..])[..k - Offset(rs, i)]
  {
    hide Stream, IsRecord;
    StreamSplit(rs, i);
  }

  /**
   * A scan of the cut stream from any record boundary gives exactly the frames between that
   * boundary and the last record wholly written, each with the offset after it.
   */
  lemma {:induction false} ScanCut(rs: seq<LogRecord>, k: nat, i: nat)
    requires AllLoggable(rs) && k <= |Stream(rs)| && i <= WholeRecords(rs, k)
    ensures Scan(Stream(rs)[..k], Offset(rs, i)) == FramesBetween(rs, i, WholeRecords(rs, k))
    decreases |rs| - i
  {
    hide Frame, ReadFrame, EncRecord, IsRecord, Stream, Offset, WholeRecords;
    var w := WholeRecords(rs, k);
    var content, off := Stream(rs)[..k], Offset(rs, i);
    WholeRecordsBounds(rs, k);
    OffsetMonotone(rs, i, w);
    CutFrom(rs, k, i);
    var here := Stream(rs[i..])[..k - off];
    if i < |rs| {
      StreamUnfold(rs[i..]);
      OffsetStep(rs, i);
      var p := EncRecord(rs[i]);
      FrameLength(ChecksumFirst, p);
      assert rs[i..][0] == rs[i];
      ReadableLoggable(rs, i);
      if i < w {
        OffsetMonotone(rs, i + 1, w);
        var rest := Stream(rs[i..][1..])[..k - off - 8 - |p|];
        assert here == Frame(ChecksumFirst, p) + rest;
        ReadFrameHere(ChecksumFirst, p, rest);
        assert content[off..off + 8 + |p|] == here[..8 + |p|] == Frame(ChecksumFirst, p);
        ScanCut(rs, k, i + 1);
      } else {
        assert here == Frame(ChecksumFirst, p)[..k - off];
        ReadFrameCut(ChecksumFirst, p, k - off);
      }
    } else {
      NothingLeft(rs[i..], here);
    }
  }

  lemma ReadableLoggable(rs: seq<LogRecord>, i: nat)
    requires AllLoggable(rs) && i < |rs|
    ensures Fits(EncRecord(rs[i]))
  {
  }

  lemma NothingLeft(rs: seq<LogRecord>, here: seq<byte>)
    requires rs == [] && |here| <= |Stream(rs)|
    ensures ReadFrame(ChecksumFirst, here) == None
  {
  }
}
