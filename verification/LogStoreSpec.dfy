/**
 * The Raft log store as a value: what is in memory, what is on disk, the durable writes each
 * operation issues and what reopening the directory rebuilds.
 */
module LogStoreSpec {
  import opened Bytes
  import opened Options
  import opened RaftTypes
  import opened Framing

  datatype WalRecord = Append(entry: Entry) | Truncate(from: nat)

  /** The JSON text of a WAL record; all that matters is that decoding undoes encoding. */
  datatype Codec = Codec(encode: WalRecord -> seq<byte>, decode: seq<byte> -> Option<WalRecord>)

  ghost predicate Lawful(c: Codec) { forall r :: c.decode(c.encode(r)) == Some(r) }

  const COMPACT_THRESHOLD := 1000

  datatype Memory = Memory(
    log: map<nat, Entry>,
    purged: Option<LogId>,
    vote: Option<Vote>,
    total: nat,
    threshold: nat,
    compactions: nat,
    eliminated: nat)

  /** `wal.log`, `wal.new`, `purge.json` and `vote.json`. */
  datatype Disk = Disk(wal: seq<byte>, scratch: seq<byte>, purge: Option<LogId>, vote: Option<Vote>)

  const EMPTY := Disk([], [], None, None)

  /** The in-memory state and, for a store opened on a directory, its files. */
  datatype Store = Store(mem: Memory, durable: bool, disk: Disk)

  // ---- Replay ----

  function Below(m: map<nat, Entry>, from: nat): map<nat, Entry> { map k | k in m && k < from :: m[k] }

  function Above(m: map<nat, Entry>, purged: Option<LogId>): map<nat, Entry>
  {
    if purged.None? then m else map k | k in m && k > purged.value.index :: m[k]
  }

  function ReplayRecord(m: map<nat, Entry>, r: WalRecord): map<nat, Entry>
  {
    match r
    case Append(e) => m[e.id.index := e]
    case Truncate(from) => Below(m, from)
  }

  /** A payload that does not decode is skipped. */
  function ReplayPayload(c: Codec, m: map<nat, Entry>, p: seq<byte>): map<nat, Entry>
  {
    match c.decode(p)
    case None => m
    case Some(r) => ReplayRecord(m, r)
  }

  function Replay(c: Codec, m: map<nat, Entry>, ps: seq<seq<byte>>): map<nat, Entry>
    decreases |ps|
  {
    if ps == [] then m else Replay(c, ReplayPayload(c, m, ps[0]), ps[1..])
  }

  /** What opening the directory rebuilds. */
  function Reopen(c: Codec, d: Disk): Memory
  {
    var ps := Payloads(ChecksumLast, d.wal);
    Memory(Above(Replay(c, map[], ps), d.purge), d.purge, d.vote, |ps|, COMPACT_THRESHOLD, 0, 0)
  }

  // ---- Durable writes ----

  datatype Write =
    | Extend(bytes: seq<byte>)
    | SetPurge(id: LogId)
    | SetVote(vote: Vote)
    | FillScratch(bytes: seq<byte>)
    | RenameScratch

  function Perform(d: Disk, w: Write): Disk
  {
    match w
    case Extend(b) => d.(wal := d.wal + b)
    case SetPurge(id) => d.(purge := Some(id))
    case SetVote(v) => d.(vote := Some(v))
    case FillScratch(b) => d.(scratch := b)
    case RenameScratch => d.(wal := d.scratch, scratch := [])
  }

  function PerformAll(d: Disk, ws: seq<Write>): Disk
    decreases |ws|
  {
    if ws == [] then d else PerformAll(Perform(d, ws[0]), ws[1..])
  }

  /**
   * The disks a crash can leave while `w` is under way: nothing written, everything written,
   * any first part of the bytes going to the log or to the scratch file, or a purge or vote
   * file cut short.  These two are emptied before they are written, and a file that does not
   * decode is opened as an absent one.
   */
  ghost predicate MidWrite(d: Disk, w: Write, crashed: Disk)
  {
    || crashed == d
    || crashed == Perform(d, w)
    || (w.Extend? && exists k :: 0 <= k <= |w.bytes| && crashed == d.(wal := d.wal + w.bytes[..k]))
    || (w.FillScratch? && exists k :: 0 <= k <= |w.bytes| && crashed == d.(scratch := w.bytes[..k]))
    || (w.SetPurge? && crashed == d.(purge := None))
    || (w.SetVote? && crashed == d.(vote := None))
  }

  /** The disks a crash can leave at any moment of the writes `ws`. */
  ghost predicate MidWrites(d: Disk, ws: seq<Write>, crashed: Disk)
    decreases |ws|
  {
    || crashed == d
    || (ws != [] && (MidWrite(d, ws[0], crashed) || MidWrites(Perform(d, ws[0]), ws[1..], crashed)))
  }

  // ---- Operations ----

  datatype Op =
    | AppendOp(entries: seq<Entry>)
    | TruncateOp(id: LogId)
    | PurgeOp(id: LogId)
    | CompactOp
    | VoteOp(vote: Vote)
    | ThresholdOp(threshold: nat)
    | ReopenOp

  function Put(log: map<nat, Entry>, es: seq<Entry>): map<nat, Entry>
    decreases |es|
  {
    if es == [] then log else Put(log[es[0].id.index := es[0]], es[1..])
  }

  function SaturatingSub(a: nat, b: nat): nat { if a >= b then a - b else 0 }

  function CountUpTo(log: map<nat, Entry>, last: nat): nat { |set k | k in log && k <= last| }

  function CountFrom(log: map<nat, Entry>, first: nat): nat { |set k | k in log && k >= first| }

  predicate IsLeast(k: nat, s: set<nat>) { k in s && forall j :: j in s ==> k <= j }

  function Least(s: set<nat>): (k: nat)
    requires s != {}
    ensures IsLeast(k, s)
  {
    LeastExists(s);
    var k :| k in s && IsLeast(k, s);
    k
  }

  lemma {:induction false} LeastExists(s: set<nat>)
    requires s != {}
    ensures exists k :: IsLeast(k, s)
    decreases |s|
  {
    var x :| x in s;
    assert forall j :: j in s ==> j == x || j in s - {x};
    if s - {x} == {} {
      assert IsLeast(x, s);
    } else {
      LeastExists(s - {x});
      var y :| IsLeast(y, s - {x});
      assert IsLeast(if x < y then x else y, s);
    }
  }

  /** `BTreeMap::values`: the entries by ascending key. */
  function Values(log: map<nat, Entry>): seq<Entry>
    decreases |log|
  {
    if log == map[] then []
    else
      var k := Least(log.Keys);
      [log[k]] + Values(log - {k})
  }

  function Texts(c: Codec, es: seq<Entry>): (ps: seq<seq<byte>>)
    ensures |ps| == |es|
  {
    seq(|es|, i requires 0 <= i < |es| => c.encode(Append(es[i])))
  }

  function Live(m: Memory): nat { |m.log| }

  function Dead(m: Memory): nat { SaturatingSub(m.total, Live(m)) }

  function Compacted(m: Memory): Memory
  {
    if Dead(m) == 0 then m
    else m.(total := Live(m), compactions := m.compactions + 1, eliminated := m.eliminated + Dead(m))
  }

  function CompactWrites(c: Codec, m: Memory): seq<Write>
  {
    if Dead(m) == 0 then []
    else [FillScratch(Frames(ChecksumLast, Texts(c, Values(m.log)))), RenameScratch]
  }

  function Purged(m: Memory, id: LogId): Memory { m.(purged := Some(id), log := Above(m.log, Some(id))) }

  predicate PurgeCompacts(m: Memory, id: LogId)
  {
    Dead(Purged(m, id)) + CountUpTo(m.log, id.index) > m.threshold
  }

  function Extends(c: Codec, es: seq<Entry>): (ws: seq<Write>)
    ensures |ws| == |es|
  {
    seq(|es|, i requires 0 <= i < |es| => Extend(Frame(ChecksumLast, c.encode(Append(es[i])))))
  }

  function NextMemory(c: Codec, s: Store, op: Op): Memory
  {
    var m := s.mem;
    match op
    case AppendOp(es) => m.(log := Put(m.log, es), total := if s.durable then m.total + |es| else m.total)
    case TruncateOp(id) =>
      m.(log := Below(m.log, id.index),
         total := if s.durable then m.total + 1 + CountFrom(m.log, id.index) else m.total)
    case PurgeOp(id) =>
      if s.durable && PurgeCompacts(m, id) then Compacted(Purged(m, id)) else Purged(m, id)
    case CompactOp => if s.durable then Compacted(m) else m
    case VoteOp(v) => m.(vote := Some(v))
    case ThresholdOp(t) => m.(threshold := t)
    case ReopenOp => if s.durable then Reopen(c, s.disk) else m
  }

  function Writes(c: Codec, s: Store, op: Op): seq<Write>
  {
    if !s.durable then [] else
    match op
    case AppendOp(es) => Extends(c, es)
    case TruncateOp(id) => [Extend(Frame(ChecksumLast, c.encode(Truncate(id.index))))]
    case PurgeOp(id) =>
      [SetPurge(id)] + (if PurgeCompacts(s.mem, id) then CompactWrites(c, Purged(s.mem, id)) else [])
    case CompactOp => CompactWrites(c, s.mem)
    case VoteOp(v) => [SetVote(v)]
    case ThresholdOp(_) => []
    case ReopenOp => []
  }

  function Next(c: Codec, s: Store, op: Op): Store
  {
    Store(NextMemory(c, s, op), s.durable, PerformAll(s.disk, Writes(c, s, op)))
  }
}
