/** The Raft state machine: applies committed entries, builds and installs snapshots. */
module StateMachine {
  import opened Bytes
  import opened Options
  import opened RaftTypes
  import opened StateMachineSpec

  datatype Meta = Meta(last: Option<LogId>, members: Stored, id: SnapshotId)

  /** The snapshot's name: the last applied log id, if any, and a running number. */
  datatype SnapshotId = SnapshotId(last: Option<LogId>, number: nat)

  datatype Persisted = Persisted(meta: Meta, data: SnapshotData)

  /** The JSON text of a snapshot; `decodeBare` reads the older form without the meta part. */
  datatype SnapshotCodec = SnapshotCodec(
    encode: Persisted -> seq<byte>,
    decode: seq<byte> -> Option<Persisted>,
    decodeBare: seq<byte> -> Option<SnapshotData>)

  ghost predicate Lawful(c: SnapshotCodec) { forall p :: c.decode(c.encode(p)) == Some(p) }

  /** A blob that is neither form installs an empty snapshot. */
  function Parse(c: SnapshotCodec, meta: Meta, bytes: seq<byte>): Persisted
  {
    match c.decode(bytes)
    case Some(p) => p
    case None =>
      Persisted(meta, match c.decodeBare(bytes)
        case Some(d) => d
        case None => SnapshotData([], None, NO_MEMBERS))
  }

  class KkdbStateMachine<Vm> {
    const engine: Engine<Vm>
    const codec: SnapshotCodec
    /** Whether snapshots are kept in a directory. */
    const durable: bool
    /** Whether user databases live in memory, as they do without a data directory. */
    const inMemory: bool
    var auth: Vm
    var users: map<string, Vm>
    var lastApplied: Option<LogId>
    var lastMembership: Stored
    var appliedEntries: seq<Request>
    var snapshotIdx: nat
    var current: Option<Persisted>
    /** `snapshot.json`, replaced as a whole by a rename. */
    var snapshotFile: Option<seq<byte>>

    ghost function State(): Core<Vm>
      reads this
    {
      Core(Databases(auth, users), lastApplied, lastMembership, appliedEntries)
    }

    /** `open`: install the snapshot on disk, if there is one that decodes. */
    constructor (
      engine: Engine<Vm>, codec: SnapshotCodec, inMemory: bool, auth: Vm, users: map<string, Vm>,
      file: Option<seq<byte>>)
      ensures this.engine == engine && this.codec == codec && this.inMemory == inMemory
      ensures durable && snapshotFile == file && snapshotIdx == 0
      ensures file.None? || codec.decode(file.value).None? ==>
        State() == Start(Databases(auth, users)) && current == None
      ensures file.Some? && codec.decode(file.value).Some? ==>
        var p := codec.decode(file.value).value;
        && State() == Install(engine, Start(Databases(auth, users)), p.data)
        && current == Some(p)
    {
      this.engine, this.codec, this.inMemory, durable, snapshotFile := engine, codec, inMemory, true, file;
      this.auth, this.users := auth, users;
      lastApplied, lastMembership, appliedEntries := None, NO_MEMBERS, [];
      snapshotIdx, current := 0, None;
      new;
      if file.Some? && codec.decode(file.value).Some? {
        var p := codec.decode(file.value).value;
        lastApplied, lastMembership, appliedEntries := p.data.last, p.data.members, p.data.entries;
        current := Some(p);
        Replay(p.data.entries);
      }
    }

    /** Route one statement to its database and run it. */
    method Execute(r: Request) returns (reply: Response)
      modifies this`auth, this`users
      ensures Databases(auth, users) == ApplyRequest(engine, old(Databases(auth, users)), r)
      ensures reply == Reply(engine, old(Databases(auth, users)), r)
    {
      if r.user == "" {
        reply := engine.reply(auth, r.sql);
        auth := engine.run(auth, r.sql);
      } else {
        if r.user !in users {
          match engine.open(r.user) {
            case None => return Response(engine.openError(r.user), false);
            case Some(vm) => users := users[r.user := vm];
          }
        }
        var vm := users[r.user];
        reply := engine.reply(vm, r.sql);
        users := users[r.user := engine.run(vm, r.sql)];
      }
    }

    method Replay(rs: seq<Request>)
      modifies this`auth, this`users
      ensures Databases(auth, users) == ApplyRequests(engine, old(Databases(auth, users)), rs)
    {
      for i := 0 to |rs|
        invariant ApplyRequests(engine, old(Databases(auth, users)), rs)
               == ApplyRequests(engine, Databases(auth, users), rs[i..])
      {
        var _ := Execute(rs[i]);
        assert rs[i..][1..] == rs[i + 1..];
      }
    }

    method Apply(entries: seq<Entry>) returns (replies: seq<Response>)
      modifies this
      ensures State() == ApplyAll(engine, old(State()), entries)
      ensures replies == Replies(engine, old(State()), entries)
      ensures snapshotIdx == old(snapshotIdx) && current == old(current) && snapshotFile == old(snapshotFile)
    {
      hide ApplyEntry, EntryReply;
      replies := [];
      for i := 0 to |entries|
        invariant ApplyAll(engine, old(State()), entries) == ApplyAll(engine, State(), entries[i..])
        invariant Replies(engine, old(State()), entries) == replies + Replies(engine, State(), entries[i..])
        invariant snapshotIdx == old(snapshotIdx) && current == old(current) && snapshotFile == old(snapshotFile)
      {
        assert entries[i..][0] == entries[i] && entries[i..][1..] == entries[i + 1..];
        var reply := ApplyOne(entries[i]);
        replies := replies + [reply];
      }
    }

    method ApplyOne(entry: Entry) returns (reply: Response)
      modifies this
      ensures State() == ApplyEntry(engine, old(State()), entry)
      ensures reply == EntryReply(engine, old(State()), entry)
      ensures snapshotIdx == old(snapshotIdx) && current == old(current) && snapshotFile == old(snapshotFile)
    {
      lastApplied := Some(entry.id);
      match entry.payload {
        case Blank => reply := Response("blank", true);
        case Normal(r) =>
          appliedEntries := appliedEntries + [r];
          reply := Execute(r);
        case Membership(m) =>
          lastMembership := Stored(Some(entry.id), m);
          reply := Response("membership", true);
      }
    }

    method BuildSnapshot() returns (meta: Meta, bytes: seq<byte>)
      modifies this`snapshotIdx, this`current, this`snapshotFile
      ensures State() == old(State()) && snapshotIdx == old(snapshotIdx) + 1
      ensures meta == Meta(lastApplied, lastMembership, SnapshotId(lastApplied, snapshotIdx))
      ensures bytes == codec.encode(Persisted(meta, Snapshot(State())))
      ensures current == Some(Persisted(meta, Snapshot(State())))
      ensures snapshotFile == if durable then Some(bytes) else old(snapshotFile)
    {
      snapshotIdx := snapshotIdx + 1;
      var data := SnapshotData(appliedEntries, lastApplied, lastMembership);
      meta := Meta(lastApplied, lastMembership, SnapshotId(lastApplied, snapshotIdx));
      var p := Persisted(meta, data);
      bytes := codec.encode(p);
      if durable {
        snapshotFile := Some(bytes);
      }
      current := Some(p);
    }

    method InstallSnapshot(meta: Meta, bytes: seq<byte>)
      modifies this
      ensures State() == Install(engine, old(State()), Parse(codec, meta, bytes).data)
      ensures current == Some(Parse(codec, meta, bytes)) && snapshotIdx == old(snapshotIdx)
      ensures snapshotFile == if durable then Some(codec.encode(Parse(codec, meta, bytes))) else old(snapshotFile)
      ensures codec.decode(bytes).Some? ==> current == codec.decode(bytes)
      ensures codec.decode(bytes).None? && codec.decodeBare(bytes).Some? ==>
        current == Some(Persisted(meta, codec.decodeBare(bytes).value))
      ensures codec.decode(bytes).None? && codec.decodeBare(bytes).None? ==>
        State() == Core(old(State()).dbs, None, Stored(None, Members([], map[])), [])
    {
      var p := Parse(codec, meta, bytes);
      if durable {
        snapshotFile := Some(codec.encode(p));
      }
      lastApplied, lastMembership, appliedEntries := p.data.last, p.data.members, p.data.entries;
      current := Some(p);
      Replay(p.data.entries);
    }
  }

  /** A leader's snapshot, shipped as bytes to a replica with new databases, catches it up with the leader. */
  method ShipSnapshot<Vm>(
    leader: KkdbStateMachine<Vm>, replica: KkdbStateMachine<Vm>, ghost dbs: Databases<Vm>,
    ghost es: seq<Entry>, fs: seq<Entry>)
    requires leader != replica && leader.engine == replica.engine && leader.codec == replica.codec
    requires Lawful(leader.codec)
    requires leader.State() == ApplyAll(leader.engine, Start(dbs), es)
    requires Databases(replica.auth, replica.users) == dbs
    modifies leader, replica
    ensures replica.State() == ApplyAll(leader.engine, Start(dbs), es + fs)
    ensures leader.State() == old(leader.State())
  {
    SnapshotPlusSuffix(leader.engine, dbs, replica.State(), es, fs);
    var meta, bytes := leader.BuildSnapshot();
    replica.InstallSnapshot(meta, bytes);
    var _ := replica.Apply(fs);
  }

  /**
   * Restart with user databases in memory: the new process opens them as the old one did, so a
   * machine that took a snapshot and went on is rebuilt from the file and the entries since.
   * On directories see `RestartRunsAgain`.
   */
  method Restart<Vm>(
    machine: KkdbStateMachine<Vm>, auth: Vm, users: map<string, Vm>, ghost es: seq<Entry>, fs: seq<Entry>)
    returns (m: KkdbStateMachine<Vm>)
    requires machine.durable && machine.inMemory && Lawful(machine.codec)
    requires machine.State() == ApplyAll(machine.engine, Start(Databases(auth, users)), es)
    modifies machine
    ensures fresh(m) && m.inMemory && m.State() == ApplyAll(machine.engine, Start(Databases(auth, users)), es + fs)
    ensures m.State() == machine.State()
  {
    ghost var dbs := Databases(auth, users);
    SnapshotPlusSuffix(machine.engine, dbs, Start(dbs), es, fs);
    var _, _ := machine.BuildSnapshot();
    var _ := machine.Apply(fs);
    m := new KkdbStateMachine(machine.engine, machine.codec, true, auth, users, machine.snapshotFile);
    var _ := m.Apply(fs);
  }
}
