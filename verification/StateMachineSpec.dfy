/** The replicated state machine as a value: per-user databases driven by the Raft log. */
module StateMachineSpec {
  import opened Options
  import opened RaftTypes
  import opened Ascending

  datatype Response = Response(message: string, ok: bool)

  /**
   * The SQL engine, an unknown but deterministic function: `open` gives the database a user
   * starts from, or the error of opening it; `run` and `reply` execute one statement.
   */
  datatype Engine<!Vm> = Engine(
    open: string -> Option<Vm>,
    openError: string -> string,
    run: (Vm, string) -> Vm,
    reply: (Vm, string) -> Response)

  /** `AppState`: the authentication database and the cache of user databases. */
  datatype Databases<Vm> = Databases(auth: Vm, users: map<string, Vm>)

  datatype Stored = Stored(at: Option<LogId>, members: Members)

  const NO_MEMBERS := Stored(None, Members([], map[]))

  datatype SnapshotData = SnapshotData(entries: seq<Request>, last: Option<LogId>, members: Stored)

  datatype Core<Vm> = Core(dbs: Databases<Vm>, last: Option<LogId>, members: Stored, applied: seq<Request>)

  /** The database a request of `user` finds: the cached one, or a newly opened one. */
  function Target<Vm>(g: Engine<Vm>, dbs: Databases<Vm>, user: string): Option<Vm>
  {
    if user == "" then Some(dbs.auth)
    else if user in dbs.users then Some(dbs.users[user])
    else g.open(user)
  }

  function ApplyRequest<Vm>(g: Engine<Vm>, dbs: Databases<Vm>, r: Request): Databases<Vm>
  {
    match Target(g, dbs, r.user)
    case None => dbs
    case Some(vm) =>
      if r.user == "" then dbs.(auth := g.run(vm, r.sql))
      else dbs.(users := dbs.users[r.user := g.run(vm, r.sql)])
  }

  function Reply<Vm>(g: Engine<Vm>, dbs: Databases<Vm>, r: Request): Response
  {
    match Target(g, dbs, r.user)
    case None => Response(g.openError(r.user), false)
    case Some(vm) => g.reply(vm, r.sql)
  }

  function ApplyRequests<Vm>(g: Engine<Vm>, dbs: Databases<Vm>, rs: seq<Request>): Databases<Vm>
    decreases |rs|
  {
    if rs == [] then dbs else ApplyRequests(g, ApplyRequest(g, dbs, rs[0]), rs[1..])
  }

  function ApplyEntry<Vm>(g: Engine<Vm>, s: Core<Vm>, e: Entry): Core<Vm>
  {
    var t := s.(last := Some(e.id));
    match e.payload
    case Blank => t
    case Normal(r) => t.(applied := s.applied + [r], dbs := ApplyRequest(g, s.dbs, r))
    case Membership(m) => t.(members := Stored(Some(e.id), m))
  }

  function ApplyAll<Vm>(g: Engine<Vm>, s: Core<Vm>, es: seq<Entry>): Core<Vm>
    decreases |es|
  {
    if es == [] then s else ApplyAll(g, ApplyEntry(g, s, es[0]), es[1..])
  }

  function EntryReply<Vm>(g: Engine<Vm>, s: Core<Vm>, e: Entry): Response
  {
    match e.payload
    case Blank => Response("blank", true)
    case Normal(r) => Reply(g, s.dbs, r)
    case Membership(_) => Response("membership", true)
  }

  function Replies<Vm>(g: Engine<Vm>, s: Core<Vm>, es: seq<Entry>): seq<Response>
    decreases |es|
  {
    if es == [] then [] else [EntryReply(g, s, es[0])] + Replies(g, ApplyEntry(g, s, es[0]), es[1..])
  }

  function Snapshot<Vm>(s: Core<Vm>): SnapshotData { SnapshotData(s.applied, s.last, s.members) }

  /** Installing replays the snapshot's statements onto whatever databases are there. */
  function Install<Vm>(g: Engine<Vm>, s: Core<Vm>, d: SnapshotData): Core<Vm>
  {
    Core(ApplyRequests(g, s.dbs, d.entries), d.last, d.members, d.entries)
  }

  function Start<Vm>(dbs: Databases<Vm>): Core<Vm> { Core(dbs, None, NO_MEMBERS, []) }

  // ---- Snapshot plus suffix ----

  lemma {:induction false} ApplyRequestsConcat<Vm>(
      g: Engine<Vm>, dbs: Databases<Vm>, rs: seq<Request>, qs: seq<Request>)
    ensures ApplyRequests(g, dbs, rs + qs) == ApplyRequests(g, ApplyRequests(g, dbs, rs), qs)
    decreases |rs|
  {
    if rs == [] {
      assert rs + qs == qs;
    } else {
      assert (rs + qs)[1..] == rs[1..] + qs;
      ApplyRequestsConcat(g, ApplyRequest(g, dbs, rs[0]), rs[1..], qs);
    }
  }

  lemma {:induction false} ApplyAllConcat<Vm>(g: Engine<Vm>, s: Core<Vm>, es: seq<Entry>, fs: seq<Entry>)
    ensures ApplyAll(g, s, es + fs) == ApplyAll(g, ApplyAll(g, s, es), fs)
    decreases |es|
  {
    if es == [] {
      assert es + fs == fs;
    } else {
      assert (es + fs)[1..] == es[1..] + fs;
      ApplyAllConcat(g, ApplyEntry(g, s, es[0]), es[1..], fs);
    }
  }

  /** The databases are always the applied statements run from the databases at the start. */
  ghost predicate Replayable<Vm>(g: Engine<Vm>, dbs: Databases<Vm>, s: Core<Vm>)
  {
    s.dbs == ApplyRequests(g, dbs, s.applied)
  }

  lemma {:induction false} ApplyAllReplayable<Vm>(g: Engine<Vm>, dbs: Databases<Vm>, s: Core<Vm>, es: seq<Entry>)
    requires Replayable(g, dbs, s)
    ensures Replayable(g, dbs, ApplyAll(g, s, es))
    decreases |es|
  {
    if es != [] {
      if es[0].payload.Normal? {
        var r := es[0].payload.request;
        ApplyRequestsConcat(g, dbs, s.applied, [r]);
        assert [r][1..] == [];
        assert ApplyRequests(g, s.dbs, [r]) == ApplyRequest(g, s.dbs, r);
      }
      ApplyAllReplayable(g, dbs, ApplyEntry(g, s, es[0]), es[1..]);
    }
  }

  /**
   * Snapshot plus suffix is the full log: a replica whose databases are as new installs a
   * snapshot taken after `es`, applies `fs`, and is in the state of applying `es + fs`.
   */
  lemma SnapshotPlusSuffix<Vm>(g: Engine<Vm>, dbs: Databases<Vm>, replica: Core<Vm>, es: seq<Entry>, fs: seq<Entry>)
    requires replica.dbs == dbs
    ensures
      var leader := ApplyAll(g, Start(dbs), es);
      && Install(g, replica, Snapshot(leader)) == leader
      && ApplyAll(g, Install(g, replica, Snapshot(leader)), fs) == ApplyAll(g, Start(dbs), es + fs)
  {
    ApplyAllReplayable(g, dbs, Start(dbs), es);
    ApplyAllConcat(g, Start(dbs), es, fs);
  }

  /** A snapshot of a replica that itself installed one is as good as a snapshot of the leader. */
  lemma SnapshotOfSnapshot<Vm>(
      g: Engine<Vm>, dbs: Databases<Vm>, a: Core<Vm>, b: Core<Vm>, es: seq<Entry>, fs: seq<Entry>)
    requires a.dbs == dbs && b.dbs == dbs
    ensures
      var relay := ApplyAll(g, Install(g, a, Snapshot(ApplyAll(g, Start(dbs), es))), fs);
      Install(g, b, Snapshot(relay)) == ApplyAll(g, Start(dbs), es + fs)
  {
    SnapshotPlusSuffix(g, dbs, a, es, fs);
    SnapshotPlusSuffix(g, dbs, b, es + fs, []);
  }

  /** An engine whose database counts the statements it ran. */
  function CountingEngine(): Engine<int>
  {
    Engine(_ => Some(0), _ => "", (vm, _) => vm + 1, (_, _) => Response("", true))
  }

  /** Installing onto databases that already ran statements runs the snapshot's again. */
  lemma InstallOnUsedDatabases()
    ensures
      var g := CountingEngine();
      var leader := ApplyAll(g, Start(Databases(0, map[])), [Entry(LogId(1, 1, 1), Normal(Request("x", "")))]);
      Install(g, leader, Snapshot(leader)) != leader
  {
    var g := CountingEngine();
    var r := Request("x", "");
    var e := Entry(LogId(1, 1, 1), Normal(r));
    var leader := ApplyAll(g, Start(Databases(0, map[])), [e]);
    var s := ApplyEntry(g, Start(Databases(0, map[])), e);
    assert [e][1..] == [] && [r][1..] == [];
    assert ApplyAll(g, s, []) == s;
    assert leader.applied == [r];
    assert ApplyRequests(g, leader.dbs, [r]) == ApplyRequest(g, leader.dbs, r);
  }

  // ---- Users are isolated ----

  /** The statements of `user`, in log order. */
  function StatementsOf(es: seq<Entry>, user: string): seq<string>
  {
    if es == [] then []
    else if es[0].payload.Normal? && es[0].payload.request.user == user then
      [es[0].payload.request.sql] + StatementsOf(es[1..], user)
    else StatementsOf(es[1..], user)
  }

  function RunAll<Vm>(g: Engine<Vm>, vm: Vm, sqls: seq<string>): Vm
    decreases |sqls|
  {
    if sqls == [] then vm else RunAll(g, g.run(vm, sqls[0]), sqls[1..])
  }

  /** What a next request of `user` would find. */
  function View<Vm>(g: Engine<Vm>, s: Core<Vm>, user: string): Option<Vm> { Target(g, s.dbs, user) }

  /**
   * A user's database after any log is that user's own statements run, in order, on the
   * database the user started from; other users' statements change nothing.
   */
  lemma {:induction false} UserIsolation<Vm>(g: Engine<Vm>, s: Core<Vm>, es: seq<Entry>, user: string)
    ensures
      var start := View(g, s, user);
      View(g, ApplyAll(g, s, es), user) ==
        if start.None? then None else Some(RunAll(g, start.value, StatementsOf(es, user)))
    decreases |es|
  {
    if es != [] {
      UserIsolation(g, ApplyEntry(g, s, es[0]), es[1..], user);
    }
  }

  /** Two logs that agree on one user's statements leave that user the same database. */
  lemma SameStatementsSameDatabase<Vm>(g: Engine<Vm>, s: Core<Vm>, es: seq<Entry>, fs: seq<Entry>, user: string)
    requires StatementsOf(es, user) == StatementsOf(fs, user)
    ensures View(g, ApplyAll(g, s, es), user) == View(g, ApplyAll(g, s, fs), user)
  {
    UserIsolation(g, s, es, user);
    UserIsolation(g, s, fs, user);
  }

  // ---- What a log leaves besides the databases ----

  /** `es[i]` is the last change of membership. */
  predicate LastMembership(es: seq<Entry>, i: int)
  {
    0 <= i < |es| && es[i].payload.Membership? && forall j :: i < j < |es| ==> !es[j].payload.Membership?
  }

  /** A log leaves its last membership, with the id of that entry, or the one that was there. */
  lemma {:induction false} MembershipMeans<Vm>(g: Engine<Vm>, s: Core<Vm>, es: seq<Entry>)
    ensures forall i :: LastMembership(es, i) ==>
      ApplyAll(g, s, es).members == Stored(Some(es[i].id), es[i].payload.members)
    ensures (forall i :: 0 <= i < |es| ==> !es[i].payload.Membership?) ==> ApplyAll(g, s, es).members == s.members
    decreases |es|
  {
    if es != [] {
      var rest := es[1..];
      MembershipMeans(g, ApplyEntry(g, s, es[0]), rest);
      forall i | LastMembership(es, i)
        ensures ApplyAll(g, s, es).members == Stored(Some(es[i].id), es[i].payload.members)
      {
        if i > 0 {
          assert LastMembership(rest, i - 1);
        }
      }
    }
  }

  /** The last applied id is that of the last entry. */
  lemma {:induction false} LastIdMeans<Vm>(g: Engine<Vm>, s: Core<Vm>, es: seq<Entry>)
    ensures ApplyAll(g, s, es).last == if es == [] then s.last else Some(es[|es| - 1].id)
    decreases |es|
  {
    if es != [] {
      LastIdMeans(g, ApplyEntry(g, s, es[0]), es[1..]);
    }
  }

  /** The positions in a log of its statements, ascending. */
  predicate StatementsAt(es: seq<Entry>, at: seq<nat>)
  {
    && Ascends(at, |es|)
    && (forall k :: 0 <= k < |at| ==> es[at[k]].payload.Normal?)
    && (forall i :: 0 <= i < |es| && es[i].payload.Normal? ==> i in at)
  }

  /** The list of applied requests grows by the log's statements, all of them and in order. */
  lemma {:induction false} AppliedMeans<Vm>(g: Engine<Vm>, s: Core<Vm>, es: seq<Entry>) returns (at: seq<nat>)
    ensures StatementsAt(es, at) && ApplyAll(g, s, es).applied == s.applied + RequestsAt(es, at)
    decreases |es|
  {
    hide ApplyRequest, StatementsAt, RequestsAt;
    if es == [] {
      at := [];
      NoStatements(s.applied);
    } else {
      var n := |es| - 1;
      assert es == es[..n] + [es[n]];
      ApplyAllConcat(g, s, es[..n], [es[n]]);
      OneEntry(g, ApplyAll(g, s, es[..n]), es[n]);
      var front := AppliedMeans(g, s, es[..n]);
      at := if es[n].payload.Normal? then front + [n] else front;
      StatementsSnoc(es, front, at);
      RequestsSnoc(s.applied, es, front, at);
    }
  }

  /** The requests at these positions of the log. */
  function RequestsAt(es: seq<Entry>, at: seq<nat>): (rs: seq<Request>)
    requires StatementsAt(es, at)
    ensures |rs| == |at| && forall k :: 0 <= k < |at| ==> rs[k] == es[at[k]].payload.request
  {
    seq(|at|, k requires 0 <= k < |at| => es[at[k]].payload.request)
  }

  lemma NoStatements(applied: seq<Request>)
    ensures StatementsAt([], []) && applied + RequestsAt([], []) == applied
  {
  }

  lemma RequestsSnoc(applied: seq<Request>, es: seq<Entry>, front: seq<nat>, at: seq<nat>)
    requires es != [] && StatementsAt(es[..|es| - 1], front) && StatementsAt(es, at)
    requires at == if es[|es| - 1].payload.Normal? then front + [|es| - 1] else front
    ensures var e := es[|es| - 1];
      applied + RequestsAt(es, at) ==
        (applied + RequestsAt(es[..|es| - 1], front)) + if e.payload.Normal? then [e.payload.request] else []
  {
    var n := |es| - 1;
    assert forall k :: 0 <= k < |front| ==> es[..n][front[k]] == es[front[k]];
  }

  lemma OneEntry<Vm>(g: Engine<Vm>, s: Core<Vm>, e: Entry)
    ensures ApplyAll(g, s, [e]) == ApplyEntry(g, s, e)
  {
    assert [e][1..] == [];
  }

  lemma StatementsSnoc(es: seq<Entry>, front: seq<nat>, at: seq<nat>)
    requires es != [] && StatementsAt(es[..|es| - 1], front)
    requires at == if es[|es| - 1].payload.Normal? then front + [|es| - 1] else front
    ensures StatementsAt(es, at)
  {
    var n := |es| - 1;
    forall k | 0 <= k < |front| ensures front[k] < n && es[front[k]].payload.Normal? {
      assert es[..n][front[k]] == es[front[k]];
    }
    forall i | 0 <= i < |es| && es[i].payload.Normal? ensures i in at {
      if i < n {
        assert es[..n][i] == es[i];
        assert i in front;
      } else {
        assert at[|at| - 1] == n;
      }
    }
  }

  lemma {:induction false} ReplyAt<Vm>(g: Engine<Vm>, s: Core<Vm>, es: seq<Entry>, i: nat)
    requires i < |es|
    ensures |Replies(g, s, es)| == |es|
    ensures Replies(g, s, es)[i] == EntryReply(g, ApplyAll(g, s, es[..i]), es[i])
    decreases |es|
  {
    var t := ApplyEntry(g, s, es[0]);
    if i > 0 {
      ReplyAt(g, t, es[1..], i - 1);
      assert es[..i][1..] == es[1..][..i - 1];
    } else if |es| > 1 {
      ReplyAt(g, t, es[1..], 0);
    }
  }

  /**
   * Reply `i` of a batch: what the statement returns on its user's database after that user's own
   * earlier statements of the batch, or the error of opening that database.
   */
  lemma ReplyMeans<Vm>(g: Engine<Vm>, s: Core<Vm>, es: seq<Entry>, i: nat)
    requires i < |es|
    ensures |Replies(g, s, es)| == |es|
    ensures var p := es[i].payload;
      Replies(g, s, es)[i] ==
        if p.Blank? then Response("blank", true)
        else if p.Membership? then Response("membership", true)
        else
          var start := View(g, s, p.request.user);
          if start.None? then Response(g.openError(p.request.user), false)
          else g.reply(RunAll(g, start.value, StatementsOf(es[..i], p.request.user)), p.request.sql)
  {
    hide Replies, ApplyAll, StatementsOf, RunAll;
    ReplyAt(g, s, es, i);
    if es[i].payload.Normal? {
      UserIsolation(g, s, es[..i], es[i].payload.request.user);
    }
  }

  // ---- Databases that are not new ----

  lemma {:induction false} SameApplied<Vm>(g: Engine<Vm>, s: Core<Vm>, t: Core<Vm>, es: seq<Entry>)
    requires s.applied == t.applied
    ensures ApplyAll(g, s, es).applied == ApplyAll(g, t, es).applied
    decreases |es|
  {
    if es != [] {
      SameApplied(g, ApplyEntry(g, s, es[0]), ApplyEntry(g, t, es[0]), es[1..]);
    }
  }

  /** Installing the snapshot of a log leaves the databases that applying the log would. */
  lemma InstallIsApply<Vm>(g: Engine<Vm>, dbs: Databases<Vm>, replica: Core<Vm>, es: seq<Entry>)
    ensures Install(g, replica, Snapshot(ApplyAll(g, Start(dbs), es))).dbs == ApplyAll(g, Start(replica.dbs), es).dbs
  {
    SameApplied(g, Start(dbs), Start(replica.dbs), es);
    ApplyAllReplayable(g, replica.dbs, Start(replica.dbs), es);
  }

  /** Snapshots of every log install correctly exactly on a replica with the databases the leader started from. */
  lemma InstallAgreesIff<Vm>(g: Engine<Vm>, dbs: Databases<Vm>, replica: Core<Vm>)
    ensures replica.dbs == dbs <==>
      forall es :: Install(g, replica, Snapshot(ApplyAll(g, Start(dbs), es))) == ApplyAll(g, Start(dbs), es)
  {
    if replica.dbs == dbs {
      forall es ensures Install(g, replica, Snapshot(ApplyAll(g, Start(dbs), es))) == ApplyAll(g, Start(dbs), es) {
        SnapshotPlusSuffix(g, dbs, replica, es, []);
      }
    } else {
      assert ApplyAll(g, Start(dbs), []) == Start(dbs);
    }
  }

  /** One user's database after installing: that user's statements of the log, run on what the replica had. */
  lemma InstalledView<Vm>(g: Engine<Vm>, dbs: Databases<Vm>, replica: Core<Vm>, es: seq<Entry>, user: string)
    ensures
      var was := View(g, replica, user);
      View(g, Install(g, replica, Snapshot(ApplyAll(g, Start(dbs), es))), user) ==
        if was.None? then None else Some(RunAll(g, was.value, StatementsOf(es, user)))
  {
    InstallIsApply(g, dbs, replica, es);
    UserIsolation(g, Start(replica.dbs), es, user);
  }

  /** For one user it is that user's database alone that has to be the one the leader started from. */
  lemma InstallUserIff<Vm>(g: Engine<Vm>, dbs: Databases<Vm>, replica: Core<Vm>, user: string)
    ensures View(g, replica, user) == View(g, Start(dbs), user) <==>
      forall es ::
        View(g, Install(g, replica, Snapshot(ApplyAll(g, Start(dbs), es))), user)
          == View(g, ApplyAll(g, Start(dbs), es), user)
  {
    hide Install, Snapshot, View;
    if View(g, replica, user) == View(g, Start(dbs), user) {
      forall es ensures
        View(g, Install(g, replica, Snapshot(ApplyAll(g, Start(dbs), es))), user)
          == View(g, ApplyAll(g, Start(dbs), es), user)
      {
        InstalledView(g, dbs, replica, es, user);
        UserIsolation(g, Start(dbs), es, user);
      }
    } else {
      InstalledView(g, dbs, replica, [], user);
      UserIsolation(g, Start(dbs), [], user);
    }
  }

  // ---- Restarting on directories ----

  /** With a data directory, what the next process opens for a user is what this one left there. */
  function Reopened<Vm>(g: Engine<Vm>, s: Core<Vm>): Engine<Vm>
  {
    g.(open := (u: string) => if u in s.dbs.users then Some(s.dbs.users[u]) else g.open(u))
  }

  lemma {:induction false} SameRuns<Vm>(g: Engine<Vm>, h: Engine<Vm>, vm: Vm, sqls: seq<string>)
    requires g.run == h.run
    ensures RunAll(g, vm, sqls) == RunAll(h, vm, sqls)
    decreases |sqls|
  {
    if sqls != [] {
      SameRuns(g, h, g.run(vm, sqls[0]), sqls[1..]);
    }
  }

  lemma {:induction false} StatementsConcat(es: seq<Entry>, fs: seq<Entry>, user: string)
    ensures StatementsOf(es + fs, user) == StatementsOf(es, user) + StatementsOf(fs, user)
    decreases |es|
  {
    if es == [] {
      assert es + fs == fs;
    } else {
      assert (es + fs)[1..] == es[1..] + fs;
      StatementsConcat(es[1..], fs, user);
    }
  }

  lemma {:induction false} RunConcat<Vm>(g: Engine<Vm>, vm: Vm, a: seq<string>, b: seq<string>)
    ensures RunAll(g, vm, a + b) == RunAll(g, RunAll(g, vm, a), b)
    decreases |a|
  {
    if a == [] {
      assert a + b == b;
    } else {
      assert (a + b)[1..] == a[1..] + b;
      RunConcat(g, g.run(vm, a[0]), a[1..], b);
    }
  }

  /** The state after a stop at `es + fs`, a restart from the snapshot at `es` on the directories, and `fs` again. */
  function Restarted<Vm>(g: Engine<Vm>, dbs: Databases<Vm>, es: seq<Entry>, fs: seq<Entry>): Core<Vm>
  {
    var stopped := ApplyAll(g, Start(dbs), es + fs);
    var h := Reopened(g, stopped);
    ApplyAll(h, Install(h, Start(Databases(stopped.dbs.auth, map[])), Snapshot(ApplyAll(g, Start(dbs), es))), fs)
  }

  /**
   * On directories a restart runs every user's statements again: all of the log's, on the
   * database as it was when the process stopped.
   */
  lemma RestartRunsAgain<Vm>(g: Engine<Vm>, dbs: Databases<Vm>, es: seq<Entry>, fs: seq<Entry>, user: string)
    ensures
      var stopped := ApplyAll(g, Start(dbs), es + fs);
      var was := View(g, stopped, user);
      View(Reopened(g, stopped), Restarted(g, dbs, es, fs), user) ==
        if was.None? then None else Some(RunAll(g, was.value, StatementsOf(es + fs, user)))
  {
    hide StatementsOf, RunAll, Install;
    var stopped := ApplyAll(g, Start(dbs), es + fs);
    var h := Reopened(g, stopped);
    var begun := Start(Databases(stopped.dbs.auth, map[]));
    var installed := Install(h, begun, Snapshot(ApplyAll(g, Start(dbs), es)));
    assert View(h, begun, user) == View(g, stopped, user);
    SameSnapshot(g, h, dbs, es);
    InstalledView(h, dbs, begun, es, user);
    UserIsolation(h, installed, fs, user);
    StatementsConcat(es, fs, user);
    var was := View(g, stopped, user);
    if was.Some? {
      RunConcat(h, was.value, StatementsOf(es, user), StatementsOf(fs, user));
      SameRuns(g, h, was.value, StatementsOf(es + fs, user));
    }
  }

  /** What a snapshot holds does not depend on the databases. */
  lemma {:induction false} SameLog<Vm>(g: Engine<Vm>, h: Engine<Vm>, s: Core<Vm>, t: Core<Vm>, es: seq<Entry>)
    requires Snapshot(s) == Snapshot(t)
    ensures Snapshot(ApplyAll(g, s, es)) == Snapshot(ApplyAll(h, t, es))
    decreases |es|
  {
    if es != [] {
      SameLog(g, h, ApplyEntry(g, s, es[0]), ApplyEntry(h, t, es[0]), es[1..]);
    }
  }

  lemma SameSnapshot<Vm>(g: Engine<Vm>, h: Engine<Vm>, dbs: Databases<Vm>, es: seq<Entry>)
    ensures Snapshot(ApplyAll(g, Start(dbs), es)) == Snapshot(ApplyAll(h, Start(dbs), es))
  {
    SameLog(g, h, Start(dbs), Start(dbs), es);
  }

  /** So a user's database is as it was exactly when running the user's statements once more changes nothing. */
  lemma RestartAgreesIff<Vm>(g: Engine<Vm>, dbs: Databases<Vm>, es: seq<Entry>, fs: seq<Entry>, user: string)
    ensures
      var stopped := ApplyAll(g, Start(dbs), es + fs);
      var was := View(g, stopped, user);
      View(Reopened(g, stopped), Restarted(g, dbs, es, fs), user) == was <==>
        (was.None? || RunAll(g, was.value, StatementsOf(es + fs, user)) == was.value)
  {
    RestartRunsAgain(g, dbs, es, fs, user);
  }

  /** A user's one statement, on an engine that counts them: 1 when the process stopped, 2 after the restart. */
  lemma RestartCountsTwice()
    ensures
      var g, dbs := CountingEngine(), Databases(0, map[]);
      var es := [Entry(LogId(1, 1, 1), Normal(Request("x", "u")))];
      var stopped := ApplyAll(g, Start(dbs), es + []);
      && View(g, stopped, "u") == Some(1)
      && View(Reopened(g, stopped), Restarted(g, dbs, es, []), "u") == Some(2)
  {
    var g, dbs := CountingEngine(), Databases(0, map[]);
    var es := [Entry(LogId(1, 1, 1), Normal(Request("x", "u")))];
    assert es + [] == es;
    OneStatement(es[0], "x", "u");
    UserIsolation(g, Start(dbs), es, "u");
    RestartRunsAgain(g, dbs, es, [], "u");
    forall vm: int ensures RunAll(g, vm, ["x"]) == vm + 1 {
      assert ["x"][1..] == [];
      assert RunAll(g, vm + 1, []) == vm + 1;
    }
  }

  lemma OneStatement(e: Entry, sql: string, user: string)
    requires e.payload == Normal(Request(sql, user))
    ensures StatementsOf([e], user) == [sql]
  {
    assert [e][1..] == [];
    assert StatementsOf([], user) == [];
  }
}
