/** The statements of module Slots issued by any number of handlers at once, in any order. */
module SlotRuns {
  import opened Common
  import opened Slots

  /**
   * A handler between two of its statements. Reserved: a slot is held, the core and the insert are
   * still to come. Failing: the rollback is still to come. Tearing: the peer was read. Finishing:
   * the decrement is done, the deactivation is still to come; `counted` if it reached the server.
   */
  datatype Job =
    | Reserved(server: nat, user: nat, key: string)
    | Failing(server: nat)
    | Tearing(peer: nat, server: nat, drop: bool, decrement: bool)
    | Finishing(peer: nat, server: nat, drop: bool, counted: bool)

  /**
   * What has happened on one server: teardown decrements, rows that stopped being active, decrements
   * at zero, failed rollbacks; of the teardowns, those that lowered the counter and took no active row
   * away, and those that took one away and did not lower the counter.
   */
  datatype Tally = Tally(decs: nat, deacts: nat, clamps: nat, lost: nat, wasted: nat, uncounted: nat)

  datatype State = State(t: Tables, jobs: map<nat, Job>, tally: map<nat, Tally>)

  datatype Act =
    | Reserve(job: nat, server: nat, user: nat, key: string)
    | Create(job: nat, id: nat, coreWorks: bool)
    | Rollback(job: nat, works: bool)
    | Read(job: nat, id: nat, kind: Kind)
    | Decrement(job: nat, luck: Luck)
    | Finish(job: nat, works: bool)

  predicate Enabled(s: State, a: Act) {
    match a
    case Reserve(job, sv, _, _) => job !in s.jobs && CanReserve(s.t, sv) && sv in s.tally
    case Create(job, id, _) => job in s.jobs && s.jobs[job].Reserved? && NewId(s, id)
    case Rollback(job, _) => job in s.jobs && s.jobs[job].Failing? && s.jobs[job].server in s.tally
    case Read(job, id, kind) => job !in s.jobs && id in s.t.peers && (kind.BanOrCleanup? ==> s.t.peers[id].active)
    case Decrement(job, _) => job in s.jobs && s.jobs[job].Tearing? && s.jobs[job].server in s.tally
    case Finish(job, _) => job in s.jobs && s.jobs[job].Finishing? && s.jobs[job].server in s.tally
  }

  predicate WorksOn(j: Job, id: nat) { (j.Tearing? || j.Finishing?) && j.peer == id }

  /** Row ids are random: a new one is no row's, and no teardown has read it. */
  predicate NewId(s: State, id: nat) { id !in s.t.peers && forall j | j in s.jobs :: !WorksOn(s.jobs[j], id) }

  /** The final statement of a teardown takes an active row away. */
  predicate Ends(s: State, peer: nat, works: bool) { works && peer in s.t.peers && s.t.peers[peer].active }

  function Ended(y: Tally, ends: bool, counted: bool): Tally {
    if ends then y.(deacts := y.deacts + 1, uncounted := if counted then y.uncounted else y.uncounted + 1)
    else y.(wasted := if counted then y.wasted + 1 else y.wasted)
  }

  /** A counter update at zero leaves it at zero. */
  function Clamped(s: State, sv: nat): nat { if sv in s.t.servers && s.t.servers[sv].current > 0 then 0 else 1 }

  function Effect(s: State, a: Act): State
    requires Enabled(s, a)
  {
    match a
    case Reserve(job, sv, user, key) => s.(t := Shifted(s.t, sv, 1), jobs := s.jobs[job := Reserved(sv, user, key)])
    case Create(job, id, coreWorks) =>
      var j := s.jobs[job];
      var p := Peer(j.user, j.server, j.key, true);
      if coreWorks && CanCreate(s.t, p) then State(Inserted(s.t, id, p), s.jobs - {job}, s.tally)
      else s.(jobs := s.jobs[job := Failing(j.server)])
    case Rollback(job, works) =>
      var sv := s.jobs[job].server;
      var y := s.tally[sv];
      if works then State(Shifted(s.t, sv, -1), s.jobs - {job}, s.tally[sv := y.(clamps := y.clamps + Clamped(s, sv))])
      else State(s.t, s.jobs - {job}, s.tally[sv := y.(lost := y.lost + 1)])
    case Read(job, id, kind) =>
      var p := s.t.peers[id];
      s.(jobs := s.jobs[job := Tearing(id, p.server, kind.DeleteConnection?, kind.Disconnect? || p.active)])
    case Decrement(job, luck) =>
      var j := s.jobs[job];
      var y := s.tally[j.server];
      var counted := j.decrement && luck.serverFound && luck.updateWorks;
      var jobs := s.jobs[job := Finishing(j.peer, j.server, j.drop, counted)];
      if counted then
        State(Shifted(s.t, j.server, -1), jobs, s.tally[j.server := y.(decs := y.decs + 1, clamps := y.clamps + Clamped(s, j.server))])
      else s.(jobs := jobs)
    case Finish(job, works) =>
      var j := s.jobs[job];
      var t := if !works then s.t else if j.drop then Deleted(s.t, j.peer) else Deactivated(s.t, j.peer);
      State(t, s.jobs - {job}, s.tally[j.server := Ended(s.tally[j.server], Ends(s, j.peer, works), j.counted)])
  }

  function Step(s: State, a: Act): State { if Enabled(s, a) then Effect(s, a) else s }

  function Run(s: State, acts: seq<Act>): State
    decreases |acts|
  {
    if acts == [] then s else Run(Step(s, acts[0]), acts[1..])
  }

  // ---- The accounts ----

  ghost predicate Holds(jobs: map<nat, Job>, j: nat, sv: nat) {
    j in jobs && (jobs[j].Reserved? || jobs[j].Failing?) && jobs[j].server == sv
  }

  /** The reservations in flight. */
  ghost function InFlight(jobs: map<nat, Job>, sv: nat): (s: set<nat>)
    ensures forall j :: j in s <==> Holds(jobs, j, sv)
  {
    set j | j in jobs && Holds(jobs, j, sv)
  }

  ghost predicate IsAhead(jobs: map<nat, Job>, j: nat, sv: nat) {
    j in jobs && jobs[j].Finishing? && jobs[j].counted && jobs[j].server == sv
  }

  /** The teardowns that have lowered the counter and not yet ended. */
  ghost function Ahead(jobs: map<nat, Job>, sv: nat): (s: set<nat>)
    ensures forall j :: j in s <==> IsAhead(jobs, j, sv)
  {
    set j | j in jobs && IsAhead(jobs, j, sv)
  }

  /**
   * The counter is the active peers and the reservations in flight, plus what it missed and minus
   * what it was decremented for nothing.
   */
  ghost predicate Account(s: State, sv: nat) {
    && sv in s.t.servers && sv in s.tally
    && var srv, y := s.t.servers[sv], s.tally[sv];
    && srv.current + y.decs == |InFlight(s.jobs, sv)| + |Active(s.t.peers, sv)| + y.deacts + y.clamps + y.lost
    && 0 <= srv.current <= srv.max
  }

  /** The decrements are those of teardowns still to end, plus the deactivations, but for the two ways to do one alone. */
  ghost predicate Balance(s: State, sv: nat) {
    sv in s.tally && var y := s.tally[sv];
    y.decs + y.uncounted == y.deacts + |Ahead(s.jobs, sv)| + y.wasted
  }

  /** A teardown's row is still on the server it was read with. */
  ghost predicate RowThere(s: State, j: nat)
    requires j in s.jobs
  {
    var x := s.jobs[j];
    (x.Tearing? || x.Finishing?) && x.peer in s.t.peers ==> s.t.peers[x.peer].server == x.server
  }

  ghost predicate Accounts(s: State) {
    && s.tally.Keys == s.t.servers.Keys
    && (forall sv | sv in s.tally :: Account(s, sv) && Balance(s, sv))
    && (forall j | j in s.jobs :: s.jobs[j].server in s.tally && RowThere(s, j))
    && (forall id | id in s.t.peers :: s.t.peers[id].server in s.tally)
    && UniqueKeys(s.t.peers)
  }

  /** A key is active at most once on a server. */
  ghost predicate UniqueKeys(peers: map<nat, Peer>) {
    forall i, j | i in peers && j in peers && i != j :: !SameSlot(peers[i], peers[j])
  }

  /** One step's changes to the terms of the two equations. */
  lemma AccountKept(s: State, r: State, job: nat, id: nat, sv: nat)
    requires Account(s, sv)
    requires sv in r.t.servers && sv in r.tally && 0 <= r.t.servers[sv].current <= r.t.servers[sv].max
    requires Elsewhere(s.jobs, r.jobs, job) && Elsewhere(s.t.peers, r.t.peers, id)
    requires
      var y, z := s.tally[sv], r.tally[sv];
      (r.t.servers[sv].current - s.t.servers[sv].current) + (z.decs - y.decs) ==
      Bit(Holds(r.jobs, job, sv)) - Bit(Holds(s.jobs, job, sv))
      + Bit(IsActiveOn(r.t.peers, id, sv)) - Bit(IsActiveOn(s.t.peers, id, sv))
      + (z.deacts - y.deacts) + (z.clamps - y.clamps) + (z.lost - y.lost)
    ensures Account(r, sv)
  {
    hide InFlight, Active;
    CardChange(InFlight(s.jobs, sv), InFlight(r.jobs, sv), job);
    ActiveChange(s.t.peers, r.t.peers, id, sv);
  }

  lemma BalanceKept(s: State, r: State, job: nat, sv: nat)
    requires Balance(s, sv) && sv in r.tally && Elsewhere(s.jobs, r.jobs, job)
    requires
      var y, z := s.tally[sv], r.tally[sv];
      (z.decs - y.decs) + (z.uncounted - y.uncounted) ==
      (z.deacts - y.deacts) + (z.wasted - y.wasted) + Bit(IsAhead(r.jobs, job, sv)) - Bit(IsAhead(s.jobs, job, sv))
    ensures Balance(r, sv)
  {
    hide Ahead;
    CardChange(Ahead(s.jobs, sv), Ahead(r.jobs, sv), job);
  }

  /** The peer row an act touches. */
  function Row(s: State, a: Act): nat {
    if a.Create? then a.id
    else if a.Finish? && a.job in s.jobs && s.jobs[a.job].Finishing? then s.jobs[a.job].peer
    else 0
  }

  /** What a counter update does to one server, and that it leaves the peers alone. */
  lemma ShiftFacts(t: Tables, sv: nat)
    ensures forall at, delta :: Shifted(t, at, delta).peers == t.peers && Shifted(t, at, delta).servers.Keys == t.servers.Keys
    ensures sv in t.servers ==> forall at, delta ::
      && Shifted(t, at, delta).servers[sv].max == t.servers[sv].max
      && Shifted(t, at, delta).servers[sv].current ==
         (if at != sv then t.servers[sv].current else if t.servers[sv].current + delta > 0 then t.servers[sv].current + delta else 0)
  {}

  lemma OneRowOneJob(s: State, a: Act)
    requires Enabled(s, a)
    ensures Elsewhere(s.jobs, Effect(s, a).jobs, a.job) && Elsewhere(s.t.peers, Effect(s, a).t.peers, Row(s, a))
  {
    hide CanCreate, Ended, Ends, Shifted;
    ShiftFacts(s.t, 0);
  }

  lemma ActAccount(s: State, a: Act, sv: nat)
    requires Accounts(s) && Enabled(s, a) && sv in s.tally
    ensures Account(Effect(s, a), sv)
  {
    hide Active, InFlight, Account, Balance, CanCreate, UniqueKeys, SameSlot, Shifted, Elsewhere, Ended, Ends, RowThere, Deactivated, Deleted;
    if a.Finish? {
      FinishAccount(s, a, sv);
    } else {
      InBounds(s, sv);
      ShiftFacts(s.t, sv);
      OneRowOneJob(s, a);
      AccountKept(s, Effect(s, a), a.job, Row(s, a), sv);
    }
  }

  lemma FinishAccount(s: State, a: Act, sv: nat)
    requires Accounts(s) && Enabled(s, a) && sv in s.tally && a.Finish?
    ensures Account(Effect(s, a), sv)
  {
    hide Active, InFlight, Account, Balance, UniqueKeys, SameSlot, Elsewhere;
    InBounds(s, sv);
    OneRowOneJob(s, a);
    assert RowThere(s, a.job);
    AccountKept(s, Effect(s, a), a.job, Row(s, a), sv);
  }

  lemma ActBalance(s: State, a: Act, sv: nat)
    requires Accounts(s) && Enabled(s, a) && sv in s.tally
    ensures Balance(Effect(s, a), sv)
  {
    hide Ahead, Account, Balance, CanCreate, NewId, UniqueKeys, SameSlot, Shifted, Elsewhere, Ends, RowThere;
    assert Balance(s, sv);
    OneRowOneJob(s, a);
    BalanceKept(s, Effect(s, a), a.job, sv);
  }

  lemma RowsThere(s: State, a: Act, j: nat)
    requires Accounts(s) && Enabled(s, a) && j in Effect(s, a).jobs
    ensures RowThere(Effect(s, a), j)
  {
    hide Account, Balance, CanCreate, UniqueKeys, SameSlot, Shifted;
    assert j in s.jobs ==> RowThere(s, j);
    ShiftFacts(s.t, 0);
  }

  lemma EffectKeeps(s: State, a: Act)
    requires Accounts(s) && Enabled(s, a)
    ensures Accounts(Effect(s, a))
  {
    hide Account, Balance, CanCreate, UniqueKeys, RowThere, Ended, Ends;
    forall sv | sv in s.tally ensures Account(Effect(s, a), sv) && Balance(Effect(s, a), sv) {
      ActAccount(s, a, sv);
      ActBalance(s, a, sv);
    }
    forall j | j in Effect(s, a).jobs ensures RowThere(Effect(s, a), j) { RowsThere(s, a, j); }
    UniqueAfter(s, a);
  }

  lemma InBounds(s: State, sv: nat)
    requires Account(s, sv)
    ensures 0 <= s.t.servers[sv].current <= s.t.servers[sv].max
  {}

  lemma UniqueAfter(s: State, a: Act)
    requires UniqueKeys(s.t.peers) && Enabled(s, a)
    ensures UniqueKeys(Effect(s, a).t.peers)
  {}

  /** In every interleaving of Connect and the teardown handlers the accounts hold. */
  lemma {:induction false} EveryRunAccounts(s: State, acts: seq<Act>)
    requires Accounts(s)
    ensures Accounts(Run(s, acts))
    decreases |acts|
  {
    hide Accounts, Enabled, Effect;
    if acts != [] {
      if Enabled(s, acts[0]) { EffectKeeps(s, acts[0]); }
      EveryRunAccounts(Step(s, acts[0]), acts[1..]);
    }
  }

  function Empty(servers: map<nat, Server>): State {
    State(Tables(map sv | sv in servers :: servers[sv].(current := 0), map[]), map[],
          map sv | sv in servers :: Tally(0, 0, 0, 0, 0, 0))
  }

  lemma EmptyAccounts(servers: map<nat, Server>)
    ensures Accounts(Empty(servers))
  {
    hide Active, InFlight, Ahead;
    var e := Empty(servers);
    forall k | k in servers ensures Account(e, k) && Balance(e, k) {
      assert InFlight(e.jobs, k) == {} && Ahead(e.jobs, k) == {};
      assert Active(e.t.peers, k) == {};
    }
  }

  /** How far active peers and reservations in flight are above max_peers. */
  ghost function Excess(s: State, sv: nat): int
    requires sv in s.t.servers
  {
    |Active(s.t.peers, sv)| + |InFlight(s.jobs, sv)| - s.t.servers[sv].max
  }

  /**
   * From empty tables, after any interleaving: current_peers is within 0..max_peers, and active
   * peers and reservations in flight exceed max_peers by no more than decrements outnumber
   * deactivations; exactly how much they exceed it is the second equation, and what decrements
   * outnumber deactivations by is the third.
   */
  lemma CapacityBound(servers: map<nat, Server>, acts: seq<Act>, sv: nat)
    requires sv in servers
    ensures var s := Run(Empty(servers), acts);
      && sv in s.t.servers && sv in s.tally
      && var y, srv := s.tally[sv], s.t.servers[sv];
      && 0 <= srv.current <= srv.max == servers[sv].max
      && Excess(s, sv) <= y.decs - y.deacts
      && Excess(s, sv) == (y.decs - y.deacts) - y.clamps - y.lost - (srv.max - srv.current)
      && y.decs - y.deacts == |Ahead(s.jobs, sv)| + y.wasted - y.uncounted
  {
    hide Active, InFlight, Ahead;
    var e := Empty(servers);
    EmptyAccounts(servers);
    EveryRunAccounts(e, acts);
    MaxFixed(e, acts, sv);
    assert Account(Run(e, acts), sv) && Balance(Run(e, acts), sv);
  }

  lemma {:induction false} MaxFixed(s: State, acts: seq<Act>, sv: nat)
    requires sv in s.t.servers
    ensures sv in Run(s, acts).t.servers && Run(s, acts).t.servers[sv].max == s.t.servers[sv].max
    decreases |acts|
  {
    if acts != [] {
      StepMaxFixed(s, acts[0], sv);
      hide Step;
      MaxFixed(Step(s, acts[0]), acts[1..], sv);
    }
  }

  lemma StepMaxFixed(s: State, a: Act, sv: nat)
    requires sv in s.t.servers
    ensures sv in Step(s, a).t.servers && Step(s, a).t.servers[sv].max == s.t.servers[sv].max
  {
    hide CanCreate;
  }

  // ---- Handlers with nothing in between ----

  lemma ThreeActs(s: State, x: Act, y: Act, z: Act)
    ensures Run(s, [x, y, z]) == Step(Step(Step(s, x), y), z)
  {
    hide Step;
    assert [x, y, z][1..] == [y, z] && [y, z][1..] == [z] && [z][1..] == [];
    var two := Step(Step(s, x), y);
    assert Run(two, [z]) == Run(Step(two, z), []);
  }

  /** The three statements of a teardown, with nothing in between, are the handler running alone. */
  lemma UninterruptedIsTearDown(s: State, job: nat, id: nat, kind: Kind, luck: Luck)
    requires Accounts(s) && job !in s.jobs && id in s.t.peers
    ensures var r := Run(s, [Read(job, id, kind), Decrement(job, luck), Finish(job, luck.rowWorks)]);
      r.t == TornDown(s.t, id, kind, luck) && r.jobs == s.jobs
  {
    hide Accounts, Step, Run;
    ThreeActs(s, Read(job, id, kind), Decrement(job, luck), Finish(job, luck.rowWorks));
    OnServer(s, id);
    if kind.BanOrCleanup? && !s.t.peers[id].active {
      NothingRead(s, job, id, luck);
    } else {
      TornDownByStatements(s, job, id, kind, luck);
    }
  }

  lemma OnServer(s: State, id: nat)
    requires Accounts(s) && id in s.t.peers
    ensures s.t.peers[id].server in s.tally
  {}

  lemma NothingRead(s: State, job: nat, id: nat, luck: Luck)
    requires job !in s.jobs && id in s.t.peers && !s.t.peers[id].active
    ensures Step(Step(Step(s, Read(job, id, BanOrCleanup)), Decrement(job, luck)), Finish(job, luck.rowWorks)) == s
  {}

  lemma TornDownByStatements(s: State, job: nat, id: nat, kind: Kind, luck: Luck)
    requires job !in s.jobs && id in s.t.peers && s.t.peers[id].server in s.tally
    requires kind.BanOrCleanup? ==> s.t.peers[id].active
    ensures var r := Step(Step(Step(s, Read(job, id, kind)), Decrement(job, luck)), Finish(job, luck.rowWorks));
      r.t == TornDown(s.t, id, kind, luck) && r.jobs == s.jobs
  {
    hide Ended, Ends, Shifted;
    ShiftFacts(s.t, 0);
    var s2 := Step(Step(s, Read(job, id, kind)), Decrement(job, luck));
    assert s2.jobs - {job} == s.jobs;
  }

  /** The statements of a Connect that passes the device limit, with nothing in between, are the handler running alone. */
  lemma UninterruptedIsConnect(
    s: State, job: nat, sv: nat, id: nat, user: nat, key: string, maxDevices: nat, coreWorks: bool, rollbackWorks: bool)
    requires Accounts(s) && job !in s.jobs && NewId(s, id)
    requires !ConnectReply(s.t, sv, id, user, key, maxDevices, coreWorks).TooManyDevices?
    ensures
      var r := Run(s, [Reserve(job, sv, user, key), Create(job, id, coreWorks), Rollback(job, rollbackWorks)]);
      var reply := ConnectReply(s.t, sv, id, user, key, maxDevices, coreWorks);
      r.t == AfterConnect(s.t, reply, sv, id, user, key, rollbackWorks) && r.jobs == s.jobs
  {
    hide Run, Step, Accounts, ActiveOf, SameSlot, NewId;
    ThreeActs(s, Reserve(job, sv, user, key), Create(job, id, coreWorks), Rollback(job, rollbackWorks));
    if CanReserve(s.t, sv) {
      KnownServer(s, sv);
      ConnectedByStatements(s, job, sv, id, user, key, coreWorks, rollbackWorks);
    } else {
      NothingReserved(s, job, sv, id, user, key, coreWorks, rollbackWorks);
    }
  }

  lemma KnownServer(s: State, sv: nat)
    requires Accounts(s) && sv in s.t.servers
    ensures sv in s.tally && 0 <= s.t.servers[sv].current
  {}

  lemma NothingReserved(
    s: State, job: nat, sv: nat, id: nat, user: nat, key: string, coreWorks: bool, rollbackWorks: bool)
    requires job !in s.jobs && !CanReserve(s.t, sv)
    ensures Step(Step(Step(s, Reserve(job, sv, user, key)), Create(job, id, coreWorks)), Rollback(job, rollbackWorks)) == s
  {
    hide NewId;
  }

  lemma ConnectedByStatements(
    s: State, job: nat, sv: nat, id: nat, user: nat, key: string, coreWorks: bool, rollbackWorks: bool)
    requires job !in s.jobs && NewId(s, id) && CanReserve(s.t, sv) && sv in s.tally && 0 <= s.t.servers[sv].current
    ensures var r := Step(Step(Step(s, Reserve(job, sv, user, key)), Create(job, id, coreWorks)), Rollback(job, rollbackWorks));
      && r.jobs == s.jobs
      && r.t == if coreWorks && CanCreate(s.t, Peer(user, sv, key, true))
                then Inserted(Shifted(s.t, sv, 1), id, Peer(user, sv, key, true))
                else if rollbackWorks then s.t else Shifted(s.t, sv, 1)
  {
    hide SameSlot;
    var s1 := Step(s, Reserve(job, sv, user, key));
    assert NewId(s1, id);
    assert CanCreate(s1.t, Peer(user, sv, key, true)) <==> CanCreate(s.t, Peer(user, sv, key, true));
    assert s1.jobs - {job} == s.jobs && s1.jobs[job := Failing(sv)] - {job} == s.jobs;
    assert Shifted(Shifted(s.t, sv, 1), sv, -1) == s.t by { BackAndForth(s.t, sv); }
  }

  // ---- When a server can be overfilled ----

  ghost predicate OnlyReserves(acts: seq<Act>) { forall a | a in acts :: a.Reserve? }

  ghost predicate Overfills(s: State, acts: seq<Act>, sv: nat) {
    OnlyReserves(acts) && sv in Run(s, acts).t.servers && Excess(Run(s, acts), sv) > 0
  }

  lemma SomeUnused(jobs: set<nat>)
    ensures exists j: nat :: j !in jobs
  {
    var b := Below(|jobs| + 1);
    if b <= jobs { SubsetCard(b, jobs); assert false; }
    var j :| j in b && j !in jobs;
  }

  /** n further handlers reserve a slot each. */
  ghost function Reserves(s: State, sv: nat, n: nat): (acts: seq<Act>)
    decreases n
  {
    if n == 0 then []
    else
      SomeUnused(s.jobs.Keys);
      var job: nat :| job !in s.jobs.Keys;
      var a := Reserve(job, sv, 0, "");
      [a] + Reserves(Step(s, a), sv, n - 1)
  }

  lemma ExcessIs(s: State, sv: nat)
    requires Accounts(s) && sv in s.tally
    ensures var y, srv := s.tally[sv], s.t.servers[sv];
      && 0 <= srv.current <= srv.max
      && Excess(s, sv) == (y.decs - y.deacts) - y.clamps - y.lost - (srv.max - srv.current)
  {
    hide Active, InFlight, UniqueKeys, Balance, RowThere;
    assert Account(s, sv);
  }

  /** Reservations up to the capacity all succeed, and nothing else happens to the server. */
  lemma {:induction false} ReservesFill(s: State, sv: nat, n: nat)
    requires Accounts(s) && sv in s.tally && s.t.servers[sv].active && n == s.t.servers[sv].max - s.t.servers[sv].current
    ensures var acts := Reserves(s, sv, n);
      && OnlyReserves(acts) && Accounts(Run(s, acts)) && Run(s, acts).tally == s.tally
      && Run(s, acts).t.servers[sv].current == Run(s, acts).t.servers[sv].max
    decreases n
  {
    hide Accounts, Balance, RowThere, UniqueKeys;
    AccountsGive(s, sv);
    if n > 0 {
      var acts := Reserves(s, sv, n);
      assert Enabled(s, acts[0]);
      EffectKeeps(s, acts[0]);
      var r := Step(s, acts[0]);
      assert acts[1..] == Reserves(r, sv, n - 1);
      ReservesFill(r, sv, n - 1);
    }
  }

  lemma AccountsGive(s: State, sv: nat)
    requires Accounts(s) && sv in s.tally
    ensures sv in s.t.servers && 0 <= s.t.servers[sv].current <= s.t.servers[sv].max
  {}

  lemma {:induction false} ReservesKeepTally(s: State, acts: seq<Act>)
    requires OnlyReserves(acts)
    ensures Run(s, acts).tally == s.tally
    decreases |acts|
  {
    if acts != [] { ReservesKeepTally(Step(s, acts[0]), acts[1..]); }
  }

  /**
   * From any state, further connects can push an active server over max_peers if and only if its
   * decrements outnumber its deactivations by more than its lost decrements and rollbacks.
   */
  lemma OverfillIff(s: State, sv: nat)
    requires Accounts(s) && sv in s.tally && s.t.servers[sv].active
    ensures var y := s.tally[sv];
      (exists acts :: Overfills(s, acts, sv)) <==> |Ahead(s.jobs, sv)| + y.wasted > y.uncounted + y.clamps + y.lost
  {
    hide Accounts, Reserves, Run, Excess, Ahead;
    AccountsGive(s, sv);
    BalanceOf(s, sv);
    var acts := Reserves(s, sv, s.t.servers[sv].max - s.t.servers[sv].current);
    ReservesFill(s, sv, s.t.servers[sv].max - s.t.servers[sv].current);
    AccountsGive(Run(s, acts), sv);
    ExcessIs(Run(s, acts), sv);
    assert s.tally[sv].decs - s.tally[sv].deacts > s.tally[sv].clamps + s.tally[sv].lost ==> Overfills(s, acts, sv);
    forall other | Overfills(s, other, sv) ensures s.tally[sv].decs - s.tally[sv].deacts > s.tally[sv].clamps + s.tally[sv].lost {
      ReservesKeepTally(s, other);
      EveryRunAccounts(s, other);
      ExcessIs(Run(s, other), sv);
    }
  }

  lemma BalanceOf(s: State, sv: nat)
    requires Accounts(s) && sv in s.tally
    ensures Balance(s, sv)
  {}

  // ---- When decrements outnumber deactivations ----

  /** Every statement of a teardown works. */
  predicate Works(a: Act) {
    (a.Decrement? ==> a.luck.serverFound && a.luck.updateWorks) && (a.Finish? ==> a.works)
  }

  ghost predicate AllWork(acts: seq<Act>) { forall a | a in acts :: Works(a) }

  /** The final statement of a teardown that lowered the server's counter, on a row that is inactive already or gone. */
  predicate IdleFinish(s: State, a: Act, sv: nat) {
    && a.Finish? && Enabled(s, a)
    && s.jobs[a.job].counted && s.jobs[a.job].server == sv && !Ends(s, s.jobs[a.job].peer, a.works)
  }

  predicate NoIdleFinish(s: State, acts: seq<Act>, sv: nat)
    decreases |acts|
  {
    acts == [] || (!IdleFinish(s, acts[0], sv) && NoIdleFinish(Step(s, acts[0]), acts[1..], sv))
  }

  /** Decrements outnumber deactivations at most by the teardowns in between. */
  ghost predicate Behind(s: State, sv: nat) {
    sv in s.tally && s.tally[sv].decs - s.tally[sv].deacts <= |Ahead(s.jobs, sv)|
  }

  ghost predicate BehindThroughout(s: State, acts: seq<Act>, sv: nat)
    decreases |acts|
  {
    Behind(s, sv) && (acts == [] || BehindThroughout(Step(s, acts[0]), acts[1..], sv))
  }

  /** A teardown that will not be counted, or was not, has an inactive row or none. */
  ghost predicate Spent(s: State, j: nat)
    requires j in s.jobs
  {
    var x := s.jobs[j];
    (x.Tearing? && !x.decrement) || (x.Finishing? && !x.counted) ==> !Ends(s, x.peer, true)
  }

  /** No deactivation goes uncounted, and none is about to. */
  ghost predicate AllCounted(s: State) {
    (forall sv | sv in s.tally :: s.tally[sv].uncounted == 0) && forall j | j in s.jobs :: Spent(s, j)
  }

  lemma SpentKept(s: State, a: Act, j: nat)
    requires AllCounted(s) && Enabled(s, a) && Works(a) && j in Effect(s, a).jobs
    ensures Spent(Effect(s, a), j)
  {
    hide CanCreate, Shifted;
    assert j in s.jobs ==> Spent(s, j);
    ShiftFacts(s.t, 0);
  }

  lemma CountedKept(s: State, a: Act)
    requires AllCounted(s) && Enabled(s, a) && Works(a)
    ensures AllCounted(Effect(s, a))
  {
    hide CanCreate, Shifted, NewId;
    forall j | j in Effect(s, a).jobs ensures Spent(Effect(s, a), j) { SpentKept(s, a, j); }
    if a.Finish? { assert Spent(s, a.job); }
  }

  /** What one act adds to the wasted teardowns of a server. */
  lemma WastedStep(s: State, a: Act, sv: nat)
    requires Enabled(s, a) && sv in s.tally
    ensures var r := Effect(s, a); sv in r.tally && r.tally[sv].wasted == s.tally[sv].wasted + Bit(IdleFinish(s, a, sv))
  {
    hide CanCreate, Shifted, NewId, Ends;
  }

  lemma BehindIs(s: State, sv: nat)
    requires Accounts(s) && AllCounted(s) && sv in s.tally
    ensures s.tally[sv].decs - s.tally[sv].deacts == |Ahead(s.jobs, sv)| + s.tally[sv].wasted
    ensures Behind(s, sv) <==> s.tally[sv].wasted == 0
  {
    hide Ahead, Account;
    assert Balance(s, sv);
  }

  /**
   * With statements that work, decrements outnumber deactivations by exactly the teardowns in between
   * and those that ended on a row inactive already or gone.
   */
  lemma {:induction false} OutnumberedBy(s: State, acts: seq<Act>, sv: nat)
    requires Accounts(s) && AllCounted(s) && AllWork(acts) && sv in s.tally
    ensures var r := Run(s, acts);
      && Accounts(r) && AllCounted(r) && sv in r.tally
      && r.tally[sv].decs - r.tally[sv].deacts == |Ahead(r.jobs, sv)| + r.tally[sv].wasted
    decreases |acts|
  {
    hide Accounts, AllCounted, Enabled, Effect, Works, Ahead;
    if acts == [] {
      BehindIs(s, sv);
    } else {
      assert Works(acts[0]) && AllWork(acts[1..]);
      WorkingStep(s, acts[0], sv);
      OutnumberedBy(Step(s, acts[0]), acts[1..], sv);
    }
  }

  lemma WorkingStep(s: State, a: Act, sv: nat)
    requires Accounts(s) && AllCounted(s) && Works(a) && sv in s.tally
    ensures var r := Step(s, a);
      && Accounts(r) && AllCounted(r) && sv in r.tally
      && r.tally[sv].wasted == s.tally[sv].wasted + Bit(IdleFinish(s, a, sv))
  {
    hide Accounts, AllCounted, Enabled, Effect, Works, Ends;
    if Enabled(s, a) {
      EffectKeeps(s, a);
      CountedKept(s, a);
      WastedStep(s, a, sv);
    }
  }

  /**
   * With statements that work, decrements never outnumber deactivations by more than the teardowns
   * in between if and only if no teardown that lowered the counter ends on a row inactive already or gone.
   */
  lemma {:induction false} BehindIff(s: State, acts: seq<Act>, sv: nat)
    requires Accounts(s) && AllCounted(s) && AllWork(acts) && sv in s.tally && s.tally[sv].wasted == 0
    ensures BehindThroughout(s, acts, sv) <==> NoIdleFinish(s, acts, sv)
    decreases |acts|
  {
    hide Accounts, AllCounted, Step, Works, Behind, IdleFinish;
    BehindIs(s, sv);
    if acts != [] {
      assert Works(acts[0]) && AllWork(acts[1..]);
      var r := Step(s, acts[0]);
      WorkingStep(s, acts[0], sv);
      BehindIs(r, sv);
      if IdleFinish(s, acts[0], sv) {
        assert !BehindThroughout(r, acts[1..], sv);
      } else {
        BehindIff(r, acts[1..], sv);
      }
    }
  }

  lemma EmptyCounted(servers: map<nat, Server>)
    ensures AllCounted(Empty(servers)) && Accounts(Empty(servers))
  {
    EmptyAccounts(servers);
  }

  // ---- One teardown per peer at a time ----

  /** Teardowns start only on an active peer that no other teardown is working on, and end with the row deactivated. */
  ghost predicate Exclusive(s: State, a: Act) {
    && (a.Read? && a.id in s.t.peers ==> s.t.peers[a.id].active && forall j | j in s.jobs :: !WorksOn(s.jobs[j], a.id))
    && (a.Finish? ==> a.works)
  }

  ghost predicate AllExclusive(s: State, acts: seq<Act>)
    decreases |acts|
  {
    acts == [] || (Exclusive(s, acts[0]) && AllExclusive(Step(s, acts[0]), acts[1..]))
  }

  ghost predicate TearingActive(s: State, j: nat)
    requires j in s.jobs
  {
    var x := s.jobs[j];
    x.Tearing? || x.Finishing? ==> Ends(s, x.peer, true)
  }

  ghost predicate Disciplined(s: State) {
    && (forall j | j in s.jobs :: TearingActive(s, j))
    && (forall j, k | j in s.jobs && k in s.jobs && j != k && !s.jobs[j].Reserved? && !s.jobs[j].Failing? ::
      !WorksOn(s.jobs[k], s.jobs[j].peer))
    && (forall sv | sv in s.tally :: s.tally[sv].wasted == 0)
  }

  /** Whoever works on a row finds it active, and nobody else works on it. */
  lemma RowKept(s: State, a: Act, j: nat)
    requires Disciplined(s) && Enabled(s, a) && Exclusive(s, a) && j in Effect(s, a).jobs
    ensures TearingActive(Effect(s, a), j)
  {
    hide CanCreate, Shifted;
    assert j in s.jobs ==> TearingActive(s, j);
    ShiftFacts(s.t, 0);
  }

  lemma PairKept(s: State, a: Act, j: nat, k: nat)
    requires Disciplined(s) && Enabled(s, a) && Exclusive(s, a)
    requires j in Effect(s, a).jobs && k in Effect(s, a).jobs && j != k
    requires !Effect(s, a).jobs[j].Reserved? && !Effect(s, a).jobs[j].Failing?
    ensures !WorksOn(Effect(s, a).jobs[k], Effect(s, a).jobs[j].peer)
  {
    hide CanCreate, Shifted, TearingActive, NewId;
  }

  /** Every single statement keeps the discipline. */
  lemma ExclusiveStep(s: State, a: Act)
    requires Disciplined(s) && Enabled(s, a) && Exclusive(s, a)
    ensures Disciplined(Effect(s, a))
  {
    hide Effect, TearingActive, WorksOn, CanCreate, NewId;
    var r := Effect(s, a);
    SameTallyKeys(s, a);
    forall sv | sv in r.tally ensures r.tally[sv].wasted == 0 {
      if a.Finish? { assert TearingActive(s, a.job); }
      EndsOnRow(s, a, sv);
      WastedStep(s, a, sv);
    }
    forall j | j in r.jobs ensures TearingActive(r, j) { RowKept(s, a, j); }
    forall j, k | j in r.jobs && k in r.jobs && j != k && !r.jobs[j].Reserved? && !r.jobs[j].Failing?
      ensures !WorksOn(r.jobs[k], r.jobs[j].peer)
    {
      PairKept(s, a, j, k);
    }
  }

  lemma EndsOnRow(s: State, a: Act, sv: nat)
    requires Enabled(s, a) && (a.Finish? ==> a.works && TearingActive(s, a.job))
    ensures !IdleFinish(s, a, sv)
  {}

  lemma SameTallyKeys(s: State, a: Act)
    requires Enabled(s, a)
    ensures Effect(s, a).tally.Keys == s.tally.Keys
  {
    hide CanCreate, NewId, Shifted, Ended, Ends;
  }

  lemma {:induction false} ExclusiveRuns(s: State, acts: seq<Act>)
    requires Disciplined(s) && AllExclusive(s, acts)
    ensures Disciplined(Run(s, acts))
    decreases |acts|
  {
    hide Disciplined, Enabled, Effect, Exclusive;
    if acts != [] {
      if Enabled(s, acts[0]) { ExclusiveStep(s, acts[0]); }
      ExclusiveRuns(Step(s, acts[0]), acts[1..]);
    }
  }

  /** Then the capacity is exceeded at most by the teardowns between their decrement and their deactivation. */
  lemma ExclusiveCapacity(servers: map<nat, Server>, acts: seq<Act>, sv: nat)
    requires sv in servers && AllExclusive(Empty(servers), acts)
    ensures var s := Run(Empty(servers), acts); sv in s.t.servers && Excess(s, sv) <= |Ahead(s.jobs, sv)|
  {
    hide Excess, Ahead, Run;
    CapacityBound(servers, acts, sv);
    ExclusiveRuns(Empty(servers), acts);
  }

  /** A run whose states are listed. */
  lemma {:induction false} RunThrough(states: seq<State>, acts: seq<Act>)
    requires |states| == |acts| + 1 && forall i | 0 <= i < |acts| :: states[i + 1] == Step(states[i], acts[i])
    ensures Run(states[0], acts) == states[|acts|]
    decreases |acts|
  {
    hide Step;
    if acts != [] { RunThrough(states[1..], acts[1..]); }
  }

  /** One server for two, its counter, rows and handlers, and how its tally stands. */
  function Small(current: int, peers: map<nat, Peer>, jobs: map<nat, Job>, decs: nat, deacts: nat, wasted: nat): State {
    State(Tables(map[0 := Server(current, 2, true)], peers), jobs, map[0 := Tally(decs, deacts, 0, 0, wasted, 0)])
  }

  function Row0(key: string): Peer { Peer(1, 0, key, true) }

  lemma TwoConnects(current: int, peers: map<nat, Peer>, id: nat, key: string, decs: nat, deacts: nat, wasted: nat)
    requires 0 <= current < 2 && id !in peers && forall k | k in peers :: peers[k].key != key
    ensures Run(Small(current, peers, map[], decs, deacts, wasted), [Reserve(0, 0, 1, key), Create(0, id, true)]) ==
            Small(current + 1, peers[id := Row0(key)], map[], decs, deacts, wasted)
  {
    var s := Small(current, peers, map[], decs, deacts, wasted);
    var mid := Small(current + 1, peers, map[0 := Reserved(0, 1, key)], decs, deacts, wasted);
    var r := Small(current + 1, peers[id := Row0(key)], map[], decs, deacts, wasted);
    RunThrough([s, mid, r], [Reserve(0, 0, 1, key), Create(0, id, true)]);
  }

  /**
   * No peer is disconnected while inactive, and still a server for two ends with three active peers:
   * two deletions of one peer overlap, and the second ends on the row that the first has deleted.
   */
  lemma OverlappingDeletesOverfill()
    ensures
      var all, e := Luck(true, true, true), Empty(map[0 := Server(0, 2, true)]);
      var one := Run(e, [Reserve(0, 0, 1, "a"), Create(0, 10, true)]);
      var full := Run(one, [Reserve(0, 0, 1, "b"), Create(0, 11, true)]);
      var torn := Run(full, [Read(1, 10, DeleteConnection), Read(2, 10, DeleteConnection), Decrement(1, all), Decrement(2, all),
                             Finish(1, true), Finish(2, true)]);
      var again := Run(torn, [Reserve(0, 0, 1, "c"), Create(0, 12, true)]);
      var over := Run(again, [Reserve(0, 0, 1, "d"), Create(0, 13, true)]);
      && full == Small(2, map[10 := Row0("a"), 11 := Row0("b")], map[], 0, 0, 0)
      && torn == Small(0, map[11 := Row0("b")], map[], 2, 1, 1)
      && over == Small(2, map[11 := Row0("b"), 12 := Row0("c"), 13 := Row0("d")], map[], 2, 1, 1)
      && Active(over.t.peers, 0) == {11, 12, 13}
  {
    hide Run, Step, Active;
    var a, b := Row0("a"), Row0("b");
    assert Empty(map[0 := Server(0, 2, true)]) == Small(0, map[], map[], 0, 0, 0);
    TwoConnects(0, map[], 10, "a", 0, 0, 0);
    TwoConnects(1, map[10 := a], 11, "b", 0, 0, 0);
    TwoDeletions(a, b);
    TwoConnects(0, map[11 := b], 12, "c", 2, 1, 1);
    TwoConnects(1, map[11 := b, 12 := Row0("c")], 13, "d", 2, 1, 1);
    var peers := map[11 := b, 12 := Row0("c"), 13 := Row0("d")];
    assert forall id :: IsActiveOn(peers, id, 0) <==> id in {11, 12, 13};
  }

  lemma TwoDeletions(a: Peer, b: Peer)
    requires a == Row0("a") && b == Row0("b")
    ensures var all := Luck(true, true, true);
      Run(Small(2, map[10 := a, 11 := b], map[], 0, 0, 0),
          [Read(1, 10, DeleteConnection), Read(2, 10, DeleteConnection), Decrement(1, all), Decrement(2, all),
           Finish(1, true), Finish(2, true)]) ==
      Small(0, map[11 := b], map[], 2, 1, 1)
  {
    hide Step, Run, Small;
    var all := Luck(true, true, true);
    var both, tear, done := map[10 := a, 11 := b], Tearing(10, 0, true, true), Finishing(10, 0, true, true);
    var states := [
      Small(2, both, map[], 0, 0, 0),
      Small(2, both, map[1 := tear], 0, 0, 0),
      Small(2, both, map[1 := tear, 2 := tear], 0, 0, 0),
      Small(1, both, map[1 := done, 2 := tear], 1, 0, 0),
      Small(0, both, map[1 := done, 2 := done], 2, 0, 0),
      Small(0, map[11 := b], map[2 := done], 2, 1, 0),
      Small(0, map[11 := b], map[], 2, 1, 1)];
    ReadStep(2, both, map[], 0, 0, 0, 1);
    ReadStep(2, both, map[1 := tear], 0, 0, 0, 2);
    DecrementStep(2, both, map[1 := tear, 2 := tear], 0, 0, 0, 1);
    DecrementStep(1, both, map[1 := done, 2 := tear], 1, 0, 0, 2);
    FinishStep(0, both, map[1 := done, 2 := done], 2, 0, 0, 1);
    FinishStep(0, map[11 := b], map[2 := done], 2, 1, 0, 2);
    assert map[1 := tear, 2 := tear][1 := done] == map[1 := done, 2 := tear];
    assert map[1 := done, 2 := tear][2 := done] == map[1 := done, 2 := done];
    assert map[1 := done, 2 := done] - {1} == map[2 := done] && map[2 := done] - {2} == map[];
    assert both - {10} == map[11 := b] && map[11 := b] - {10} == map[11 := b];
    RunThrough(states,
      [Read(1, 10, DeleteConnection), Read(2, 10, DeleteConnection), Decrement(1, all), Decrement(2, all),
       Finish(1, true), Finish(2, true)]);
  }

  lemma ReadStep(current: int, peers: map<nat, Peer>, jobs: map<nat, Job>, decs: nat, deacts: nat, wasted: nat, job: nat)
    requires job !in jobs && 10 in peers && peers[10] == Row0("a")
    ensures Step(Small(current, peers, jobs, decs, deacts, wasted), Read(job, 10, DeleteConnection)) ==
            Small(current, peers, jobs[job := Tearing(10, 0, true, true)], decs, deacts, wasted)
  {}

  lemma DecrementStep(current: int, peers: map<nat, Peer>, jobs: map<nat, Job>, decs: nat, deacts: nat, wasted: nat, job: nat)
    requires job in jobs && jobs[job] == Tearing(10, 0, true, true) && 0 < current
    ensures Step(Small(current, peers, jobs, decs, deacts, wasted), Decrement(job, Luck(true, true, true))) ==
            Small(current - 1, peers, jobs[job := Finishing(10, 0, true, true)], decs + 1, deacts, wasted)
  {}

  lemma FinishStep(current: int, peers: map<nat, Peer>, jobs: map<nat, Job>, decs: nat, deacts: nat, wasted: nat, job: nat)
    requires job in jobs && jobs[job] == Finishing(10, 0, true, true) && (10 in peers ==> peers[10] == Row0("a"))
    ensures Step(Small(current, peers, jobs, decs, deacts, wasted), Finish(job, true)) ==
            Small(current, peers - {10}, jobs - {job}, decs, deacts + Bit(10 in peers), wasted + Bit(10 !in peers))
  {}
}
