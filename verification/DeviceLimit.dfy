/** The device limit of Connect: the devices are counted before the reservation, and other handlers run in between. */
module DeviceLimit {
  import opened Common
  import opened Slots
  import opened SlotRuns

  /** passed: the Connects that have counted the devices of their user and not yet tried to create one. */
  datatype Watched = Watched(s: State, passed: map<nat, nat>)

  datatype Move = Count(job: nat, user: nat, limit: nat) | GiveUp(job: nat) | Do(act: Act)

  /** A Connect goes on to reserve a slot only after it has counted. */
  ghost predicate Can(w: Watched, m: Move) {
    match m
    case Count(job, user, limit) =>
      job !in w.passed && job !in w.s.jobs && (limit == 0 || |ActiveOf(w.s.t.peers, user)| < limit)
    case GiveUp(job) => job in w.passed && job !in w.s.jobs
    case Do(act) => Enabled(w.s, act) && (act.Reserve? ==> act.job in w.passed && w.passed[act.job] == act.user)
  }

  ghost function Next(w: Watched, m: Move): Watched {
    if !Can(w, m) then w
    else match m
      case Count(job, user, _) => w.(passed := w.passed[job := user])
      case GiveUp(job) => w.(passed := w.passed - {job})
      case Do(act) => Watched(Effect(w.s, act), if act.Create? then w.passed - {act.job} else w.passed)
  }

  ghost function RunAll(w: Watched, moves: seq<Move>): Watched
    decreases |moves|
  {
    if moves == [] then w else RunAll(Next(w, moves[0]), moves[1..])
  }

  ghost function Pending(w: Watched, user: nat): (s: set<nat>)
    ensures forall j :: j in s <==> IsPending(w.passed, j, user)
  {
    set j | j in w.passed && IsPending(w.passed, j, user)
  }

  ghost predicate IsPending(passed: map<nat, nat>, j: nat, user: nat) { j in passed && passed[j] == user }

  /** Who holds a slot has counted. */
  ghost predicate Counted(w: Watched) { forall j | j in w.s.jobs && w.s.jobs[j].Reserved? :: HasCounted(w, j) }

  ghost predicate HasCounted(w: Watched, j: nat)
    requires j in w.s.jobs && w.s.jobs[j].Reserved?
  {
    j in w.passed && w.passed[j] == w.s.jobs[j].user
  }

  /** The user's devices, and the Connects that may still create one. */
  ghost function Total(w: Watched, user: nat): int { |ActiveOf(w.s.t.peers, user)| + |Pending(w, user)| }

  lemma NextCounted(w: Watched, m: Move)
    requires Counted(w)
    ensures Counted(Next(w, m))
  {
    hide CanCreate, NewId, Ended, Ends, Shifted, CanReserve, ActiveOf;
    var r := Next(w, m);
    forall j | j in r.s.jobs && r.s.jobs[j].Reserved? ensures HasCounted(r, j) {
      if Can(w, m) && j in w.s.jobs && w.s.jobs[j].Reserved? { assert HasCounted(w, j); }
    }
  }

  /** One move changes the total only by a count that passes; no other move raises it. */
  lemma NextTotal(w: Watched, m: Move, user: nat)
    requires Counted(w)
    ensures var counts := Can(w, m) && m.Count? && m.user == user;
      if counts then Total(Next(w, m), user) == Total(w, user) + 1 else Total(Next(w, m), user) <= Total(w, user)
  {
    hide ActiveOf, Pending, Counted;
    if Can(w, m) {
      match m
      case Count(job, u, _) => CardChange(Pending(w, user), Pending(Next(w, m), user), job);
      case GiveUp(job) => CardChange(Pending(w, user), Pending(Next(w, m), user), job);
      case Do(act) => if act.Create? { CreateTotal(w, m, user); } else { OtherTotal(w, m, user); }
    }
  }

  /** A creation uses up its Connect. */
  lemma CreateTotal(w: Watched, m: Move, user: nat)
    requires Counted(w) && Can(w, m) && m.Do? && m.act.Create?
    ensures Total(Next(w, m), user) <= Total(w, user)
  {
    hide ActiveOf, Pending, CanCreate;
    var r, id := Next(w, m), m.act.id;
    assert HasCounted(w, m.act.job);
    CardChange(Pending(w, user), Pending(r, user), m.act.job);
    CardChange(ActiveOf(w.s.t.peers, user), ActiveOf(r.s.t.peers, user), id);
  }

  lemma OtherTotal(w: Watched, m: Move, user: nat)
    requires Can(w, m) && m.Do? && !m.act.Create?
    ensures Total(Next(w, m), user) <= Total(w, user)
  {
    hide ActiveOf, Pending, Shifted, Ended, CanReserve;
    var r := Next(w, m);
    ShiftFacts(w.s.t, 0);
    assert ActiveOf(r.s.t.peers, user) <= ActiveOf(w.s.t.peers, user);
    SubsetCard(ActiveOf(r.s.t.peers, user), ActiveOf(w.s.t.peers, user));
    assert Pending(r, user) == Pending(w, user);
  }

  /** The limit applies to every count for the user. */
  ghost predicate LimitIs(moves: seq<Move>, user: nat, limit: nat) {
    forall m | m in moves && m.Count? && m.user == user :: 0 < m.limit <= limit
  }

  ghost predicate AtMostPending(w: Watched, moves: seq<Move>, user: nat, k: nat)
    decreases |moves|
  {
    |Pending(w, user)| <= k && (moves == [] || AtMostPending(Next(w, moves[0]), moves[1..], user, k))
  }

  /** With at most k Connects of the user between count and creation, the devices stay within limit + k - 1. */
  lemma {:induction false} DeviceBound(w: Watched, moves: seq<Move>, user: nat, limit: nat, k: nat)
    requires Counted(w) && LimitIs(moves, user, limit) && AtMostPending(w, moves, user, k) && Total(w, user) <= limit + k - 1
    ensures Counted(RunAll(w, moves)) && Total(RunAll(w, moves), user) <= limit + k - 1
    decreases |moves|
  {
    hide Counted, Can, Next, Pending, ActiveOf;
    if moves != [] {
      var m, r := moves[0], Next(w, moves[0]);
      NextCounted(w, m);
      NextTotal(w, m, user);
      assert AtMostPending(r, moves[1..], user, k);
      if m.Count? && m.user == user { PassedBelow(w, m); }
      assert m in moves && LimitIs(moves[1..], user, limit);
      DeviceBound(r, moves[1..], user, limit, k);
    }
  }

  lemma PassedBelow(w: Watched, m: Move)
    requires m.Count?
    ensures Next(w, m).s == w.s
    ensures Can(w, m) && 0 < m.limit ==> |ActiveOf(w.s.t.peers, m.user)| < m.limit
  {
    hide ActiveOf;
  }

  function Begin(servers: map<nat, Server>): Watched { Watched(SlotRuns.Empty(servers), map[]) }

  // ---- The bound is reached ----

  /** Keys that differ. */
  function KeyText(i: nat): string { seq(i, _ => 'k') }

  /** One server, and n devices of one user on it, with nothing under way. */
  ghost predicate Stands(w: Watched, n: nat, user: nat, max: nat) {
    && w.passed == map[] && w.s.jobs == map[]
    && 0 in w.s.tally && w.s.t.servers == map[0 := Server(n, max, true)]
    && (forall i: nat :: i in w.s.t.peers <==> i < n)
    && (forall i | 0 <= i < n :: w.s.t.peers[i] == Peer(user, 0, KeyText(i), true))
  }

  lemma StandsCount(w: Watched, n: nat, user: nat, max: nat)
    requires Stands(w, n, user, max)
    ensures |ActiveOf(w.s.t.peers, user)| == n
  {
    hide KeyText;
    assert ActiveOf(w.s.t.peers, user) == Below(n);
  }

  lemma FreshKey(w: Watched, n: nat, user: nat, max: nat, i: nat)
    requires Stands(w, n, user, max) && n <= i
    ensures CanCreate(w.s.t, Peer(user, 0, KeyText(i), true))
  {
    forall id | id in w.s.t.peers ensures !SameSlot(w.s.t.peers[id], Peer(user, 0, KeyText(i), true)) {
      assert |KeyText(id)| == id && |KeyText(i)| == i;
    }
  }

  /** A Connect of the user's n-th device with a key of its own. */
  ghost function Reserving(n: nat, user: nat): Move { Do(Reserve(n, 0, user, KeyText(n))) }

  ghost function Creating(n: nat): Move { Do(SlotRuns.Create(n, n, true)) }

  ghost function OneConnect(n: nat, user: nat, limit: nat): seq<Move> {
    [Count(n, user, limit)] + [Reserving(n, user), Creating(n)]
  }

  ghost function TwoConnects(n: nat, user: nat, limit: nat): seq<Move> {
    [Count(n, user, limit), Count(n + 1, user, limit)] +
    ([Reserving(n, user), Creating(n)] + ([Reserving(n + 1, user), Creating(n + 1)] + []))
  }

  /** What counting, reserving and creating leave when nothing else is under way. */
  lemma Counts(w: Watched, n: nat, user: nat, limit: nat)
    requires n !in w.passed && n !in w.s.jobs && |ActiveOf(w.s.t.peers, user)| < limit
    ensures Next(w, Count(n, user, limit)) == w.(passed := w.passed[n := user])
  {
    hide ActiveOf;
  }

  lemma Creates(w: Watched, n: nat, user: nat, max: nat, left: map<nat, nat>)
    requires Stands(w.(passed := map[]), n, user, max) && n < max
    requires n in w.passed && w.passed[n] == user && w.passed - {n} == left
    ensures Stands(Next(Next(w, Reserving(n, user)), Creating(n)).(passed := map[]), n + 1, user, max)
    ensures Next(Next(w, Reserving(n, user)), Creating(n)).passed == left
    ensures Next(w, Reserving(n, user)).passed == w.passed
  {
    hide KeyText, SameSlot;
    var r := Next(w, Reserving(n, user));
    FreshKey(w.(passed := map[]), n, user, max, n);
    assert r.s.t.peers == w.s.t.peers && n !in r.s.t.peers;
    assert CanCreate(r.s.t, Peer(user, 0, KeyText(n), true));
    assert r.s.jobs - {n} == map[];
  }

  /** Moves in front of a run. */
  lemma TwoMoves(w: Watched, a: Move, b: Move, rest: seq<Move>, user: nat, k: nat)
    ensures RunAll(w, [a, b] + rest) == RunAll(Next(Next(w, a), b), rest)
    ensures AtMostPending(w, [a, b] + rest, user, k) <==>
      |Pending(w, user)| <= k && |Pending(Next(w, a), user)| <= k && AtMostPending(Next(Next(w, a), b), rest, user, k)
  {
    hide Next, Pending;
    var all, one := [a, b] + rest, [b] + rest;
    assert all[1..] == one && one[1..] == rest;
    assert RunAll(Next(w, a), one) == RunAll(Next(Next(w, a), b), rest);
    assert AtMostPending(Next(w, a), one, user, k) <==>
           |Pending(Next(w, a), user)| <= k && AtMostPending(Next(Next(w, a), b), rest, user, k);
  }

  lemma OneMove(w: Watched, a: Move, rest: seq<Move>, user: nat, k: nat)
    ensures RunAll(w, [a] + rest) == RunAll(Next(w, a), rest)
    ensures AtMostPending(w, [a] + rest, user, k) <==> |Pending(w, user)| <= k && AtMostPending(Next(w, a), rest, user, k)
  {
    hide Next, Pending;
    assert ([a] + rest)[1..] == rest;
  }

  lemma PendingIs(w: Watched, user: nat, at: set<nat>)
    requires w.passed.Keys == at && forall j | j in w.passed :: w.passed[j] == user
    ensures Pending(w, user) == at
  {
    hide Pending;
  }

  lemma StillStands(w: Watched, r: Watched, n: nat, user: nat, max: nat)
    requires Stands(w, n, user, max) && r.s == w.s
    ensures Stands(r.(passed := map[]), n, user, max) && n !in r.s.jobs && n + 1 !in r.s.jobs
  {
    hide KeyText;
  }

  lemma OneDeviceMore(w: Watched, n: nat, user: nat, limit: nat, max: nat, rest: seq<Move>)
    requires Stands(w, n, user, max) && n < limit && n < max
    ensures var r := RunAll(w, OneConnect(n, user, limit));
      && Stands(r, n + 1, user, max)
      && RunAll(w, OneConnect(n, user, limit) + rest) == RunAll(r, rest)
      && (AtMostPending(r, rest, user, 2) ==> AtMostPending(w, OneConnect(n, user, limit) + rest, user, 2))
  {
    hide Next, Stands, RunAll, AtMostPending, Reserving, Creating, KeyText, Pending, ActiveOf;
    NothingPassed(w, n, user, max);
    StandsCount(w, n, user, max);
    Counts(w, n, user, limit);
    var w1 := Next(w, Count(n, user, limit));
    StillStands(w, w1, n, user, max);
    assert w1.passed - {n} == map[];
    Creates(w1, n, user, max, map[]);
    var w2 := Next(w1, Reserving(n, user));
    var w3 := Next(w2, Creating(n));
    assert w3.(passed := map[]) == w3;
    PendingIs(w, user, {});
    PendingIs(w1, user, {n});
    PendingIs(w2, user, {n});
    OneMove(w, Count(n, user, limit), [Reserving(n, user), Creating(n)] + rest, user, 2);
    TwoMoves(w1, Reserving(n, user), Creating(n), rest, user, 2);
    OneMove(w, Count(n, user, limit), [Reserving(n, user), Creating(n)] + [], user, 2);
    TwoMoves(w1, Reserving(n, user), Creating(n), [], user, 2);
    EmptyRun(w3);
    assert OneConnect(n, user, limit) + rest == [Count(n, user, limit)] + ([Reserving(n, user), Creating(n)] + rest);
    assert [Reserving(n, user), Creating(n)] + [] == [Reserving(n, user), Creating(n)];
  }

  lemma EmptyRun(w: Watched)
    ensures RunAll(w, []) == w
  {}

  lemma NothingPassed(w: Watched, n: nat, user: nat, max: nat)
    requires Stands(w, n, user, max)
    ensures w.passed == map[] && w.s.jobs == map[]
  {}

  /** Two Connects that both count before either creates. */
  lemma TwoDevicesMore(w: Watched, n: nat, user: nat, limit: nat, max: nat)
    requires Stands(w, n, user, max) && n < limit && n + 1 < max
    ensures var r := RunAll(w, TwoConnects(n, user, limit));
      Stands(r, n + 2, user, max) && AtMostPending(w, TwoConnects(n, user, limit), user, 2)
  {
    hide Next, Stands, RunAll, AtMostPending, Reserving, Creating, KeyText, Pending, ActiveOf;
    NothingPassed(w, n, user, max);
    StandsCount(w, n, user, max);
    Counts(w, n, user, limit);
    var w1 := Next(w, Count(n, user, limit));
    Counts(w1, n + 1, user, limit);
    var w2 := Next(w1, Count(n + 1, user, limit));
    StillStands(w, w2, n, user, max);
    assert w2.passed - {n} == map[n + 1 := user];
    Creates(w2, n, user, max, map[n + 1 := user]);
    var w3 := Next(w2, Reserving(n, user));
    var w4 := Next(w3, Creating(n));
    assert w4.passed - {n + 1} == map[];
    Creates(w4, n + 1, user, max, map[]);
    var w5 := Next(w4, Reserving(n + 1, user));
    var w6 := Next(w5, Creating(n + 1));
    assert w6.(passed := map[]) == w6;
    PendingIs(w, user, {});
    PendingIs(w1, user, {n});
    PendingIs(w2, user, {n, n + 1});
    PendingIs(w3, user, {n, n + 1});
    PendingIs(w4, user, {n + 1});
    PendingIs(w5, user, {n + 1});
    PendingIs(w6, user, {});
    var last := [Reserving(n + 1, user), Creating(n + 1)] + [];
    TwoMoves(w, Count(n, user, limit), Count(n + 1, user, limit), [Reserving(n, user), Creating(n)] + last, user, 2);
    TwoMoves(w2, Reserving(n, user), Creating(n), last, user, 2);
    TwoMoves(w4, Reserving(n + 1, user), Creating(n + 1), [], user, 2);
    EmptyRun(w6);
    NoMoves(w6, user);
  }

  lemma NoMoves(w: Watched, user: nat)
    ensures AtMostPending(w, [], user, 2) <==> |Pending(w, user)| <= 2
  {}

  /** One device after the other up to one below the limit, and then two at once. */
  ghost function Rush(n: nat, user: nat, limit: nat): seq<Move>
    requires n < limit
    decreases limit - n
  {
    if n + 1 == limit then TwoConnects(n, user, limit) else OneConnect(n, user, limit) + Rush(n + 1, user, limit)
  }

  lemma {:induction false} RushOvershoots(w: Watched, n: nat, user: nat, limit: nat)
    requires Stands(w, n, user, limit + 1) && n < limit
    ensures LimitIs(Rush(n, user, limit), user, limit) && AtMostPending(w, Rush(n, user, limit), user, 2)
    ensures Stands(RunAll(w, Rush(n, user, limit)), limit + 1, user, limit + 1)
    decreases limit - n
  {
    hide Next, Stands, RunAll, AtMostPending, KeyText;
    if n + 1 == limit {
      TwoDevicesMore(w, n, user, limit, limit + 1);
    } else {
      OneDeviceMore(w, n, user, limit, limit + 1, Rush(n + 1, user, limit));
      RushOvershoots(RunAll(w, OneConnect(n, user, limit)), n + 1, user, limit);
    }
  }

  // ---- Exactly when the limit holds ----

  ghost predicate Kept(servers: map<nat, Server>, moves: seq<Move>, user: nat, limit: nat, k: nat) {
    LimitIs(moves, user, limit) && AtMostPending(Begin(servers), moves, user, k) ==>
    |ActiveOf(RunAll(Begin(servers), moves).s.t.peers, user)| <= limit
  }

  ghost predicate LimitKept(user: nat, limit: nat, k: nat) {
    forall servers, moves :: Kept(servers, moves, user, limit, k)
  }

  lemma BeginIs(servers: map<nat, Server>, user: nat, max: nat)
    ensures Counted(Begin(servers)) && Total(Begin(servers), user) == 0
    ensures servers == map[0 := Server(0, max, true)] ==> Stands(Begin(servers), 0, user, max)
  {
    assert ActiveOf(Begin(servers).s.t.peers, user) == {} && Pending(Begin(servers), user) == {};
  }

  lemma {:induction false} MorePending(w: Watched, moves: seq<Move>, user: nat, j: nat, k: nat)
    requires j <= k && AtMostPending(w, moves, user, j)
    ensures AtMostPending(w, moves, user, k)
    decreases |moves|
  {
    hide Next, Pending;
    if moves != [] { MorePending(Next(w, moves[0]), moves[1..], user, j, k); }
  }

  /**
   * A device limit holds in all runs with at most k Connects of the user between count and creation
   * if and only if there is at most one of them.
   */
  lemma LimitKeptIff(user: nat, limit: nat, k: nat)
    requires 1 <= limit
    ensures LimitKept(user, limit, k) <==> k <= 1
  {
    hide RunAll, AtMostPending, LimitIs, Rush, Begin, Stands, ActiveOf, Pending, Counted;
    if k <= 1 {
      forall servers, moves ensures Kept(servers, moves, user, limit, k) {
        if LimitIs(moves, user, limit) && AtMostPending(Begin(servers), moves, user, k) {
          BeginIs(servers, user, 0);
          DeviceBound(Begin(servers), moves, user, limit, k);
        }
      }
    } else {
      var servers := map[0 := Server(0, limit + 1, true)];
      BeginIs(servers, user, limit + 1);
      RushOvershoots(Begin(servers), 0, user, limit);
      MorePending(Begin(servers), Rush(0, user, limit), user, 2, k);
      StandsCount(RunAll(Begin(servers), Rush(0, user, limit)), limit + 1, user, limit + 1);
      assert !Kept(servers, Rush(0, user, limit), user, limit, k);
    }
  }
}
