/** Every interleaving of the hub's event loop, user broadcasts and connection handlers. */
module HubRuns {
  import opened Common
  import opened WsHub

  /** The event loop, and any number of BroadcastToUsers calls. */
  datatype Actor = Loop | Caller(id: nat)

  /** What an actor is doing: sending holds the read lock; evicting waits for the write lock. */
  datatype Phase =
    | Counted(e: Entry)
    | Sending(e: Entry, left: set<Client>, dead: set<Client>)
    | Evicting(dead: set<Client>)

  /** pending: handlers past CanAccept and not yet registered. log, since, evicted record the history. */
  datatype State = State(
    t: Table, pending: set<Client>, phases: map<Actor, Phase>,
    log: seq<string>, since: map<Client, nat>, evicted: set<Client>)

  datatype Act =
    | Check(c: Client, maxForUser: nat)
    | Register(c: Client)
    | Unregister(c: Client)
    | Take(msg: string)
    | Begin
    | CallUsers(id: nat, users: set<string>, msg: string)
    | Send(who: Actor, c: Client, full: bool)
    | Unlock(who: Actor)
    | Evict(who: Actor)

  function Initial(): State { State(NewTable(), {}, map[], [], map[], {}) }

  /** The read lock is held. */
  predicate Reading(s: State) { exists a | a in s.phases :: s.phases[a].Sending? }

  /** An act is possible: the locks are free for it, and the actor is where it has to be. */
  predicate Possible(s: State, a: Act) {
    match a
    case Check(c, _) => c !in s.pending && c !in s.since
    case Register(c) => c in s.pending && Loop !in s.phases && !Reading(s)
    case Unregister(c) => c in s.since && Loop !in s.phases && !Reading(s)
    case Take(_) => Loop !in s.phases
    case Begin => Loop in s.phases && s.phases[Loop].Counted?
    case CallUsers(id, _, _) => Caller(id) !in s.phases
    case Send(who, c, _) => who in s.phases && s.phases[who].Sending? && c in s.phases[who].left
    case Unlock(who) => who in s.phases && s.phases[who].Sending? && s.phases[who].left == {}
    case Evict(who) => who in s.phases && s.phases[who].Evicting? && !Reading(s)
  }

  function Effect(s: State, a: Act): State
    requires Possible(s, a)
  {
    match a
    case Check(c, _) => s.(pending := s.pending + {c})
    case Register(c) => s.(t := Opened(s.t, c), pending := s.pending - {c}, since := s.since[c := |s.log|])
    case Unregister(c) => s.(t := Dropped(s.t, c))
    case Take(msg) =>
      s.(log := s.log + [msg], phases := if s.t.clients == {} then s.phases else s.phases[Loop := Counted(ToAll(msg))])
    case Begin => s.(phases := s.phases[Loop := Sending(s.phases[Loop].e, s.t.clients, {})])
    case CallUsers(id, users, msg) =>
      var e := ToUsers(users, msg);
      s.(phases := s.phases[Caller(id) := Sending(e, Addressed(s.t.clients, e), {})])
    case Send(who, c, full) => SendOne(s, who, c, full)
    case Unlock(who) =>
      var dead := s.phases[who].dead;
      s.(phases := if dead == {} then s.phases - {who} else s.phases[who := Evicting(dead)])
    case Evict(who) =>
      var dead := s.phases[who].dead;
      s.(t := Evicted(s.t, dead), phases := s.phases - {who}, evicted := s.evicted + dead * s.t.clients)
  }

  /** One turn of a sending loop: a channel without room puts its client on the actor's dead list. */
  function SendOne(s: State, who: Actor, c: Client, full: bool): State
    requires who in s.phases && s.phases[who].Sending?
  {
    var p := s.phases[who];
    if full then s.(phases := s.phases[who := Sending(p.e, p.left - {c}, p.dead + {c})])
    else s.(t := Delivered(s.t, c, p.e), phases := s.phases[who := Sending(p.e, p.left - {c}, p.dead)])
  }

  /** The act can happen now: the locks are free, and CanAccept says yes. */
  predicate Enabled(s: State, a: Act, maxGlobal: nat) {
    Possible(s, a) && (a.Check? ==> Admits(s.t, a.c.user, maxGlobal, a.maxForUser))
  }

  function Step(s: State, a: Act, maxGlobal: nat): State {
    if Enabled(s, a, maxGlobal) then Effect(s, a) else s
  }

  /** A schedule; an act that is not possible when its turn comes is skipped. */
  function Run(s: State, acts: seq<Act>, maxGlobal: nat): State
    decreases |acts|
  {
    if acts == [] then s else Run(Step(s, acts[0], maxGlobal), acts[1..], maxGlobal)
  }

  // ---- The invariant ----

  ghost function Of(s: set<Client>, user: string): set<Client> { set c | c in s && c.user == user }

  /** The clients whose message failed in the event loop's current broadcast. */
  ghost function Failing(s: State): set<Client> {
    if Loop in s.phases && !s.phases[Loop].Counted? then s.phases[Loop].dead else {}
  }

  /** The current broadcast has still to reach this client. */
  ghost predicate Owed(s: State, c: Client) {
    Loop in s.phases && (s.phases[Loop].Counted? || (s.phases[Loop].Sending? && c in s.phases[Loop].left))
  }

  /** What reached the client from Broadcast, in order. */
  function Public(stream: seq<Entry>): seq<string> {
    if stream == [] then []
    else
      var last := stream[|stream| - 1];
      Public(stream[..|stream| - 1]) + (if last.ToAll? then [last.msg] else [])
  }

  ghost function Settled(s: State, c: Client): int { if Owed(s, c) then |s.log| - 1 else |s.log| }

  /** The client received every broadcast processed since it registered, in order, and nothing else. */
  ghost predicate StreamExact(s: State, c: Client) {
    c in s.since && 0 <= s.since[c] <= Settled(s, c) && Public(Stream(s.t, c)) == s.log[s.since[c]..Settled(s, c)]
  }

  /** Channels: in the table and open, or closed; never both, and no panic so far. */
  ghost predicate ChannelsOk(s: State) {
    && !s.t.panicked
    && s.t.clients !! s.t.closed
    && s.t.sent.Keys <= s.since.Keys
    && s.since.Keys == s.t.clients + s.t.closed
    && s.pending !! s.since.Keys
    && s.evicted <= s.t.closed
  }

  ghost predicate PhaseOk(s: State, a: Actor)
    requires a in s.phases
  {
    var p := s.phases[a];
    && (p.Counted? ==> a.Loop?)
    && (!p.Evicting? ==> (p.e.ToAll? <==> a.Loop?))
    && (p.Counted? ==> s.log != [] && p.e.msg == s.log[|s.log| - 1])
    && (p.Sending? ==> p.left <= Addressed(s.t.clients, p.e) && p.dead <= s.t.clients && p.left !! p.dead)
    && (p.Sending? && a.Loop? ==> s.log != [] && p.e.msg == s.log[|s.log| - 1])
  }

  ghost predicate PhasesOk(s: State) { forall a | a in s.phases :: PhaseOk(s, a) }

  ghost predicate StreamsOk(s: State) { forall c | c in s.t.clients && c !in Failing(s) :: StreamExact(s, c) }

  /** Nobody receives what was meant for others. */
  ghost predicate OnlyAddressed(sent: map<Client, seq<Entry>>) {
    forall c, e | c in sent && e in sent[c] && e.ToUsers? :: c.user in e.users
  }

  /** The user's counter: live clients plus those evicted as slow, and an entry only when that is positive. */
  ghost predicate CountExact(t: Table, evicted: set<Client>, user: string) {
    var n := |Of(t.clients, user)| + |Of(evicted, user)|;
    (user in t.conns <==> n > 0) && Count(t.conns, user) == n
  }

  ghost predicate CountsOk(t: Table, evicted: set<Client>) { forall user :: CountExact(t, evicted, user) }

  ghost predicate Inv(s: State) {
    ChannelsOk(s) && PhasesOk(s) && StreamsOk(s) && OnlyAddressed(s.t.sent) && CountsOk(s.t, s.evicted)
  }

  // ---- Every act keeps it ----

  lemma OfUnion(a: set<Client>, b: set<Client>, user: string)
    requires a !! b
    ensures |Of(a + b, user)| == |Of(a, user)| + |Of(b, user)|
  {
    assert Of(a + b, user) == Of(a, user) + Of(b, user);
  }

  lemma OfOne(c: Client, user: string)
    ensures |Of({c}, user)| == if c.user == user then 1 else 0
  {
    assert Of({c}, user) == if c.user == user then {c} else {};
  }

  lemma CountsAfterOpen(t: Table, evicted: set<Client>, c: Client)
    requires CountsOk(t, evicted) && c !in t.clients
    ensures CountsOk(Opened(t, c), evicted)
  {
    forall user ensures CountExact(Opened(t, c), evicted, user) {
      assert CountExact(t, evicted, user);
      OfUnion(t.clients, {c}, user);
      OfOne(c, user);
    }
  }

  lemma CountsAfterDrop(t: Table, evicted: set<Client>, c: Client)
    requires CountsOk(t, evicted) && c in t.clients
    ensures CountsOk(Dropped(t, c), evicted)
  {
    forall user ensures CountExact(Dropped(t, c), evicted, user) {
      assert CountExact(t, evicted, user);
      OfUnion(t.clients - {c}, {c}, user);
      assert t.clients - {c} + {c} == t.clients;
      OfOne(c, user);
    }
  }

  lemma CountsAfterEvict(t: Table, evicted: set<Client>, gone: set<Client>)
    requires CountsOk(t, evicted) && gone <= t.clients && gone !! evicted
    ensures CountsOk(WithClosed(t, gone), evicted + gone)
  {
    forall user ensures CountExact(WithClosed(t, gone), evicted + gone, user) {
      assert CountExact(t, evicted, user);
      OfUnion(t.clients - gone, gone, user);
      assert t.clients - gone + gone == t.clients;
      OfUnion(evicted, gone, user);
    }
  }

  lemma PublicAppend(stream: seq<Entry>, e: Entry)
    ensures Public(stream + [e]) == Public(stream) + (if e.ToAll? then [e.msg] else [])
  {
    assert (stream + [e])[..|stream|] == stream;
  }

  /** Removing clients under the write lock. */
  lemma RemovalKeeps(s: State, r: State, gone: set<Client>)
    requires Inv(s) && !Reading(s) && gone <= s.t.clients
    requires r.t.clients == s.t.clients - gone && r.t.closed == s.t.closed + gone && !r.t.panicked && r.t.sent == s.t.sent
    requires r.pending == s.pending && r.log == s.log && r.since == s.since && r.evicted <= s.evicted + gone
    requires r.phases == s.phases || exists a :: a in s.phases && s.phases[a].Evicting? && r.phases == s.phases - {a}
    requires Loop in s.phases && Loop !in r.phases ==> s.phases[Loop].Evicting? && s.phases[Loop].dead * s.t.clients <= gone
    requires CountsOk(r.t, r.evicted)
    ensures Inv(r)
  {
    hide Addressed, Public, CountsOk, StreamExact;
    forall a | a in r.phases ensures PhaseOk(r, a) {
      assert PhaseOk(s, a);
    }
    forall c | c in r.t.clients && c !in Failing(r) ensures StreamExact(r, c) {
      assert StreamExact(s, c);
      SameStream(s, r, c);
    }
  }

  lemma SameStream(s: State, r: State, c: Client)
    requires StreamExact(s, c) && r.t.sent == s.t.sent && r.log == s.log && r.since == s.since && (Owed(r, c) <==> Owed(s, c))
    ensures StreamExact(r, c)
  {
    hide Public;
  }

  lemma RegisterKeeps(s: State, c: Client)
    requires Inv(s) && Possible(s, Register(c))
    ensures Inv(Effect(s, Register(c)))
  {
    hide Addressed, CountsOk;
    var r := Effect(s, Register(c));
    CountsAfterOpen(s.t, s.evicted, c);
    forall a | a in r.phases ensures PhaseOk(r, a) {
      assert PhaseOk(s, a);
    }
    forall d | d in r.t.clients && d !in Failing(r) ensures StreamExact(r, d) {
      if d != c { assert StreamExact(s, d); }
    }
  }

  lemma UnregisterKeeps(s: State, c: Client)
    requires Inv(s) && Possible(s, Unregister(c))
    ensures Inv(Effect(s, Unregister(c)))
  {
    hide Addressed, CountsOk, PhasesOk, StreamsOk, OnlyAddressed, Lowered;
    if c in s.t.clients {
      CountsAfterDrop(s.t, s.evicted, c);
      RemovalKeeps(s, Effect(s, Unregister(c)), {c});
    }
  }

  lemma EvictKeeps(s: State, who: Actor)
    requires Inv(s) && Possible(s, Act.Evict(who))
    ensures Inv(Effect(s, Act.Evict(who)))
  {
    hide Addressed, CountsOk, PhasesOk, StreamsOk, OnlyAddressed;
    var gone := s.phases[who].dead * s.t.clients;
    CountsAfterEvict(s.t, s.evicted, gone);
    RemovalKeeps(s, Effect(s, Act.Evict(who)), gone);
  }

  lemma TakeKeeps(s: State, msg: string)
    requires Inv(s) && Possible(s, Take(msg))
    ensures Inv(Effect(s, Take(msg)))
  {
    hide Addressed, CountsOk, OnlyAddressed, Public, StreamExact;
    var r := Effect(s, Take(msg));
    forall a | a in r.phases ensures PhaseOk(r, a) {
      if a != Loop { assert PhaseOk(s, a); }
    }
    forall c | c in r.t.clients && c !in Failing(r) ensures StreamExact(r, c) {
      assert StreamExact(s, c);
      TakeStream(s, msg, c);
    }
  }

  /** The client is now owed one broadcast more. */
  lemma TakeStream(s: State, msg: string, c: Client)
    requires Possible(s, Take(msg)) && c in s.t.clients && StreamExact(s, c)
    ensures StreamExact(Effect(s, Take(msg)), c)
  {
    hide Public;
  }

  lemma BeginKeeps(s: State)
    requires Inv(s) && Possible(s, Begin)
    ensures Inv(Effect(s, Begin))
  {
    hide CountsOk, OnlyAddressed, Public;
    var r := Effect(s, Begin);
    assert PhaseOk(s, Loop);
    forall a | a in r.phases ensures PhaseOk(r, a) {
      assert PhaseOk(s, a);
    }
    forall c | c in r.t.clients && c !in Failing(r) ensures StreamExact(r, c) {
      assert StreamExact(s, c);
    }
  }

  lemma CallKeeps(s: State, id: nat, users: set<string>, msg: string)
    requires Inv(s) && Possible(s, CallUsers(id, users, msg))
    ensures Inv(Effect(s, CallUsers(id, users, msg)))
  {
    hide CountsOk, OnlyAddressed, Public;
    var r := Effect(s, CallUsers(id, users, msg));
    forall a | a in r.phases ensures PhaseOk(r, a) {
      if a != Caller(id) { assert PhaseOk(s, a); }
    }
    forall c | c in r.t.clients && c !in Failing(r) ensures StreamExact(r, c) {
      assert StreamExact(s, c);
    }
  }

  lemma UnlockKeeps(s: State, who: Actor)
    requires Inv(s) && Possible(s, Unlock(who))
    ensures Inv(Effect(s, Unlock(who)))
  {
    hide CountsOk, OnlyAddressed, Public, Addressed;
    var r := Effect(s, Unlock(who));
    forall a | a in r.phases ensures PhaseOk(r, a) {
      assert PhaseOk(s, a);
    }
    forall c | c in r.t.clients && c !in Failing(r) ensures StreamExact(r, c) {
      assert StreamExact(s, c);
    }
  }

  lemma SendKeeps(s: State, who: Actor, c: Client, full: bool)
    requires Inv(s) && Possible(s, Act.Send(who, c, full))
    ensures Inv(Effect(s, Act.Send(who, c, full)))
  {
    hide CountsOk, Public, Addressed, StreamsOk, Reading;
    SameTable(s, who, c, full);
    SendPhases(s, who, c, full);
    SendStreams(s, who, c, full);
    SendAddressed(s, who, c, full);
  }

  lemma SendPhases(s: State, who: Actor, c: Client, full: bool)
    requires Inv(s) && Possible(s, Act.Send(who, c, full))
    ensures PhasesOk(SendOne(s, who, c, full)) && c in s.t.clients
  {
    hide CountsOk, Public, Addressed, StreamsOk, OnlyAddressed, Reading;
    var r := SendOne(s, who, c, full);
    assert PhaseOk(s, who);
    InAddressed(s, who, c);
    forall a | a in r.phases ensures PhaseOk(r, a) {
      assert PhaseOk(s, a);
    }
  }

  lemma InAddressed(s: State, who: Actor, c: Client)
    requires who in s.phases && PhaseOk(s, who) && s.phases[who].Sending? && c in s.phases[who].left
    ensures c in s.t.clients && (s.phases[who].e.ToUsers? ==> c.user in s.phases[who].e.users)
  {}

  lemma SenderFacts(s: State, who: Actor, c: Client)
    requires PhasesOk(s) && who in s.phases && s.phases[who].Sending? && c in s.phases[who].left
    ensures c in s.t.clients && c !in s.phases[who].dead
    ensures s.phases[who].e.ToAll? <==> who.Loop?
    ensures who.Loop? ==> s.log != [] && s.phases[who].e.msg == s.log[|s.log| - 1]
  {
    assert PhaseOk(s, who);
  }

  lemma SendStreams(s: State, who: Actor, c: Client, full: bool)
    requires Inv(s) && Possible(s, Act.Send(who, c, full))
    ensures StreamsOk(SendOne(s, who, c, full))
  {
    hide CountsOk, Public, Addressed, OnlyAddressed, Reading, PhasesOk, StreamExact;
    var r := SendOne(s, who, c, full);
    SenderFacts(s, who, c);
    forall d | d in r.t.clients && d !in Failing(r) ensures StreamExact(r, d) {
      assert StreamExact(s, d);
      SendStream(s, who, c, full, d);
    }
  }

  lemma SendStream(s: State, who: Actor, c: Client, full: bool, d: Client)
    requires Inv(s) && Possible(s, Act.Send(who, c, full)) && d in s.t.clients && StreamExact(s, d)
    requires d !in Failing(SendOne(s, who, c, full))
    ensures StreamExact(SendOne(s, who, c, full), d)
  {
    hide CountsOk, Public, Addressed, OnlyAddressed, Reading, PhasesOk, StreamsOk;
    SenderFacts(s, who, c);
    PublicAppend(Stream(s.t, c), s.phases[who].e);
  }

  lemma SendAddressed(s: State, who: Actor, c: Client, full: bool)
    requires Inv(s) && Possible(s, Act.Send(who, c, full))
    ensures OnlyAddressed(SendOne(s, who, c, full).t.sent)
  {
    hide CountsOk, Public, Addressed, StreamsOk, Reading, ChannelsOk;
    assert PhaseOk(s, who);
    InAddressed(s, who, c);
  }

  /** Sending changes neither the table's clients nor its counters. */
  lemma SameTable(s: State, who: Actor, c: Client, full: bool)
    requires Inv(s) && Possible(s, Act.Send(who, c, full))
    ensures CountsOk(SendOne(s, who, c, full).t, s.evicted)
  {
    hide Addressed, PhasesOk, StreamsOk, OnlyAddressed;
    forall user ensures CountExact(SendOne(s, who, c, full).t, s.evicted, user) {
      assert CountExact(s.t, s.evicted, user);
    }
  }

  lemma EffectKeeps(s: State, a: Act)
    requires Inv(s) && Possible(s, a)
    ensures Inv(Effect(s, a))
  {
    match a
    case Check(c, _) =>
    case Register(c) => RegisterKeeps(s, c);
    case Unregister(c) => UnregisterKeeps(s, c);
    case Take(msg) => TakeKeeps(s, msg);
    case Begin => BeginKeeps(s);
    case CallUsers(id, users, msg) => CallKeeps(s, id, users, msg);
    case Send(who, c, full) => SendKeeps(s, who, c, full);
    case Unlock(who) => UnlockKeeps(s, who);
    case Evict(who) => EvictKeeps(s, who);
  }

  // ---- Whole runs ----

  /** In every interleaving: no panic, streams exact, counters exact. */
  lemma {:induction false} EveryRunKeeps(s: State, acts: seq<Act>, maxGlobal: nat)
    requires Inv(s)
    ensures Inv(Run(s, acts, maxGlobal))
    decreases |acts|
  {
    hide Inv, Enabled, Effect;
    if acts != [] {
      StepKeeps(s, acts[0], maxGlobal);
      EveryRunKeeps(Step(s, acts[0], maxGlobal), acts[1..], maxGlobal);
    }
  }

  lemma StepKeeps(s: State, a: Act, maxGlobal: nat)
    requires Inv(s)
    ensures Inv(Step(s, a, maxGlobal))
  {
    hide Inv, Effect, Possible;
    if Enabled(s, a, maxGlobal) { EffectKeeps(s, a); }
  }

  lemma InitialOk()
    ensures Inv(Initial())
  {
    forall user ensures CountExact(NewTable(), {}, user) {
      assert Of({}, user) == {};
    }
  }

  /** No channel is closed twice or sent on after it was closed, whatever the interleaving. */
  lemma NeverPanics(acts: seq<Act>, maxGlobal: nat)
    ensures var s := Run(Initial(), acts, maxGlobal);
      !s.t.panicked && s.t.clients !! s.t.closed && s.t.clients + s.t.closed == s.since.Keys
  {
    InitialOk();
    EveryRunKeeps(Initial(), acts, maxGlobal);
  }

  /** Between two broadcasts every live client has received exactly the broadcasts processed since it registered. */
  lemma StreamsAreExact(acts: seq<Act>, maxGlobal: nat, c: Client)
    requires Loop !in Run(Initial(), acts, maxGlobal).phases && c in Run(Initial(), acts, maxGlobal).t.clients
    ensures var s := Run(Initial(), acts, maxGlobal);
      && c in s.since && s.since[c] <= |s.log|
      && Public(Stream(s.t, c)) == s.log[s.since[c]..]
      && forall e | e in Stream(s.t, c) && e.ToUsers? :: c.user in e.users
  {
    InitialOk();
    EveryRunKeeps(Initial(), acts, maxGlobal);
    assert StreamExact(Run(Initial(), acts, maxGlobal), c);
  }

  /** Nothing but public messages has been sent or is being sent. */
  ghost predicate PublicOnly(s: State) {
    && (forall a | a in s.phases :: a.Loop?)
    && (forall c, e | c in s.t.sent && e in s.t.sent[c] :: e.ToAll?)
  }

  lemma {:induction false} PublicRuns(s: State, acts: seq<Act>, maxGlobal: nat)
    requires Inv(s) && PublicOnly(s) && forall a | a in acts :: !a.CallUsers?
    ensures PublicOnly(Run(s, acts, maxGlobal))
    decreases |acts|
  {
    hide Inv, Enabled, Effect, PublicOnly;
    if acts != [] {
      StepKeeps(s, acts[0], maxGlobal);
      PublicStep(s, acts[0], maxGlobal);
      PublicRuns(Step(s, acts[0], maxGlobal), acts[1..], maxGlobal);
    }
  }

  lemma PublicStep(s: State, a: Act, maxGlobal: nat)
    requires Inv(s) && PublicOnly(s) && !a.CallUsers?
    ensures PublicOnly(Step(s, a, maxGlobal))
  {
    if Enabled(s, a, maxGlobal) && a.Send? { assert PhaseOk(s, a.who); }
  }

  lemma {:induction false} AllPublic(stream: seq<Entry>)
    requires forall e | e in stream :: e.ToAll?
    ensures |Public(stream)| == |stream| && forall i | 0 <= i < |stream| :: stream[i] == ToAll(Public(stream)[i])
  {
    if stream != [] { AllPublic(stream[..|stream| - 1]); }
  }

  /** With only the event loop sending, the whole stream is the log from the registration on. */
  lemma OnlyTheLoopSends(acts: seq<Act>, maxGlobal: nat, c: Client)
    requires forall a | a in acts :: !a.CallUsers?
    requires Loop !in Run(Initial(), acts, maxGlobal).phases && c in Run(Initial(), acts, maxGlobal).t.clients
    ensures var s := Run(Initial(), acts, maxGlobal);
      && c in s.since && s.since[c] + |Stream(s.t, c)| == |s.log|
      && forall i | 0 <= i < |Stream(s.t, c)| :: Stream(s.t, c)[i] == ToAll(s.log[s.since[c] + i])
  {
    hide Public, Inv;
    InitialOk();
    StreamsAreExact(acts, maxGlobal, c);
    PublicRuns(Initial(), acts, maxGlobal);
    AllPublic(Stream(Run(Initial(), acts, maxGlobal).t, c));
  }

  // ---- Connection counting ----

  /** A user's counter is live plus evicted, so it is the live count exactly when none of the user's clients was evicted. */
  lemma CountersAreExact(acts: seq<Act>, maxGlobal: nat, user: string)
    ensures var s := Run(Initial(), acts, maxGlobal);
      && Count(s.t.conns, user) == |Of(s.t.clients, user)| + |Of(s.evicted, user)|
      && (user in s.t.conns <==> Count(s.t.conns, user) > 0)
      && (Count(s.t.conns, user) == |Of(s.t.clients, user)| <==> Of(s.evicted, user) == {})
  {
    InitialOk();
    EveryRunKeeps(Initial(), acts, maxGlobal);
    assert CountExact(Run(Initial(), acts, maxGlobal).t, Run(Initial(), acts, maxGlobal).evicted, user);
  }

  ghost function Those(s: set<Client>, whose: Option<string>): set<Client> {
    if whose.None? then s else Of(s, whose.value)
  }

  /** At no point of the run are more than k of these handlers between CanAccept and registration. */
  ghost predicate AtMostPending(s: State, acts: seq<Act>, maxGlobal: nat, whose: Option<string>, k: nat)
    decreases |acts|
  {
    && |Those(s.pending, whose)| <= k
    && (acts == [] || AtMostPending(Step(s, acts[0], maxGlobal), acts[1..], maxGlobal, whose, k))
  }

  /** The limit that applies to all clients, or to one user's. */
  ghost predicate LimitIs(acts: seq<Act>, maxGlobal: nat, whose: Option<string>, limit: nat) {
    if whose.None? then 0 < maxGlobal <= limit
    else forall a | a in acts && a.Check? && a.c.user == whose.value :: 0 < a.maxForUser <= limit
  }

  lemma ThoseOne(set0: set<Client>, c: Client, whose: Option<string>)
    requires c !in set0
    ensures |Those(set0 + {c}, whose)| == |Those(set0, whose)| + (if whose.None? || c.user == whose.value then 1 else 0)
  {
    if whose.Some? {
      OfUnion(set0, {c}, whose.value);
      OfOne(c, whose.value);
    }
  }

  lemma ThoseFewer(a: set<Client>, b: set<Client>, whose: Option<string>)
    requires a <= b
    ensures |Those(a, whose)| <= |Those(b, whose)|
  {
    SubsetCard(Those(a, whose), Those(b, whose));
  }

  /** Only Check adds a pending handler, only Register a client. */
  lemma OthersOnlyRemove(s: State, a: Act)
    requires Possible(s, a) && !a.Check? && !a.Register?
    ensures Effect(s, a).t.clients <= s.t.clients && Effect(s, a).pending == s.pending
  {
    hide Addressed, Reading, Lowered, Stream, Count;
  }

  lemma AdmittedBelow(s: State, a: Act, maxGlobal: nat, whose: Option<string>, limit: nat)
    requires Inv(s) && LimitIs([a], maxGlobal, whose, limit) && a.Check? && Enabled(s, a, maxGlobal)
    requires whose.Some? ==> a.c.user == whose.value
    ensures |Those(s.t.clients, whose)| < limit && a.c !in s.pending
  {
    hide PhasesOk, StreamsOk, OnlyAddressed, Addressed, Of;
    if whose.Some? { assert CountExact(s.t, s.evicted, whose.value); }
    assert a in [a];
  }

  lemma RegistersOne(s: State, c: Client, whose: Option<string>)
    requires Inv(s) && c in s.pending
    ensures |Those(s.t.clients + {c}, whose)| + |Those(s.pending - {c}, whose)| ==
            |Those(s.t.clients, whose)| + |Those(s.pending, whose)|
  {
    hide PhasesOk, StreamsOk, OnlyAddressed, CountsOk, Those;
    ThoseOne(s.t.clients, c, whose);
    assert s.pending - {c} + {c} == s.pending;
    ThoseOne(s.pending - {c}, c, whose);
  }

  lemma LimitStep(s: State, a: Act, maxGlobal: nat, whose: Option<string>, limit: nat, k: nat)
    requires Inv(s) && LimitIs([a], maxGlobal, whose, limit)
    requires |Those(s.t.clients, whose)| + |Those(s.pending, whose)| <= limit + k - 1
    requires |Those(Step(s, a, maxGlobal).pending, whose)| <= k
    ensures var r := Step(s, a, maxGlobal);
      |Those(r.t.clients, whose)| + |Those(r.pending, whose)| <= limit + k - 1
  {
    hide Inv, Those, Reading, Admits, Addressed;
    if Enabled(s, a, maxGlobal) {
      var r := Effect(s, a);
      if a.Check? {
        if whose.None? || a.c.user == whose.value {
          AdmittedBelow(s, a, maxGlobal, whose, limit);
        } else {
          ThoseOne(s.pending, a.c, whose);
        }
      } else if a.Register? {
        RegistersOne(s, a.c, whose);
      } else {
        OthersOnlyRemove(s, a);
        ThoseFewer(r.t.clients, s.t.clients, whose);
      }
    }
  }

  /**
   * The check and the registration are separate steps, so k handlers at once can overshoot the
   * limit, but by k - 1 at most; with one at a time the limit is exact.
   */
  lemma {:induction false} ConnectionLimit(
    s: State, acts: seq<Act>, maxGlobal: nat, whose: Option<string>, limit: nat, k: nat)
    requires Inv(s) && LimitIs(acts, maxGlobal, whose, limit)
    requires AtMostPending(s, acts, maxGlobal, whose, k)
    requires |Those(s.t.clients, whose)| + |Those(s.pending, whose)| <= limit + k - 1
    ensures var r := Run(s, acts, maxGlobal);
      |Those(r.t.clients, whose)| + |Those(r.pending, whose)| <= limit + k - 1
    decreases |acts|
  {
    hide Inv, Enabled, Effect, Those;
    if acts != [] {
      StepKeeps(s, acts[0], maxGlobal);
      assert AtMostPending(Step(s, acts[0], maxGlobal), acts[1..], maxGlobal, whose, k);
      LimitStep(s, acts[0], maxGlobal, whose, limit, k);
      ConnectionLimit(Step(s, acts[0], maxGlobal), acts[1..], maxGlobal, whose, limit, k);
    }
  }

  lemma LimitFromStart(acts: seq<Act>, maxGlobal: nat, whose: Option<string>, limit: nat, k: nat)
    requires k >= 1 && LimitIs(acts, maxGlobal, whose, limit) && AtMostPending(Initial(), acts, maxGlobal, whose, k)
    ensures var s := Run(Initial(), acts, maxGlobal);
      |Those(s.t.clients, whose)| + |Those(s.pending, whose)| <= limit + k - 1
  {
    InitialOk();
    assert Those({}, whose) == {};
    ConnectionLimit(Initial(), acts, maxGlobal, whose, limit, k);
  }

  /** Two handlers that both passed the check before either registered: two connections under a limit of one. */
  lemma TheRaceIsReal(a: Client, b: Client)
    requires a != b
    ensures Run(Initial(), [Check(a, 0), Check(b, 0), Register(a), Register(b)], 1).t.clients == {a, b}
  {
    hide Run, Step;
    RunFour(Initial(), Check(a, 0), Check(b, 0), Register(a), Register(b), 1);
    BothChecked(a, b);
    BothRegistered(Step(Step(Initial(), Check(a, 0), 1), Check(b, 0), 1), a, b);
  }

  lemma BothChecked(a: Client, b: Client)
    requires a != b
    ensures var s := Step(Step(Initial(), Check(a, 0), 1), Check(b, 0), 1);
      s.pending == {a, b} && s.t.clients == {} && s.phases == map[]
  {}

  lemma BothRegistered(s: State, a: Client, b: Client)
    requires a != b && s.pending == {a, b} && s.t.clients == {} && s.phases == map[]
    ensures Step(Step(s, Register(a), 1), Register(b), 1).t.clients == {a, b}
  {}

  lemma RunFour(s: State, a: Act, b: Act, c: Act, d: Act, m: nat)
    ensures Run(s, [a, b, c, d], m) == Step(Step(Step(Step(s, a, m), b, m), c, m), d, m)
  {
    hide Step;
    assert [a, b, c, d][1..] == [b, c, d] && [b, c, d][1..] == [c, d] && [c, d][1..] == [d];
    var two := Step(Step(s, a, m), b, m);
    assert Run(two, [c, d], m) == Run(Step(two, c, m), [d], m) == Run(Step(Step(two, c, m), d, m), [], m);
  }

  // ---- One broadcast with nothing in between is Hub.Broadcast ----

  function Sends(who: Actor, order: seq<Client>, full: set<Client>): seq<Act> {
    seq(|order|, i requires 0 <= i < |order| => Act.Send(who, order[i], order[i] in full))
  }

  lemma {:induction false} SendsDeliverAll(s: State, who: Actor, order: seq<Client>, full: set<Client>, maxGlobal: nat)
    requires who in s.phases && s.phases[who].Sending? && s.phases[who].left == AsSet(order)
    requires forall i, j | 0 <= i < j < |order| :: order[i] != order[j]
    ensures var p := s.phases[who];
      Run(s, Sends(who, order, full), maxGlobal) ==
      s.(t := DeliveredAll(s.t, p.left - full, p.e), phases := s.phases[who := Sending(p.e, {}, p.dead + p.left * full)])
    decreases |order|
  {
    hide DeliveredAll, Delivered, AsSet;
    var p := s.phases[who];
    if order == [] {
      NoneNamed();
      NoneServed(s.t, p.e);
      assert p.left - full == {} && p.dead + p.left * full == p.dead;
      assert s.phases[who := p] == s.phases;
    } else {
      var c, rest := order[0], order[1..];
      AsSetFirst(order);
      var r := Step(s, Act.Send(who, c, c in full), maxGlobal);
      assert Sends(who, order, full)[1..] == Sends(who, rest, full);
      assert p.left - {c} == AsSet(rest);
      SendsDeliverAll(r, who, rest, full, maxGlobal);
      if c in full {
        assert p.left - {c} - full == p.left - full;
        assert p.dead + {c} + (p.left - {c}) * full == p.dead + p.left * full;
      } else {
        assert p.left - full == (p.left - {c} - full) + {c};
        assert (p.left - {c}) * full == p.left * full;
        FirstServed(s.t, p.left - {c} - full, c, p.e);
      }
    }
  }

  lemma AsSetFirst(order: seq<Client>)
    requires order != [] && forall i, j | 0 <= i < j < |order| :: order[i] != order[j]
    ensures AsSet(order) == {order[0]} + AsSet(order[1..]) && order[0] !in AsSet(order[1..])
  {}

  lemma FirstServed(t: Table, to: set<Client>, c: Client, e: Entry)
    requires c !in to
    ensures DeliveredAll(Delivered(t, c, e), to, e) == DeliveredAll(t, to + {c}, e)
  {
    assert (to + {c}) * t.closed == to * t.closed + (if c in t.closed then {c} else {});
    assert DeliveredAll(Delivered(t, c, e), to, e).sent == DeliveredAll(t, to + {c}, e).sent;
  }

  lemma {:induction false} RunConcat(s: State, a: seq<Act>, b: seq<Act>, maxGlobal: nat)
    ensures Run(s, a + b, maxGlobal) == Run(Run(s, a, maxGlobal), b, maxGlobal)
    decreases |a|
  {
    hide Step;
    if a == [] {
      assert a + b == b;
    } else {
      assert (a + b)[1..] == a[1..] + b;
      RunConcat(Step(s, a[0], maxGlobal), a[1..], b, maxGlobal);
    }
  }

  lemma RunOne(s: State, a: Act, maxGlobal: nat)
    ensures Run(s, [a], maxGlobal) == Step(s, a, maxGlobal)
  {
    hide Step;
    assert Run(Step(s, a, maxGlobal), [], maxGlobal) == Step(s, a, maxGlobal);
  }

  function BroadcastActs(id: nat, users: set<string>, msg: string, order: seq<Client>, full: set<Client>): seq<Act> {
    [CallUsers(id, users, msg)] + Sends(Caller(id), order, full) + [Unlock(Caller(id))] + [Act.Evict(Caller(id))]
  }

  /** The fine-grained steps of one call, uninterrupted, give what Hub.Broadcast is proved to give. */
  lemma UninterruptedIsBroadcast(
    s: State, id: nat, users: set<string>, msg: string, order: seq<Client>, full: set<Client>, maxGlobal: nat)
    requires Caller(id) !in s.phases && !Reading(s)
    requires AsSet(order) == Addressed(s.t.clients, ToUsers(users, msg))
    requires forall i, j | 0 <= i < j < |order| :: order[i] != order[j]
    ensures var to := Addressed(s.t.clients, ToUsers(users, msg));
      Run(s, BroadcastActs(id, users, msg, order, full), maxGlobal).t ==
      Evicted(DeliveredAll(s.t, to - full, ToUsers(users, msg)), to * full)
  {
    hide Run, DeliveredAll, AsSet, Addressed, Sends;
    var who, e := Caller(id), ToUsers(users, msg);
    var to := Addressed(s.t.clients, e);
    var s1 := Step(s, CallUsers(id, users, msg), maxGlobal);
    RunOne(s, CallUsers(id, users, msg), maxGlobal);
    RunConcat(s, [CallUsers(id, users, msg)], Sends(who, order, full), maxGlobal);
    SendsDeliverAll(s1, who, order, full, maxGlobal);
    var s2 := Run(s1, Sends(who, order, full), maxGlobal);
    RunConcat(s, [CallUsers(id, users, msg)] + Sends(who, order, full), [Unlock(who)], maxGlobal);
    RunOne(s2, Unlock(who), maxGlobal);
    var s3 := Step(s2, Unlock(who), maxGlobal);
    RunConcat(s, [CallUsers(id, users, msg)] + Sends(who, order, full) + [Unlock(who)], [Act.Evict(who)], maxGlobal);
    RunOne(s3, Act.Evict(who), maxGlobal);
    assert {} + to * full == to * full;
    NobodyReads(s, s3, who);
    if to * full == {} { EvictNobody(s3.t); }
  }

  lemma NobodyReads(s: State, r: State, who: Actor)
    requires !Reading(s)
    requires r.phases == s.phases - {who} || (who in r.phases && r.phases[who].Evicting? && r.phases - {who} == s.phases - {who})
    ensures !Reading(r)
  {
    forall a | a in r.phases ensures !r.phases[a].Sending? {
      if a != who { assert a in r.phases - {who} && (r.phases - {who})[a] == r.phases[a]; }
    }
  }

  lemma EvictNobody(t: Table)
    ensures Evicted(t, {}) == t
  {
    assert {} * t.clients == {} && t.clients - {} == t.clients && t.closed + {} == t.closed && {} * t.closed == {};
  }

  // ---- What the uncounted evictions cost ----

  lemma {:induction false} EvictionsStay(s: State, acts: seq<Act>, maxGlobal: nat, user: string)
    ensures Of(s.evicted, user) <= Of(Run(s, acts, maxGlobal).evicted, user)
    decreases |acts|
  {
    hide Enabled;
    if acts != [] {
      EvictionsStay(Step(s, acts[0], maxGlobal), acts[1..], maxGlobal, user);
    }
  }

  /** A user who was evicted as often as the plan allows connections is refused for ever after. */
  lemma LockedOut(s: State, acts: seq<Act>, maxGlobal: nat, user: string, limit: nat)
    requires Inv(s) && 0 < limit <= |Of(s.evicted, user)|
    ensures !Admits(Run(s, acts, maxGlobal).t, user, maxGlobal, limit)
  {
    var r := Run(s, acts, maxGlobal);
    EveryRunKeeps(s, acts, maxGlobal);
    EvictionsStay(s, acts, maxGlobal, user);
    SubsetCard(Of(s.evicted, user), Of(r.evicted, user));
    assert CountExact(r.t, r.evicted, user);
  }

  /** One full channel is enough: nobody is connected and the user is over a limit of one. */
  lemma OneFullChannel(c: Client)
    ensures var s := Run(Initial(), [Check(c, 1), Register(c), Take("m"), Begin] +
                                    [Act.Send(Loop, c, true), Unlock(Loop), Act.Evict(Loop), Take("n")], 0);
      s.t.clients == {} && !Admits(s.t, c.user, 0, 1)
  {
    var first := [Check(c, 1), Register(c), Take("m"), Begin];
    var last := [Act.Send(Loop, c, true), Unlock(Loop), Act.Evict(Loop), Take("n")];
    hide Run, Step;
    RunConcat(Initial(), first, last, 0);
    RunFour(Initial(), first[0], first[1], first[2], first[3], 0);
    BroadcastBegun(c);
    var s := Run(Initial(), first, 0);
    RunFour(s, last[0], last[1], last[2], last[3], 0);
    FullChannelFails(s, c);
    FailedIsEvicted(Step(Step(s, last[0], 0), last[1], 0), c);
  }

  /** One client, to which the event loop is about to send. */
  ghost predicate OneServed(s: State, c: Client) {
    && s.t.clients == {c} && s.t.conns == map[c.user := 1] && s.t.closed == {}
    && s.phases == map[Loop := Sending(ToAll("m"), {c}, {})]
  }

  lemma BroadcastBegun(c: Client)
    ensures OneServed(Step(Step(Step(Step(Initial(), Check(c, 1), 0), Register(c), 0), Take("m"), 0), Begin, 0), c)
  {
    assert Addressed({c}, ToAll("m")) == {c};
  }

  lemma FullChannelFails(s: State, c: Client)
    requires OneServed(s, c)
    ensures Step(Step(s, Act.Send(Loop, c, true), 0), Unlock(Loop), 0) == s.(phases := map[Loop := Evicting({c})])
  {
    assert {c} - {c} == {} && {} + {c} == {c};
    var s1 := Step(s, Act.Send(Loop, c, true), 0);
    assert s1.phases == map[Loop := Sending(ToAll("m"), {}, {c})];
  }

  lemma FailedIsEvicted(s: State, c: Client)
    requires s.t.clients == {c} && s.t.conns == map[c.user := 1] && s.phases == map[Loop := Evicting({c})]
    ensures var r := Step(Step(s, Act.Evict(Loop), 0), Take("n"), 0);
      r.t.clients == {} && !Admits(r.t, c.user, 0, 1)
  {}
}
