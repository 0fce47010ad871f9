/**
 * Every interleaving of introspection calls and invalidations: the lock is free while a call waits
 * for the server, so a call is two steps.
 */
module CacheRuns {
  import opened Common
  import opened IntrospectionCache

  /** What happened, in order: the server's answers, by the call that asked, and the invalidations. */
  datatype Record = Answered(token: string, at: int, answer: Answer, call: nat) | Invalidated(token: string)

  /** pending: the calls that missed the cache and wait for the server; started: all calls so far. */
  datatype State = State(c: Cache, pending: map<nat, string>, started: set<nat>, log: seq<Record>, clock: int)

  datatype Act = Start(call: nat, token: string, now: int) | Finish(call: nat, now: int, answer: Answer) | Drop(token: string)

  function Initial(now: int): State { State(map[], map[], {}, [], now) }

  predicate Enabled(s: State, a: Act) {
    match a
    case Start(call, token, now) => call !in s.started && token != "" && s.clock <= now
    case Finish(call, now, _) => call in s.pending && s.clock <= now
    case Drop(token) => token != ""
  }

  /** The answer a starting call gets from the cache. */
  function Hit(s: State, token: string, now: int): Option<Answer> { Lookup(s.c, token, now) }

  function Effect(s: State, a: Act): State
    requires Enabled(s, a)
  {
    match a
    case Start(call, token, now) =>
      s.(pending := if Hit(s, token, now).Some? then s.pending else s.pending[call := token],
         started := s.started + {call}, clock := now)
    case Finish(call, now, answer) =>
      var token := s.pending[call];
      State(Kept(s.c, token, answer, now, true), s.pending - {call}, s.started, s.log + [Answered(token, now, answer, call)], now)
    case Drop(token) => s.(c := s.c - {token}, log := s.log + [Invalidated(token)])
  }

  function Next(s: State, a: Act): State { if Enabled(s, a) then Effect(s, a) else s }

  function Run(s: State, acts: seq<Act>): State
    decreases |acts|
  {
    if acts == [] then s else Run(Next(s, acts[0]), acts[1..])
  }

  /** The record whose answer stands for the token: the last that was kept, unless it was invalidated. */
  function Standing(log: seq<Record>, token: string): (r: Option<Record>)
    ensures r.Some? ==> r.value.Answered? && r.value.token == token && 0 < Ttl(r.value.answer, r.value.at)
  {
    if log == [] then None
    else
      var last := log[|log| - 1];
      if last.token != token then Standing(log[..|log| - 1], token)
      else if last.Invalidated? then None
      else if 0 < Ttl(last.answer, last.at) then Some(last)
      else Standing(log[..|log| - 1], token)
  }

  lemma StandingAppend(log: seq<Record>, r: Record, token: string)
    ensures Standing(log + [r], token) ==
      if r.token != token then Standing(log, token)
      else if r.Invalidated? then None
      else if 0 < Ttl(r.answer, r.at) then Some(r)
      else Standing(log, token)
  {
    hide Ttl;
    assert (log + [r])[..|log|] == log;
  }

  /** What a lookup answers, from the record that stands. */
  function Served(log: seq<Record>, token: string, now: int): Option<Answer> {
    match Standing(log, token)
    case None => None
    case Some(r) => if now <= r.at + Ttl(r.answer, r.at) then Some(r.answer) else None
  }

  ghost predicate ServesOn(c: Cache, log: seq<Record>, token: string, now: int) {
    Lookup(c, token, now) == Served(log, token, now)
  }

  /** From now on the cache answers what the log says. */
  ghost predicate Serves(c: Cache, log: seq<Record>, clock: int) {
    forall token, now | clock <= now :: ServesOn(c, log, token, now)
  }

  ghost predicate Inv(s: State) { Serves(s.c, s.log, s.clock) && s.pending.Keys <= s.started }

  lemma KeptServes(s: State, token: string, a: Answer, now: int, call: nat)
    requires Serves(s.c, s.log, s.clock) && s.clock <= now
    ensures Serves(Kept(s.c, token, a, now, true), s.log + [Answered(token, now, a, call)], now)
  {
    hide Standing, Ttl;
    var f := Answered(token, now, a, call);
    forall t, later | now <= later ensures ServesOn(Kept(s.c, token, a, now, true), s.log + [f], t, later) {
      assert ServesOn(s.c, s.log, t, later);
      StandingAppend(s.log, f, t);
    }
  }

  lemma InvalidatedServes(s: State, token: string)
    requires Serves(s.c, s.log, s.clock)
    ensures Serves(s.c - {token}, s.log + [Invalidated(token)], s.clock)
  {
    hide Standing, Ttl;
    forall t, later | s.clock <= later ensures ServesOn(s.c - {token}, s.log + [Invalidated(token)], t, later) {
      assert ServesOn(s.c, s.log, t, later);
      StandingAppend(s.log, Invalidated(token), t);
    }
  }

  lemma EffectKeeps(s: State, a: Act)
    requires Inv(s) && Enabled(s, a)
    ensures Inv(Effect(s, a)) && s.clock <= Effect(s, a).clock
  {
    hide Standing, Ttl, Kept, Served;
    match a
    case Start(call, token, now) =>
      forall t, later | now <= later ensures ServesOn(s.c, s.log, t, later) {}
    case Finish(call, now, answer) => KeptServes(s, s.pending[call], answer, now, call);
    case Drop(token) => InvalidatedServes(s, token);
  }

  /** In every interleaving the cache answers what the log of the server's answers and the invalidations says. */
  lemma {:induction false} EveryRunServes(s: State, acts: seq<Act>)
    requires Inv(s)
    ensures Inv(Run(s, acts))
    decreases |acts|
  {
    hide Inv, Enabled, Effect;
    if acts != [] {
      if Enabled(s, acts[0]) { EffectKeeps(s, acts[0]); }
      EveryRunServes(Next(s, acts[0]), acts[1..]);
    }
  }

  lemma InitialServes(now: int)
    ensures Inv(Initial(now))
  {
    forall t, later ensures ServesOn(map[], [], t, later) {}
  }

  // ---- Where a cached answer comes from ----

  /** The server gave this answer for this token, not long ago, and nothing kept or invalidated it since. */
  ghost predicate Backed(log: seq<Record>, token: string, now: int, a: Answer, i: nat) {
    && i < |log|
    && log[i].Answered? && log[i].token == token && log[i].answer == a
    && now - log[i].at <= (if a.Failed? then NEGATIVE_TTL else MAX_POSITIVE_TTL)
    && (a.Claims? && a.exp > 0 ==> now <= a.exp * SECOND - EXP_LEEWAY)
    && forall j | i < j < |log| && log[j].token == token :: log[j].Answered? && Ttl(log[j].answer, log[j].at) <= 0
  }

  lemma {:induction false} ServedIsBacked(log: seq<Record>, token: string, now: int)
    requires Served(log, token, now).Some?
    ensures exists i: nat :: Backed(log, token, now, Served(log, token, now).value, i)
  {
    var last := |log| - 1;
    if Standing(log, token) == Some(log[last]) {
      assert Backed(log, token, now, log[last].answer, last);
    } else {
      ServedIsBacked(log[..last], token, now);
      var i: nat :| Backed(log[..last], token, now, Served(log, token, now).value, i);
      assert Backed(log, token, now, Served(log, token, now).value, i);
    }
  }

  /**
   * In every interleaving, what a call is served from the cache is an answer the server gave for
   * that token at most five minutes ago (ten seconds for a failure), not served after exp - 30s.
   */
  lemma HitIsBacked(start: int, acts: seq<Act>, token: string, now: int)
    requires Run(Initial(start), acts).clock <= now && Hit(Run(Initial(start), acts), token, now).Some?
    ensures var s := Run(Initial(start), acts);
      exists i: nat :: Backed(s.log, token, now, Hit(s, token, now).value, i)
  {
    hide Run;
    InitialServes(start);
    EveryRunServes(Initial(start), acts);
    var s := Run(Initial(start), acts);
    assert ServesOn(s.c, s.log, token, now);
    ServedIsBacked(s.log, token, now);
  }

  /** In every interleaving the answer that stands is served for exactly as long as it may be. */
  lemma StandingIsServedIff(start: int, acts: seq<Act>, token: string, now: int)
    requires var s := Run(Initial(start), acts);
      s.clock <= now && Standing(s.log, token).Some? && Standing(s.log, token).value.at <= now
    ensures var s := Run(Initial(start), acts);
      var r := Standing(s.log, token).value;
      Hit(s, token, now) == if MayServe(r.answer, r.at, now) then Some(r.answer) else None
  {
    hide Run, Standing, Ttl, MayServe;
    InitialServes(start);
    EveryRunServes(Initial(start), acts);
    var s := Run(Initial(start), acts);
    assert ServesOn(s.c, s.log, token, now);
    MayServeIff(Standing(s.log, token).value.answer, Standing(s.log, token).value.at, now);
  }

  // ---- When an invalidation works ----

  ghost function PendingFor(s: State, token: string): set<nat> { set call | call in s.pending && s.pending[call] == token }

  /** No call could now, or later without further answers, be served what one of the `prior` calls brought. */
  ghost predicate NothingOld(s: State, token: string, prior: set<nat>) {
    forall now | s.clock <= now && Hit(s, token, now).Some? ::
      Standing(s.log, token).Some? && Standing(s.log, token).value.call !in prior
  }

  /** The invalidation holds throughout the run: at no point is an answer of a prior call served. */
  ghost predicate Holds(s: State, token: string, prior: set<nat>, acts: seq<Act>)
    decreases |acts|
  {
    NothingOld(s, token, prior) && (acts == [] || Holds(Next(s, acts[0]), token, prior, acts[1..]))
  }

  /** A prior call stores an answer that may be kept. */
  predicate LateStore(s: State, prior: set<nat>, a: Act) { a.Finish? && a.call in prior && Enabled(s, a) && 0 < Ttl(a.answer, a.now) }

  ghost predicate NoLateStore(s: State, prior: set<nat>, acts: seq<Act>)
    decreases |acts|
  {
    acts == [] || (!LateStore(s, prior, acts[0]) && NoLateStore(Next(s, acts[0]), prior, acts[1..]))
  }

  /** The prior calls are for this token, and none of their answers stands. */
  ghost predicate Cleared(s: State, token: string, prior: set<nat>) {
    && prior <= s.started
    && (forall call | call in prior && call in s.pending :: s.pending[call] == token)
    && (Standing(s.log, token).Some? ==> Standing(s.log, token).value.call !in prior)
  }

  lemma ClearedMeansNothingOld(s: State, token: string, prior: set<nat>)
    requires Inv(s) && Cleared(s, token, prior)
    ensures NothingOld(s, token, prior)
  {
    hide Standing, Ttl;
    forall now | s.clock <= now && Hit(s, token, now).Some? ensures Standing(s.log, token).Some? {
      assert ServesOn(s.c, s.log, token, now);
    }
  }

  lemma ClearedStep(s: State, token: string, prior: set<nat>, a: Act)
    requires Inv(s) && Cleared(s, token, prior) && Enabled(s, a)
    ensures !LateStore(s, prior, a) ==> Cleared(Effect(s, a), token, prior)
    ensures LateStore(s, prior, a) ==> !NothingOld(Effect(s, a), token, prior)
  {
    hide Standing, Ttl, Lookup, Kept, Served, Serves;
    match a
    case Start(_, _, _) =>
    case Finish(call, now, answer) =>
      var f := Answered(s.pending[call], now, answer, call);
      StandingAppend(s.log, f, token);
      if LateStore(s, prior, a) {
        EffectKeeps(s, a);
        ServedNow(Effect(s, a), token, f);
      }
    case Drop(t) => StandingAppend(s.log, Invalidated(t), token);
  }

  /** An answer just kept is served at once. */
  lemma ServedNow(s: State, token: string, f: Record)
    requires Inv(s) && Standing(s.log, token) == Some(f) && f.at == s.clock
    ensures Hit(s, token, s.clock) == Some(f.answer)
  {
    hide Standing, Ttl;
    assert ServesOn(s.c, s.log, token, s.clock);
  }

  lemma {:induction false} HoldsIff(s: State, token: string, prior: set<nat>, acts: seq<Act>)
    requires Inv(s) && Cleared(s, token, prior)
    ensures Holds(s, token, prior, acts) <==> NoLateStore(s, prior, acts)
    decreases |acts|
  {
    hide Inv, Cleared, NothingOld, Effect, Enabled;
    ClearedMeansNothingOld(s, token, prior);
    if acts != [] {
      var a, next := acts[0], Next(s, acts[0]);
      if Enabled(s, a) {
        ClearedStep(s, token, prior, a);
        EffectKeeps(s, a);
      }
      if LateStore(s, prior, a) {
        NotHolding(next, token, prior, acts[1..]);
      } else {
        HoldsIff(next, token, prior, acts[1..]);
      }
    }
  }

  lemma NotHolding(s: State, token: string, prior: set<nat>, acts: seq<Act>)
    requires !NothingOld(s, token, prior)
    ensures !Holds(s, token, prior, acts)
  {}

  /**
   * After any run, an invalidation is effective in what follows (no call is ever served what a call
   * that started before it brought) exactly if no such call stores an answer that may be kept.
   */
  lemma InvalidateEffectiveIff(start: int, before: seq<Act>, token: string, after: seq<Act>)
    requires token != ""
    ensures var s := Run(Initial(start), before);
      var r := Next(s, Drop(token));
      Holds(r, token, PendingFor(s, token), after) <==> NoLateStore(r, PendingFor(s, token), after)
  {
    hide Run, Holds, NoLateStore, Standing;
    InitialServes(start);
    EveryRunServes(Initial(start), before);
    var s := Run(Initial(start), before);
    EffectKeeps(s, Drop(token));
    StandingAppend(s.log, Invalidated(token), token);
    HoldsIff(Next(s, Drop(token)), token, PendingFor(s, token), after);
  }

  /** The concrete interleaving: a call waits for the server, the token is invalidated, the call's answer is then served. */
  lemma OverlappingInvalidateIsLost(token: string, a: Answer, now: int)
    requires token != "" && 0 < Ttl(a, now)
    ensures var s := Run(Initial(now), [Start(1, token, now), Drop(token), Finish(1, now, a)]);
      Hit(s, token, now) == Some(a)
  {
    hide Ttl, Kept, Standing, Inv, Run;
    var x, y, z := Start(1, token, now), Drop(token), Finish(1, now, a);
    ThreeActs(Initial(now), x, y, z);
    InitialServes(now);
    EveryRunServes(Initial(now), [x, y, z]);
    var f := Answered(token, now, a, 1);
    StandingAppend([Invalidated(token)], f, token);
    assert [Invalidated(token)] + [f] == [] + [Invalidated(token)] + [f];
    ServedNow(Run(Initial(now), [x, y, z]), token, f);
  }

  lemma ThreeActs(s: State, x: Act, y: Act, z: Act)
    ensures Run(s, [x, y, z]) == Next(Next(Next(s, x), y), z)
  {
    hide Next;
    assert [x, y, z][1..] == [y, z] && [y, z][1..] == [z] && [z][1..] == [];
    var s2 := Next(Next(s, x), y);
    assert Run(s2, [z]) == Run(Next(s2, z), []);
  }

  /** A call with nothing in between is the atomic call of TokenCache. */
  lemma UninterruptedIsAsk(s: State, call: nat, token: string, now: int, a: Answer)
    requires call !in s.started && call !in s.pending && token != "" && s.clock <= now
    ensures Run(s, [Start(call, token, now), Finish(call, now, a)]).c == Step(s.c, Ask(token, now, a), true).0
  {
    hide Kept;
    var x, z := Start(call, token, now), Finish(call, now, a);
    assert [x, z][1..] == [z] && [z][1..] == [];
    var s1 := Next(s, x);
    assert Run(s1, [z]) == Run(Next(s1, z), []) == Next(s1, z);
  }
}
