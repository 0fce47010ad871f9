/** The connection limit of the hub is overshot by k - 1 with k handlers at once, for every limit. */
module HubLimit {
  import opened Common
  import opened WsHub
  import opened HubRuns

  /** The i-th connection of a user. */
  function Nth(i: nat, user: string): Client { Client(i, user) }

  /** The connections numbered from .. from+n-1. */
  ghost function Block(from: nat, n: nat, user: string): set<Client> {
    if n == 0 then {} else Block(from, n - 1, user) + {Nth(from + n - 1, user)}
  }

  lemma {:induction false} BlockHas(from: nat, n: nat, user: string, c: Client)
    ensures c in Block(from, n, user) <==> c.user == user && from <= c.id < from + n
  {
    if n > 0 { BlockHas(from, n - 1, user, c); }
  }

  lemma {:induction false} BlockSize(from: nat, n: nat, user: string)
    ensures |Block(from, n, user)| == n && Of(Block(from, n, user), user) == Block(from, n, user)
  {
    if n > 0 {
      BlockSize(from, n - 1, user);
      BlockHas(from, n - 1, user, Nth(from + n - 1, user));
    }
    forall c | c in Block(from, n, user) ensures c.user == user { BlockHas(from, n, user, c); }
  }

  lemma BlockLast(from: nat, n: nat, user: string)
    ensures Block(from, n + 1, user) == Block(from, n, user) + {Nth(from + n, user)} && Nth(from + n, user) !in Block(from, n, user)
  {
    BlockHas(from, n, user, Nth(from + n, user));
  }

  lemma BlockFirst(from: nat, n: nat, user: string)
    requires n > 0
    ensures Block(from + 1, n - 1, user) == Block(from, n, user) - {Nth(from, user)} && Nth(from, user) in Block(from, n, user)
  {
    forall c: Client ensures c in Block(from + 1, n - 1, user) <==> c in Block(from, n, user) && c != Nth(from, user) {
      BlockHas(from + 1, n - 1, user, c);
      BlockHas(from, n, user, c);
    }
    BlockHas(from, n, user, Nth(from, user));
  }

  /** Nothing is being sent; the clients are the first n connections, and the next k have passed the check. */
  ghost predicate Stands(s: State, n: nat, k: nat, user: string) {
    && Inv(s) && s.phases == map[] && s.evicted == {}
    && s.t.clients == Block(0, n, user) && s.since.Keys == Block(0, n, user) && s.pending == Block(n, k, user)
  }

  lemma StandsCount(s: State, n: nat, k: nat, user: string)
    requires Stands(s, n, k, user)
    ensures |s.t.clients| == n && Count(s.t.conns, user) == n && |s.pending| == k && Of(s.pending, user) == s.pending
  {
    hide PhasesOk, StreamsOk, OnlyAddressed, Block;
    BlockSize(0, n, user);
    BlockSize(n, k, user);
    assert CountExact(s.t, s.evicted, user);
    assert Of({}, user) == {};
  }

  lemma OneCheck(s: State, n: nat, k: nat, user: string, plan: nat, maxGlobal: nat)
    requires Stands(s, n, k, user) && (maxGlobal == 0 || n < maxGlobal) && (plan == 0 || n < plan)
    ensures Stands(Step(s, Check(Nth(n + k, user), plan), maxGlobal), n, k + 1, user)
  {
    hide Inv, Block, Step, Possible, Admits;
    var c := Nth(n + k, user);
    StandsCount(s, n, k, user);
    BlockLast(n, k, user);
    BlockHas(0, n, user, c);
    CheckPasses(s, c, plan, maxGlobal);
    StepKeeps(s, Check(c, plan), maxGlobal);
  }

  lemma CheckPasses(s: State, c: Client, plan: nat, maxGlobal: nat)
    requires c !in s.pending && c !in s.since
    requires (maxGlobal == 0 || |s.t.clients| < maxGlobal) && (plan == 0 || Count(s.t.conns, c.user) < plan)
    ensures Step(s, Check(c, plan), maxGlobal) == s.(pending := s.pending + {c})
  {}

  lemma OneRegister(s: State, n: nat, k: nat, user: string, maxGlobal: nat)
    requires Stands(s, n, k, user) && k > 0
    ensures Stands(Step(s, Register(Nth(n, user)), maxGlobal), n + 1, k - 1, user)
  {
    hide Inv, Block;
    BlockFirst(n, k, user);
    BlockLast(0, n, user);
    StepKeeps(s, Register(Nth(n, user)), maxGlobal);
  }

  /** n connections one after the other. */
  function OneByOne(n: nat, user: string, plan: nat): seq<Act> {
    if n == 0 then [] else OneByOne(n - 1, user, plan) + ([Check(Nth(n - 1, user), plan)] + [Register(Nth(n - 1, user))])
  }

  function Checks(from: nat, k: nat, user: string, plan: nat): seq<Act>
    decreases k
  {
    if k == 0 then [] else [Check(Nth(from, user), plan)] + Checks(from + 1, k - 1, user, plan)
  }

  function Registers(from: nat, k: nat, user: string): seq<Act>
    decreases k
  {
    if k == 0 then [] else [Register(Nth(from, user))] + Registers(from + 1, k - 1, user)
  }

  /** limit - 1 connections one by one, then k handlers that all pass the check before any registers. */
  function Rush(limit: nat, k: nat, user: string, plan: nat): seq<Act>
    requires limit >= 1
  {
    OneByOne(limit - 1, user, plan) + (Checks(limit - 1, k, user, plan) + Registers(limit - 1, k, user))
  }

  lemma {:induction false} PendingConcat(s: State, a: seq<Act>, b: seq<Act>, m: nat, whose: Option<string>, k: nat)
    ensures AtMostPending(s, a + b, m, whose, k) <==> AtMostPending(s, a, m, whose, k) && AtMostPending(Run(s, a, m), b, m, whose, k)
    decreases |a|
  {
    hide Step;
    if a == [] {
      assert a + b == b;
    } else {
      assert (a + b)[1..] == a[1..] + b;
      PendingConcat(Step(s, a[0], m), a[1..], b, m, whose, k);
    }
  }

  /** The limit applies to everybody, or to this user. */
  predicate Fits(whose: Option<string>, user: string) { whose.None? || whose.value == user }

  lemma StandsPending(s: State, n: nat, k: nat, user: string, whose: Option<string>)
    requires Stands(s, n, k, user) && Fits(whose, user)
    ensures |Those(s.pending, whose)| == k && |Those(s.t.clients, whose)| == n
  {
    hide Inv, Block;
    StandsCount(s, n, k, user);
    BlockSize(0, n, user);
  }

  lemma {:induction false} ChecksStand(
    s: State, n: nat, j: nat, k: nat, user: string, plan: nat, m: nat, whose: Option<string>)
    requires Stands(s, n, j, user) && (m == 0 || n < m) && (plan == 0 || n < plan) && Fits(whose, user)
    ensures Stands(Run(s, Checks(n + j, k, user, plan), m), n, j + k, user)
    ensures AtMostPending(s, Checks(n + j, k, user, plan), m, whose, j + k)
    decreases k
  {
    hide Stands, Step, Those;
    StandsPending(s, n, j, user, whose);
    if k > 0 {
      var a := Check(Nth(n + j, user), plan);
      OneCheck(s, n, j, user, plan, m);
      assert Checks(n + j, k, user, plan)[1..] == Checks(n + (j + 1), k - 1, user, plan);
      ChecksStand(Step(s, a, m), n, j + 1, k - 1, user, plan, m, whose);
    }
  }

  lemma {:induction false} RegistersStand(s: State, n: nat, k: nat, user: string, m: nat, whose: Option<string>, most: nat)
    requires Stands(s, n, k, user) && Fits(whose, user) && k <= most
    ensures Stands(Run(s, Registers(n, k, user), m), n + k, 0, user)
    ensures AtMostPending(s, Registers(n, k, user), m, whose, most)
    decreases k
  {
    hide Stands, Step, Those;
    StandsPending(s, n, k, user, whose);
    if k > 0 {
      OneRegister(s, n, k, user, m);
      assert Registers(n, k, user)[1..] == Registers(n + 1, k - 1, user);
      RegistersStand(Step(s, Register(Nth(n, user)), m), n + 1, k - 1, user, m, whose, most);
    }
  }

  lemma {:induction false} OneByOneStands(n: nat, user: string, plan: nat, m: nat, whose: Option<string>, most: nat)
    requires (m == 0 || n < m) && (plan == 0 || n < plan) && Fits(whose, user) && most >= 1
    ensures Stands(Run(Initial(), OneByOne(n, user, plan), m), n, 0, user)
    ensures AtMostPending(Initial(), OneByOne(n, user, plan), m, whose, most)
  {
    hide Stands, Step, Those;
    if n == 0 {
      InitialStands(user);
      StandsPending(Initial(), 0, 0, user, whose);
    } else {
      OneByOneStands(n - 1, user, plan, m, whose, most);
      var s := Run(Initial(), OneByOne(n - 1, user, plan), m);
      var both := [Check(Nth(n - 1, user), plan)] + [Register(Nth(n - 1, user))];
      CheckThenRegister(s, n - 1, user, plan, m, whose, most);
      RunConcat(Initial(), OneByOne(n - 1, user, plan), both, m);
      PendingConcat(Initial(), OneByOne(n - 1, user, plan), both, m, whose, most);
    }
  }

  lemma InitialStands(user: string)
    ensures Stands(Initial(), 0, 0, user)
  {
    hide Inv;
    InitialOk();
  }

  lemma CheckThenRegister(s: State, n: nat, user: string, plan: nat, m: nat, whose: Option<string>, most: nat)
    requires Stands(s, n, 0, user) && (m == 0 || n < m) && (plan == 0 || n < plan) && Fits(whose, user) && most >= 1
    ensures var both := [Check(Nth(n, user), plan)] + [Register(Nth(n, user))];
      Stands(Run(s, both, m), n + 1, 0, user) && AtMostPending(s, both, m, whose, most)
  {
    hide Stands, Step, Those;
    var a, b := Check(Nth(n, user), plan), Register(Nth(n, user));
    OneCheck(s, n, 0, user, plan, m);
    var s1 := Step(s, a, m);
    OneRegister(s1, n, 1, user, m);
    var s2 := Step(s1, b, m);
    StandsPending(s, n, 0, user, whose);
    StandsPending(s1, n, 1, user, whose);
    StandsPending(s2, n + 1, 0, user, whose);
    assert [a, b][1..] == [b] && [b][1..] == [];
    assert Run(s1, [b], m) == Run(s2, [], m) == s2;
    assert AtMostPending(s2, [], m, whose, most) && AtMostPending(s1, [b], m, whose, most);
    assert [a] + [b] == [a, b];
  }

  /** For every limit and every k the schedule keeps at most k handlers pending and ends with limit + k - 1 connections. */
  lemma RushOvershoots(limit: nat, k: nat, user: string, plan: nat, m: nat, whose: Option<string>)
    requires limit >= 1 && k >= 1 && (m == 0 || limit <= m) && (plan == 0 || limit <= plan) && Fits(whose, user)
    ensures AtMostPending(Initial(), Rush(limit, k, user, plan), m, whose, k)
    ensures |Those(Run(Initial(), Rush(limit, k, user, plan), m).t.clients, whose)| == limit + k - 1
  {
    hide Stands, Run, AtMostPending, Those;
    var n := limit - 1;
    var first, checks, registers := OneByOne(n, user, plan), Checks(n, k, user, plan), Registers(n, k, user);
    OneByOneStands(n, user, plan, m, whose, k);
    var s := Run(Initial(), first, m);
    ChecksStand(s, n, 0, k, user, plan, m, whose);
    var s1 := Run(s, checks, m);
    RegistersStand(s1, n, k, user, m, whose, k);
    RunConcat(s, checks, registers, m);
    RunConcat(Initial(), first, checks + registers, m);
    PendingConcat(s, checks, registers, m, whose, k);
    PendingConcat(Initial(), first, checks + registers, m, whose, k);
    StandsPending(Run(s1, registers, m), n + k, 0, user, whose);
  }

  /** In every run with at most k of these handlers pending at once the limit is kept. */
  ghost predicate LimitKept(maxGlobal: nat, whose: Option<string>, limit: nat, k: nat) {
    forall acts | LimitIs(acts, maxGlobal, whose, limit) && AtMostPending(Initial(), acts, maxGlobal, whose, k) ::
      |Those(Run(Initial(), acts, maxGlobal).t.clients, whose)| <= limit
  }

  lemma {:induction false} MorePending(s: State, acts: seq<Act>, m: nat, whose: Option<string>, j: nat, k: nat)
    requires AtMostPending(s, acts, m, whose, j) && j <= k
    ensures AtMostPending(s, acts, m, whose, k)
    decreases |acts|
  {
    if acts != [] { MorePending(Step(s, acts[0], m), acts[1..], m, whose, j, k); }
  }

  /**
   * The limit holds in all runs with at most k handlers between check and registration if and only
   * if k is at most one: for all connections, and for one user's under a fixed plan limit.
   */
  lemma LimitKeptIff(whose: Option<string>, limit: nat, k: nat)
    requires limit >= 1
    ensures LimitKept(if whose.None? then limit else 0, whose, limit, k) <==> k <= 1
  {
    hide Those, Run, AtMostPending, LimitIs;
    var m := if whose.None? then limit else 0;
    if k <= 1 {
      forall acts | LimitIs(acts, m, whose, limit) && AtMostPending(Initial(), acts, m, whose, k)
        ensures |Those(Run(Initial(), acts, m).t.clients, whose)| <= limit
      {
        MorePending(Initial(), acts, m, whose, k, 1);
        LimitFromStart(acts, m, whose, limit, 1);
      }
    } else {
      var user, plan := if whose.None? then "" else whose.value, if whose.None? then 0 else limit;
      RushOvershoots(limit, k, user, plan, m, whose);
      RushLimit(limit, k, user, plan, m, whose);
    }
  }

  lemma {:induction false} PlanOnly(acts: seq<Act>, plan: nat)
    ensures AllPlan(acts, plan) ==> forall a | a in acts && a.Check? :: a.maxForUser == plan
  {}

  predicate AllPlan(acts: seq<Act>, plan: nat) { forall i | 0 <= i < |acts| && acts[i].Check? :: acts[i].maxForUser == plan }

  lemma {:induction false} OneByOnePlan(n: nat, user: string, plan: nat)
    ensures AllPlan(OneByOne(n, user, plan), plan)
  {
    if n > 0 { OneByOnePlan(n - 1, user, plan); }
  }

  lemma {:induction false} ChecksPlan(from: nat, k: nat, user: string, plan: nat)
    ensures AllPlan(Checks(from, k, user, plan), plan) && AllPlan(Registers(from, k, user), plan)
    decreases k
  {
    if k > 0 { ChecksPlan(from + 1, k - 1, user, plan); }
  }

  lemma RushLimit(limit: nat, k: nat, user: string, plan: nat, m: nat, whose: Option<string>)
    requires limit >= 1 && Fits(whose, user)
    requires if whose.None? then m == limit else plan == limit
    ensures LimitIs(Rush(limit, k, user, plan), m, whose, limit)
  {
    OneByOnePlan(limit - 1, user, plan);
    ChecksPlan(limit - 1, k, user, plan);
    PlanOnly(Rush(limit, k, user, plan), plan);
  }
}
