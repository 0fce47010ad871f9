/** The circuit breaker and the retry loop of internal/control/core_client.go. Times are nanoseconds of a monotone clock. */
module Breaker {
  const MAX_RETRIES := 3
  const BASE_DELAY := 500_000_000
  const FAILURE_THRESHOLD := 5
  const RESET_TIMEOUT := 30_000_000_000

  /** What was recorded, by whichever caller. */
  datatype Event = Failure(at: int) | Success

  /** Failures since the last success. */
  function Trailing(hist: seq<Event>): nat {
    if hist == [] || hist[|hist| - 1].Success? then 0 else 1 + Trailing(hist[..|hist| - 1])
  }

  predicate LongAgo(hist: seq<Event>, now: int) {
    hist != [] && hist[|hist| - 1].Failure? && now - hist[|hist| - 1].at > RESET_TIMEOUT
  }

  /** Fewer than five failures since the last success, or more than 30s since the last of them. */
  predicate Allowed(hist: seq<Event>, now: int) { Trailing(hist) < FAILURE_THRESHOLD || LongAgo(hist, now) }

  lemma TrailingAppend(hist: seq<Event>, e: Event)
    ensures Trailing(hist + [e]) == if e.Success? then 0 else Trailing(hist) + 1
  {
    assert (hist + [e])[..|hist|] == hist;
  }

  /** Five recorded outcomes back, at least one success; or the last failure is more than 30 seconds ago. */
  lemma AllowedIff(hist: seq<Event>, now: int)
    ensures Allowed(hist, now) <==>
      || |hist| < 5
      || (exists j :: |hist| - 5 <= j < |hist| && hist[j].Success?)
      || (hist[|hist| - 1].Failure? && now - hist[|hist| - 1].at > 30_000_000_000)
  {
    TrailingIff(hist, 5);
  }

  lemma {:induction false} TrailingIff(hist: seq<Event>, n: nat)
    ensures Trailing(hist) >= n <==> |hist| >= n && forall j | |hist| - n <= j < |hist| :: hist[j].Failure?
    decreases n
  {
    if n > 0 && hist != [] && hist[|hist| - 1].Failure? {
      TrailingIff(hist[..|hist| - 1], n - 1);
    }
  }

  datatype State = Closed | Open | HalfOpen

  class CircuitBreaker {
    var state: State
    var failures: int
    var lastFailedAt: int
    ghost var hist: seq<Event>
    ghost var clock: int

    ghost predicate Valid()
      reads this
    {
      && failures == Trailing(hist)
      && (failures > 0 ==> hist[|hist| - 1] == Failure(lastFailedAt) && lastFailedAt <= clock)
      && (state == Closed <==> failures < FAILURE_THRESHOLD)
      && (state == HalfOpen ==> clock - lastFailedAt > RESET_TIMEOUT)
    }

    constructor (ghost now: int)
      ensures Valid() && hist == [] && clock == now
    {
      state, failures, lastFailedAt, hist, clock := Closed, 0, 0, [], now;
    }

    /** The three states answer what the history alone says. */
    method Allow(now: int) returns (ok: bool)
      requires Valid() && clock <= now
      modifies this`state, this`clock
      ensures Valid() && clock == now
      ensures ok <==> Allowed(hist, now)
    {
      clock := now;
      match state
      case Closed => return true;
      case Open =>
        if now - lastFailedAt > RESET_TIMEOUT {
          state := HalfOpen;
          return true;
        }
        return false;
      case HalfOpen => return true;
    }

    method RecordSuccess()
      requires Valid()
      modifies this
      ensures Valid() && clock == old(clock) && hist == old(hist) + [Success]
    {
      TrailingAppend(hist, Success);
      hist := hist + [Success];
      failures := 0;
      state := Closed;
    }

    method RecordFailure(now: int)
      requires Valid() && clock <= now
      modifies this
      ensures Valid() && clock == now && hist == old(hist) + [Failure(now)]
    {
      TrailingAppend(hist, Failure(now));
      hist, clock := hist + [Failure(now)], now;
      failures := failures + 1;
      lastFailedAt := now;
      if failures >= FAILURE_THRESHOLD {
        state := Open;
      }
    }
  }

  /** Once allowed, every caller is allowed until the next failure is recorded: a half-open breaker lets all probes through. */
  lemma StaysAllowed(hist: seq<Event>, now: int, later: int)
    requires Allowed(hist, now) && now <= later
    ensures Allowed(hist, later) && Allowed(hist + [Success], later)
  {
    TrailingAppend(hist, Success);
  }

  // ---- The retry loop ----

  datatype Answer = NoResponse | Status(code: int)

  predicate Failed(a: Answer) { a.NoResponse? || a.code >= 500 }

  /** One turn of the loop: when the breaker is asked, when the answer is recorded, and the answer. */
  datatype Round = Round(askedAt: int, answeredAt: int, answer: Answer)

  datatype Outcome = Response(code: int) | CircuitOpen | Unreachable

  /** time.Sleep(coreRetryBaseDelay * (attempt+1)) lasts at least that long. */
  ghost predicate Orderly(rounds: seq<Round>, from: int) {
    forall i {:trigger Ready(rounds, i, from)} | 0 <= i < |rounds| ::
      Ready(rounds, i, from) <= rounds[i].askedAt <= rounds[i].answeredAt
  }

  ghost function Ready(rounds: seq<Round>, i: nat, from: int): int
    requires i < |rounds|
  {
    if i == 0 then from else rounds[i - 1].answeredAt + BASE_DELAY * i
  }

  /** What the rounds from `i` on record. */
  function Recorded(hist: seq<Event>, rounds: seq<Round>): (seq<Event>, Outcome)
    decreases |rounds|
  {
    if rounds == [] then (hist, Unreachable)
    else if !Allowed(hist, rounds[0].askedAt) then (hist, CircuitOpen)
    else if Failed(rounds[0].answer) then Recorded(hist + [Failure(rounds[0].answeredAt)], rounds[1..])
    else (hist + [Success], Response(rounds[0].answer.code))
  }

  datatype Visit = Sent(askedAt: int, answeredAt: int) | Refused(at: int)

  /** The requests one call sends, and the refusal that ends it. */
  function Visits(hist: seq<Event>, rounds: seq<Round>): seq<Visit>
    decreases |rounds|
  {
    if rounds == [] then []
    else if !Allowed(hist, rounds[0].askedAt) then [Refused(rounds[0].askedAt)]
    else
      [Sent(rounds[0].askedAt, rounds[0].answeredAt)] +
      (if Failed(rounds[0].answer) then Visits(hist + [Failure(rounds[0].answeredAt)], rounds[1..]) else [])
  }

  function Requests(visits: seq<Visit>): nat {
    if visits == [] then 0 else (if visits[0].Sent? then 1 else 0) + Requests(visits[1..])
  }

  /** One call never sends more requests than it has rounds, whatever the answers. */
  lemma {:induction false} AtMostThree(hist: seq<Event>, rounds: seq<Round>)
    ensures Requests(Visits(hist, rounds)) <= |rounds|
    decreases |rounds|
  {
    if rounds != [] && Allowed(hist, rounds[0].askedAt) {
      var sent, rest := Sent(rounds[0].askedAt, rounds[0].answeredAt), Visits(hist + [Failure(rounds[0].answeredAt)], rounds[1..]);
      AtMostThree(hist + [Failure(rounds[0].answeredAt)], rounds[1..]);
      assert ([sent] + rest)[1..] == rest;
    }
  }

  /** `visits` are the requests the loop sends and the refusal it meets, in order: at most three requests. */
  method CoreDoWithRetry(cb: CircuitBreaker, rounds: seq<Round>) returns (r: Outcome, ghost visits: seq<Visit>)
    requires cb.Valid() && |rounds| == MAX_RETRIES && Orderly(rounds, cb.clock)
    modifies cb
    ensures cb.Valid() && (cb.hist, r) == Recorded(old(cb.hist), rounds)
    ensures visits == Visits(old(cb.hist), rounds) && Requests(visits) <= 3
    ensures cb.clock <= rounds[|rounds| - 1].answeredAt
  {
    hide Recorded, Visits, Allowed, Orderly, Failed, CircuitBreaker.Valid;
    var attempt := 0;
    visits := [];
    AtMostThree(cb.hist, rounds);
    Later(rounds, 0, cb.clock);
    assert rounds[0..] == rounds;
    while attempt < MAX_RETRIES
      invariant 0 <= attempt <= MAX_RETRIES && cb.Valid()
      invariant attempt < MAX_RETRIES ==> cb.clock <= rounds[attempt].askedAt
      invariant attempt > 0 ==> cb.clock <= rounds[MAX_RETRIES - 1].answeredAt
      invariant Recorded(cb.hist, rounds[attempt..]) == Recorded(old(cb.hist), rounds)
      invariant visits + Visits(cb.hist, rounds[attempt..]) == Visits(old(cb.hist), rounds)
    {
      Later(rounds, attempt, old(cb.clock));
      OneRound(cb.hist, rounds[attempt..]);
      assert rounds[attempt..][1..] == rounds[attempt + 1..];
      var allowed := cb.Allow(rounds[attempt].askedAt);
      if !allowed {
        visits := visits + [Refused(rounds[attempt].askedAt)];
        return CircuitOpen, visits;
      }
      visits := visits + [Sent(rounds[attempt].askedAt, rounds[attempt].answeredAt)];
      if Failed(rounds[attempt].answer) {
        cb.RecordFailure(rounds[attempt].answeredAt);
        attempt := attempt + 1;
        continue;
      }
      cb.RecordSuccess();
      return Response(rounds[attempt].answer.code), visits;
    }
    NoRounds(cb.hist, rounds[attempt..]);
    return Unreachable, visits;
  }

  lemma NoRounds(hist: seq<Event>, rounds: seq<Round>)
    requires rounds == []
    ensures Recorded(hist, rounds) == (hist, Unreachable) && Visits(hist, rounds) == []
  {}

  /** The first of the rounds, and what is left after it. */
  lemma OneRound(hist: seq<Event>, rounds: seq<Round>)
    requires rounds != []
    ensures var r, h := rounds[0], hist + [Failure(rounds[0].answeredAt)];
      var sent := Sent(r.askedAt, r.answeredAt);
      if !Allowed(hist, r.askedAt) then Recorded(hist, rounds) == (hist, CircuitOpen) && Visits(hist, rounds) == [Refused(r.askedAt)]
      else if Failed(r.answer) then
        Recorded(hist, rounds) == Recorded(h, rounds[1..]) &&
        forall v: seq<Visit> :: v + Visits(hist, rounds) == (v + [sent]) + Visits(h, rounds[1..])
      else
        r.answer.Status? && Recorded(hist, rounds) == (hist + [Success], Response(r.answer.code)) && Visits(hist, rounds) == [sent]
  {
    hide Allowed;
  }

  lemma {:induction false} Later(rounds: seq<Round>, i: nat, from: int)
    requires Orderly(rounds, from) && i < |rounds|
    ensures i == 0 ==> from <= rounds[0].askedAt
    ensures rounds[i].askedAt <= rounds[i].answeredAt <= rounds[|rounds| - 1].answeredAt
    ensures i + 1 < |rounds| ==> rounds[i].answeredAt <= rounds[i + 1].askedAt
    decreases |rounds| - i
  {
    assert Ready(rounds, i, from) <= rounds[i].askedAt;
    if i + 1 < |rounds| {
      assert Ready(rounds, i + 1, from) <= rounds[i + 1].askedAt;
      Later(rounds, i + 1, from);
    }
  }

  // ---- How a call ends ----

  /** The failures of the first n rounds. */
  function Failures(rounds: seq<Round>, n: nat): seq<Event>
    requires n <= |rounds|
  {
    seq(n, j requires 0 <= j < n => Failure(rounds[j].answeredAt))
  }

  function AllSent(rounds: seq<Round>, n: nat): seq<Visit>
    requires n <= |rounds|
  {
    seq(n, j requires 0 <= j < n => Sent(rounds[j].askedAt, rounds[j].answeredAt))
  }

  /** Round j fails: the breaker lets it through, and there is no response or a status of 500 and above. */
  ghost predicate FailsAt(hist: seq<Event>, rounds: seq<Round>, j: nat)
    requires j < |rounds|
  {
    Allowed(hist + Failures(rounds, j), rounds[j].askedAt) && (rounds[j].answer.NoResponse? || rounds[j].answer.code >= 500)
  }

  ghost predicate FailsFirst(hist: seq<Event>, rounds: seq<Round>, n: nat) {
    n <= |rounds| && forall j: nat | j < n :: FailsAt(hist, rounds, j)
  }

  /**
   * A call fails in its first n rounds, each of them one request and one recorded failure, and then
   * the rounds are used up, or the breaker refuses, or the answer has a status below 500.
   */
  lemma {:induction false} CallEnds(hist: seq<Event>, rounds: seq<Round>) returns (n: nat)
    ensures FailsFirst(hist, rounds, n)
    ensures var h, sent := hist + Failures(rounds, n), AllSent(rounds, n);
      if n == |rounds| then Recorded(hist, rounds) == (h, Unreachable) && Visits(hist, rounds) == sent
      else if !Allowed(h, rounds[n].askedAt) then
        Recorded(hist, rounds) == (h, CircuitOpen) && Visits(hist, rounds) == sent + [Refused(rounds[n].askedAt)]
      else
        && rounds[n].answer.Status? && rounds[n].answer.code < 500
        && Recorded(hist, rounds) == (h + [Success], Response(rounds[n].answer.code))
        && Visits(hist, rounds) == sent + [Sent(rounds[n].askedAt, rounds[n].answeredAt)]
    decreases |rounds|
  {
    hide Allowed, Recorded, Visits;
    NoneFailed(hist, rounds);
    n := 0;
    if rounds == [] {
      NoRounds(hist, rounds);
    } else {
      OneRound(hist, rounds);
      if Allowed(hist, rounds[0].askedAt) && Failed(rounds[0].answer) {
        var h, sent := hist + [Failure(rounds[0].answeredAt)], Sent(rounds[0].askedAt, rounds[0].answeredAt);
        var m := CallEnds(h, rounds[1..]);
        n := m + 1;
        OneMoreFailed(hist, rounds, m);
        assert Visits(hist, rounds) == [sent] + Visits(h, rounds[1..]) by {
          assert [] + Visits(hist, rounds) == ([] + [sent]) + Visits(h, rounds[1..]);
        }
      }
    }
  }

  lemma NoneFailed(hist: seq<Event>, rounds: seq<Round>)
    ensures hist + Failures(rounds, 0) == hist && AllSent(rounds, 0) == [] && forall v: Visit :: [] + [v] == [v]
  {}

  /** A failed round in front of the failed rounds of the rest. */
  lemma OneMoreFailed(hist: seq<Event>, rounds: seq<Round>, m: nat)
    requires rounds != [] && m < |rounds| && FailsFirst(hist + [Failure(rounds[0].answeredAt)], rounds[1..], m)
    requires Allowed(hist, rounds[0].askedAt) && Failed(rounds[0].answer)
    ensures FailsFirst(hist, rounds, m + 1)
    ensures hist + [Failure(rounds[0].answeredAt)] + Failures(rounds[1..], m) == hist + Failures(rounds, m + 1)
    ensures AllSent(rounds, m + 1) == [Sent(rounds[0].askedAt, rounds[0].answeredAt)] + AllSent(rounds[1..], m)
  {
    hide Allowed;
    var h := hist + [Failure(rounds[0].answeredAt)];
    forall j: nat | j <= m ensures h + Failures(rounds[1..], j) == hist + Failures(rounds, j + 1) {
      assert Failures(rounds, j + 1) == [Failure(rounds[0].answeredAt)] + Failures(rounds[1..], j);
    }
    NoneFailed(hist, rounds);
    forall j: nat | j <= m ensures FailsAt(hist, rounds, j) {
      if j > 0 { assert FailsAt(h, rounds[1..], j - 1); }
    }
  }

  ghost predicate RespondsAt(hist: seq<Event>, rounds: seq<Round>, n: nat, code: int) {
    && FailsFirst(hist, rounds, n) && n < |rounds|
    && Allowed(hist + Failures(rounds, n), rounds[n].askedAt) && rounds[n].answer == Status(code) && code < 500
  }

  /** The caller gets a response exactly if, after failed rounds only, a round that is let through is answered below 500. */
  lemma ResponseIff(hist: seq<Event>, rounds: seq<Round>, code: int)
    ensures Recorded(hist, rounds).1 == Response(code) <==> exists n: nat :: RespondsAt(hist, rounds, n, code)
  {
    hide Recorded, Visits, Allowed;
    var n := CallEnds(hist, rounds);
    if Recorded(hist, rounds).1 == Response(code) { assert RespondsAt(hist, rounds, n, code); }
    forall m: nat | RespondsAt(hist, rounds, m, code) ensures m == n {
      assert n < m ==> FailsAt(hist, rounds, n);
      assert m < n ==> FailsAt(hist, rounds, m);
    }
  }

  /** The three rounds of a call are half a second and a second apart, or more. */
  lemma Backoff(rounds: seq<Round>, from: int)
    requires Orderly(rounds, from) && |rounds| == 3
    ensures rounds[1].askedAt - rounds[0].answeredAt >= 500_000_000
    ensures rounds[2].askedAt - rounds[1].answeredAt >= 1_000_000_000
  {
    assert Ready(rounds, 1, from) <= rounds[1].askedAt && Ready(rounds, 2, from) <= rounds[2].askedAt;
  }

  // ---- A host that never answers ----

  /** All rounds fail, and every backoff ends within 30s of the failure. */
  ghost predicate AlwaysFails(rounds: seq<Round>) {
    && |rounds| == MAX_RETRIES
    && (forall r | r in rounds :: r.answer.NoResponse? || r.answer.code >= 500)
    && rounds[1].askedAt - rounds[0].answeredAt <= RESET_TIMEOUT
    && rounds[2].askedAt - rounds[1].answeredAt <= RESET_TIMEOUT
  }

  /** Calls one after the other. */
  function AllVisits(hist: seq<Event>, calls: seq<seq<Round>>): seq<Visit>
    decreases |calls|
  {
    if calls == [] then [] else Visits(hist, calls[0]) + AllVisits(Recorded(hist, calls[0]).0, calls[1..])
  }

  /** Every request is sent more than 30s after the previous one failed; `last` is when that was. */
  predicate Spaced(visits: seq<Visit>, last: int)
    decreases |visits|
  {
    visits == [] ||
    (match visits[0]
     case Refused(_) => Spaced(visits[1..], last)
     case Sent(asked, answered) => asked - last > RESET_TIMEOUT && Spaced(visits[1..], answered))
  }

  predicate EndsFailing(hist: seq<Event>, at: int) { hist != [] && hist[|hist| - 1] == Failure(at) }

  /** What three failing rounds amount to. */
  lemma ThreeRounds(hist: seq<Event>, rounds: seq<Round>)
    requires AlwaysFails(rounds)
    ensures var (r0, r1, r2) := (rounds[0], rounds[1], rounds[2]);
      var h1 := hist + [Failure(r0.answeredAt)];
      var h2 := h1 + [Failure(r1.answeredAt)];
      var s0, s1, s2 := Sent(r0.askedAt, r0.answeredAt), Sent(r1.askedAt, r1.answeredAt), Sent(r2.askedAt, r2.answeredAt);
      (Visits(hist, rounds), Recorded(hist, rounds).0) ==
      if !Allowed(hist, r0.askedAt) then ([Refused(r0.askedAt)], hist)
      else if !Allowed(h1, r1.askedAt) then ([s0, Refused(r1.askedAt)], h1)
      else if !Allowed(h2, r2.askedAt) then ([s0, s1, Refused(r2.askedAt)], h2)
      else ([s0, s1, s2], h2 + [Failure(r2.answeredAt)])
  {
    hide Allowed, Visits, Recorded;
    var h1 := hist + [Failure(rounds[0].answeredAt)];
    var h2 := h1 + [Failure(rounds[1].answeredAt)];
    assert rounds[0] in rounds && rounds[1] in rounds && rounds[2] in rounds;
    FailingRound(hist, rounds);
    var two, one := rounds[1..], rounds[2..];
    assert two[1..] == one && one[0] == rounds[2] && two[0] == rounds[1] && |one| == 1;
    FailingRound(h1, two);
    FailingRound(h2, one);
    var s0, s1 := Sent(rounds[0].askedAt, rounds[0].answeredAt), Sent(rounds[1].askedAt, rounds[1].answeredAt);
    Chain(s0, s1, Sent(rounds[2].askedAt, rounds[2].answeredAt));
    Chain(s0, s1, Refused(rounds[2].askedAt));
    Chain(s0, Refused(rounds[1].askedAt), s1);
  }

  lemma Chain(a: Visit, b: Visit, c: Visit)
    ensures [a] + ([b] + [c]) == [a, b, c] && [a] + [b] == [a, b]
  {}

  lemma FailingRound(hist: seq<Event>, rounds: seq<Round>)
    requires rounds != [] && Failed(rounds[0].answer)
    ensures var h := hist + [Failure(rounds[0].answeredAt)];
      (Visits(hist, rounds), Recorded(hist, rounds).0) ==
      if !Allowed(hist, rounds[0].askedAt) then ([Refused(rounds[0].askedAt)], hist)
      else if |rounds| == 1 then ([Sent(rounds[0].askedAt, rounds[0].answeredAt)], h)
      else ([Sent(rounds[0].askedAt, rounds[0].answeredAt)] + Visits(h, rounds[1..]), Recorded(h, rounds[1..]).0)
  {
    hide Allowed;
    var h := hist + [Failure(rounds[0].answeredAt)];
    if |rounds| == 1 {
      assert rounds[1..] == [];
      assert [Sent(rounds[0].askedAt, rounds[0].answeredAt)] + [] == [Sent(rounds[0].askedAt, rounds[0].answeredAt)];
      assert Visits(h, rounds[1..]) == [] && Recorded(h, rounds[1..]) == (h, Unreachable);
    }
  }

  /** From a success on, two failing calls send exactly five requests, and then the first refusal comes. */
  lemma FiveThenRefused(hist: seq<Event>, c: seq<Round>, d: seq<Round>)
    requires Trailing(hist) == 0 && AlwaysFails(c) && AlwaysFails(d)
    ensures AllVisits(hist, [c, d]) ==
      [Sent(c[0].askedAt, c[0].answeredAt), Sent(c[1].askedAt, c[1].answeredAt), Sent(c[2].askedAt, c[2].answeredAt),
       Sent(d[0].askedAt, d[0].answeredAt), Sent(d[1].askedAt, d[1].answeredAt), Refused(d[2].askedAt)]
    ensures var h := Recorded(Recorded(hist, c).0, d).0;
      Trailing(h) == FAILURE_THRESHOLD && EndsFailing(h, d[1].answeredAt)
  {
    hide Trailing, Visits, Recorded;
    ThreeRounds(hist, c);
    var h1 := hist + [Failure(c[0].answeredAt)];
    var h2 := h1 + [Failure(c[1].answeredAt)];
    var h3 := h2 + [Failure(c[2].answeredAt)];
    TrailingAppend(hist, Failure(c[0].answeredAt));
    TrailingAppend(h1, Failure(c[1].answeredAt));
    TrailingAppend(h2, Failure(c[2].answeredAt));
    ThreeRounds(h3, d);
    var h4 := h3 + [Failure(d[0].answeredAt)];
    TrailingAppend(h3, Failure(d[0].answeredAt));
    TrailingAppend(h4, Failure(d[1].answeredAt));
    assert [c, d][1..] == [d] && [d][1..] == [];
    assert AllVisits(Recorded(h3, d).0, []) == [];
    assert AllVisits(h3, [d]) == Visits(h3, d);
  }

  /** After the fifth failure a call sends at most one request. */
  lemma OneProbe(hist: seq<Event>, at: int, c: seq<Round>)
    requires Trailing(hist) >= FAILURE_THRESHOLD && EndsFailing(hist, at) && AlwaysFails(c)
    ensures var probed := c[0].askedAt - at > RESET_TIMEOUT;
      && Visits(hist, c) == (if probed then [Sent(c[0].askedAt, c[0].answeredAt), Refused(c[1].askedAt)] else [Refused(c[0].askedAt)])
      && var h := Recorded(hist, c).0;
        h == (if probed then hist + [Failure(c[0].answeredAt)] else hist) && Trailing(h) >= FAILURE_THRESHOLD
  {
    hide Trailing, Visits, Recorded;
    ThreeRounds(hist, c);
    TrailingAppend(hist, Failure(c[0].answeredAt));
  }

  /** From the fifth failure on, whoever calls how often: consecutive requests are more than 30s apart. */
  lemma {:induction false} ThenSpaced(hist: seq<Event>, at: int, calls: seq<seq<Round>>)
    requires Trailing(hist) >= FAILURE_THRESHOLD && EndsFailing(hist, at)
    requires forall c | c in calls :: AlwaysFails(c)
    ensures Spaced(AllVisits(hist, calls), at)
    decreases |calls|
  {
    hide Trailing, Visits, Recorded, AlwaysFails, Spaced;
    if calls == [] {
      NothingSpaced(at);
    } else {
      var c, rest := calls[0], calls[1..];
      assert c in calls;
      OneProbe(hist, at, c);
      FailsThrice(c);
      var h, later := Recorded(hist, c).0, AllVisits(Recorded(hist, c).0, rest);
      if c[0].askedAt - at > RESET_TIMEOUT {
        ThenSpaced(h, c[0].answeredAt, rest);
        ProbeSpaced(c[0].askedAt, c[0].answeredAt, c[1].askedAt, later, at);
      } else {
        ThenSpaced(h, at, rest);
        RefusalSpaced(c[0].askedAt, later, at);
      }
    }
  }

  lemma NothingSpaced(at: int)
    ensures Spaced([], at)
  {}

  lemma RefusalSpaced(now: int, later: seq<Visit>, at: int)
    ensures Spaced([Refused(now)] + later, at) <==> Spaced(later, at)
  {
    assert ([Refused(now)] + later)[1..] == later;
  }

  lemma ProbeSpaced(asked: int, answered: int, refused: int, later: seq<Visit>, at: int)
    requires asked - at > RESET_TIMEOUT
    ensures Spaced([Sent(asked, answered), Refused(refused)] + later, at) <==> Spaced(later, answered)
  {
    var both := [Sent(asked, answered), Refused(refused)] + later;
    assert both[1..] == [Refused(refused)] + later;
    RefusalSpaced(refused, later, answered);
  }

  lemma FailsThrice(c: seq<Round>)
    requires AlwaysFails(c)
    ensures |c| == 3
  {}

  /** The whole bound: five requests, the first refusal, and from then on more than 30s between requests. */
  lemma RequestBound(hist: seq<Event>, calls: seq<seq<Round>>)
    requires Trailing(hist) == 0 && |calls| >= 2 && forall c | c in calls :: AlwaysFails(c)
    ensures |AllVisits(hist, calls)| >= 6
    ensures forall i | 0 <= i < 5 :: AllVisits(hist, calls)[i].Sent?
    ensures AllVisits(hist, calls)[5].Refused?
    ensures Spaced(AllVisits(hist, calls)[6..], AllVisits(hist, calls)[4].answeredAt)
  {
    hide Trailing, Visits, Recorded, AlwaysFails;
    var c, d, rest := calls[0], calls[1], calls[2..];
    assert c in calls && d in calls;
    FiveThenRefused(hist, c, d);
    FailsThrice(c);
    FailsThrice(d);
    var h := Recorded(hist, c).0;
    ThenSpaced(Recorded(h, d).0, d[1].answeredAt, rest);
    assert calls[1..][1..] == rest;
    assert [c, d][1..] == [d] && [d][1..] == [];
    assert AllVisits(Recorded(h, d).0, []) == [];
    assert AllVisits(h, [d]) == Visits(h, d) + [];
    assert AllVisits(hist, calls) == AllVisits(hist, [c, d]) + AllVisits(Recorded(h, d).0, rest);
  }

  // ---- Sequential callers ----

  /** Each call is asked after the one before it has ended. */
  ghost predicate InTurn(calls: seq<seq<Round>>, from: int)
    decreases |calls|
  {
    calls == [] ||
    (|calls[0]| == MAX_RETRIES && Orderly(calls[0], from) && InTurn(calls[1..], calls[0][MAX_RETRIES - 1].answeredAt))
  }

  /** The bound on what callers of an always-failing host send, from a success on. */
  ghost predicate Bounded(visits: seq<Visit>) {
    && |visits| >= 6
    && (forall i | 0 <= i < 5 :: visits[i].Sent?)
    && visits[5].Refused?
    && Spaced(visits[6..], visits[4].answeredAt)
  }

  /**
   * Callers one after the other on one breaker: what they send is AllVisits, and for a host that
   * never answers that is five requests, a refusal, and then requests more than 30s apart.
   */
  method CallInTurn(cb: CircuitBreaker, calls: seq<seq<Round>>) returns (outcomes: seq<Outcome>, ghost visits: seq<Visit>)
    requires cb.Valid() && InTurn(calls, cb.clock)
    modifies cb
    ensures cb.Valid() && |outcomes| == |calls| && visits == AllVisits(old(cb.hist), calls)
    ensures Trailing(old(cb.hist)) == 0 && |calls| >= 2 && (forall c | c in calls :: AlwaysFails(c)) ==> Bounded(visits)
  {
    hide Visits, Recorded, Orderly, Trailing, AlwaysFails, Bounded;
    outcomes, visits := [], [];
    for i := 0 to |calls|
      invariant cb.Valid() && |outcomes| == i && InTurn(calls[i..], cb.clock)
      invariant visits + AllVisits(cb.hist, calls[i..]) == AllVisits(old(cb.hist), calls)
    {
      assert calls[i..][1..] == calls[i + 1..];
      var r, v := CoreDoWithRetry(cb, calls[i]);
      assert visits + (v + AllVisits(cb.hist, calls[i + 1..])) == (visits + v) + AllVisits(cb.hist, calls[i + 1..]);
      outcomes, visits := outcomes + [r], visits + v;
      EarlierStart(calls[i + 1..], calls[i][MAX_RETRIES - 1].answeredAt, cb.clock);
    }
    assert calls[|calls|..] == [];
    assert AllVisits(cb.hist, []) == [];
    if Trailing(old(cb.hist)) == 0 && |calls| >= 2 && forall c | c in calls :: AlwaysFails(c) {
      BoundedByRequests(old(cb.hist), calls);
    }
  }

  lemma EarlierStart(calls: seq<seq<Round>>, from: int, earlier: int)
    requires InTurn(calls, from) && earlier <= from
    ensures InTurn(calls, earlier)
  {
    if calls != [] {
      forall i | 0 <= i < |calls[0]| ensures Ready(calls[0], i, earlier) <= calls[0][i].askedAt <= calls[0][i].answeredAt {
        assert Ready(calls[0], i, from) <= calls[0][i].askedAt;
      }
    }
  }

  lemma BoundedByRequests(hist: seq<Event>, calls: seq<seq<Round>>)
    requires Trailing(hist) == 0 && |calls| >= 2 && forall c | c in calls :: AlwaysFails(c)
    ensures Bounded(AllVisits(hist, calls))
  {
    hide Trailing, AlwaysFails, AllVisits, Spaced;
    RequestBound(hist, calls);
  }
}
