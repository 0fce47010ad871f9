/**
 * The three keyed token-bucket tables (internal/api/refresh_ratelimit.go, internal/api/ratelimit.go,
 * internal/control/user_ratelimit.go): one bucket per key, deleted when the key has been idle.
 * Times are seconds of a monotone clock, token counts and rates are reals.
 */
module RateLimit {

  /** rate: tokens per second; window: how long an entry may be idle. */
  datatype Policy = Policy(rate: real, burst: nat, window: real)

  ghost predicate Sound(p: Policy) { 0.0 <= p.rate && 0.0 <= p.window }

  /** A rate.Limiter: `tokens` as of the last admitted request. */
  datatype Bucket = Bucket(tokens: real, last: real)

  datatype Entry = Entry(bucket: Bucket, lastSeen: real)

  type Table = map<string, Entry>

  function Full(p: Policy, now: real): Bucket { Bucket(p.burst as real, now) }

  /** The tokens that flow in during a time. */
  function Flow(p: Policy, time: real): real { p.rate * time }

  /** The tokens in the bucket now: refilled at the rate, never above the burst. */
  function Level(p: Policy, b: Bucket, now: real): real {
    var refilled := b.tokens + Flow(p, now - b.last);
    if refilled < p.burst as real then refilled else p.burst as real
  }

  /** Limiter.Allow: takes one token, or leaves the bucket as it is. */
  function Take(p: Policy, b: Bucket, now: real): (Bucket, bool) {
    if Level(p, b, now) >= 1.0 then (Bucket(Level(p, b, now) - 1.0, now), true) else (b, false)
  }

  function BucketOf(p: Policy, t: Table, key: string, now: real): Bucket {
    if key in t then t[key].bucket else Full(p, now)
  }

  function Asked(p: Policy, t: Table, key: string, now: real): (Table, bool) {
    var (b, ok) := Take(p, BucketOf(p, t, key, now), now);
    (t[key := Entry(b, now)], ok)
  }

  function Swept(p: Policy, t: Table, now: real): Table {
    map k | k in t && !(now - t[k].lastSeen > p.window) :: t[k]
  }

  class Limiter {
    const policy: Policy
    var entries: Table

    constructor (p: Policy)
      ensures policy == p && entries == map[]
    {
      policy, entries := p, map[];
    }

    method Allow(key: string, now: real) returns (ok: bool)
      modifies this
      ensures (entries, ok) == Asked(policy, old(entries), key, now)
    {
      if key !in entries {
        var (b, granted) := Take(policy, Full(policy, now), now);
        entries := entries[key := Entry(b, now)];
        return granted;
      }
      var (b, granted) := Take(policy, entries[key].bucket, now);
      entries := entries[key := Entry(b, now)];
      return granted;
    }

    /** The loop that deletes idle entries while ranging over the map. */
    method Cleanup(now: real)
      modifies this
      ensures entries == Swept(policy, old(entries), now)
    {
      var left := entries.Keys;
      while left != {}
        invariant left <= old(entries).Keys
        invariant entries == map k |
          k in old(entries) && (k in left || !(now - old(entries)[k].lastSeen > policy.window)) :: old(entries)[k]
        decreases |left|
      {
        var k :| k in left;
        left := left - {k};
        if now - entries[k].lastSeen > policy.window {
          entries := entries - {k};
        }
      }
    }
  }

  // ---- Schedules ----

  datatype Event = Request(key: string, at: real) | Sweep(at: real)

  function Step(p: Policy, t: Table, e: Event, evicting: bool): (Table, bool) {
    match e
    case Request(key, at) => Asked(p, t, key, at)
    case Sweep(at) => (if evicting then Swept(p, t, at) else t, true)
  }

  /** One answer per event; `evicting` false is the table that never evicts. */
  function Answers(p: Policy, t: Table, events: seq<Event>, evicting: bool): (r: seq<bool>)
    ensures |r| == |events|
    decreases |events|
  {
    if events == [] then []
    else
      var (next, ok) := Step(p, t, events[0], evicting);
      [ok] + Answers(p, next, events[1..], evicting)
  }

  function Run(p: Policy, t: Table, events: seq<Event>, evicting: bool): Table
    decreases |events|
  {
    if events == [] then t else Run(p, Step(p, t, events[0], evicting).0, events[1..], evicting)
  }

  /** Times do not go backwards and stay within from..to. */
  predicate Ordered(events: seq<Event>, from: real, to: real)
    decreases |events|
  {
    if events == [] then from <= to else from <= events[0].at && Ordered(events[1..], events[0].at, to)
  }

  // ---- Eviction is invisible ----

  lemma FlowSum(p: Policy, s: real, t: real)
    ensures Flow(p, s + t) == Flow(p, s) + Flow(p, t)
  {}

  lemma FlowPositive(p: Policy, t: real)
    requires Sound(p) && 0.0 <= t
    ensures 0.0 <= Flow(p, t) && Flow(p, 0.0) == 0.0
  {}

  lemma LevelGrows(p: Policy, b: Bucket, now: real, later: real)
    requires Sound(p) && now <= later
    ensures Level(p, b, now) <= Level(p, b, later) <= Level(p, b, now) + Flow(p, later - now)
  {
    hide Flow;
    FlowSum(p, now - b.last, later - now);
    assert (now - b.last) + (later - now) == later - b.last;
    FlowPositive(p, later - now);
  }

  ghost predicate EntryOk(e: Entry, now: real) { 0.0 <= e.bucket.tokens && e.bucket.last <= e.lastSeen <= now }

  /** `a` lacks only entries of `b` whose bucket has filled up again. */
  ghost predicate Similar(p: Policy, a: Table, b: Table, now: real) {
    && (forall k | k in b :: EntryOk(b[k], now))
    && (forall k | k in a :: k in b && a[k].lastSeen == b[k].lastSeen && (p.burst > 0 ==> a[k] == b[k]))
    && (forall k | k in b && k !in a :: Level(p, b[k].bucket, now) == p.burst as real)
  }

  lemma Later(p: Policy, a: Table, b: Table, now: real, later: real)
    requires Sound(p) && Similar(p, a, b, now) && now <= later
    ensures Similar(p, a, b, later)
  {
    hide Level;
    forall k | k in b ensures EntryOk(b[k], later) {
      assert EntryOk(b[k], now);
    }
    forall k | k in b && k !in a ensures Level(p, b[k].bucket, later) == p.burst as real {
      LevelGrows(p, b[k].bucket, now, later);
      LevelCapped(p, b[k].bucket, later);
    }
  }

  lemma LevelCapped(p: Policy, b: Bucket, now: real)
    ensures Level(p, b, now) <= p.burst as real
  {}

  /** An entry idle for longer than the window is full, if the bucket fills up within the window. */
  lemma IdleIsFull(p: Policy, e: Entry, now: real)
    requires Sound(p) && p.burst as real <= Flow(p, p.window) && EntryOk(e, now) && now - e.lastSeen > p.window
    ensures Level(p, e.bucket, now) == p.burst as real
  {
    hide Flow;
    var extra := now - e.bucket.last - p.window;
    FlowSum(p, p.window, extra);
    assert p.window + extra == now - e.bucket.last;
    FlowPositive(p, extra);
  }

  lemma SimilarAsk(p: Policy, a: Table, b: Table, key: string, now: real)
    requires Sound(p) && Similar(p, a, b, now)
    ensures Asked(p, a, key, now).1 == Asked(p, b, key, now).1
    ensures Similar(p, Asked(p, a, key, now).0, Asked(p, b, key, now).0, now)
  {
    hide Level;
    assert Level(p, Full(p, now), now) == p.burst as real by { FullLevel(p, now); }
    if key in b { assert EntryOk(b[key], now); }
    if p.burst == 0 {
      NeverAdmits(p, BucketOf(p, a, key, now), now);
      NeverAdmits(p, BucketOf(p, b, key, now), now);
    }
  }

  lemma FullLevel(p: Policy, now: real)
    ensures Level(p, Full(p, now), now) == p.burst as real
  {}

  lemma NeverAdmits(p: Policy, b: Bucket, now: real)
    requires p.burst == 0
    ensures Level(p, b, now) < 1.0
  {}

  lemma SimilarSweep(p: Policy, a: Table, b: Table, now: real)
    requires Sound(p) && p.burst as real <= Flow(p, p.window) && Similar(p, a, b, now)
    ensures Similar(p, Swept(p, a, now), b, now)
  {
    hide Level;
    forall k | k in b && k !in Swept(p, a, now) ensures Level(p, b[k].bucket, now) == p.burst as real {
      if k in a { IdleIsFull(p, b[k], now); }
    }
  }

  /** The evicting table and the one that never evicts answer alike and stay similar. */
  lemma {:induction false} SimilarRuns(p: Policy, a: Table, b: Table, events: seq<Event>, from: real, to: real)
    requires Sound(p) && p.burst as real <= Flow(p, p.window)
    requires Similar(p, a, b, from) && Ordered(events, from, to)
    ensures Answers(p, a, events, true) == Answers(p, b, events, false)
    ensures Similar(p, Run(p, a, events, true), Run(p, b, events, false), to)
    decreases |events|
  {
    hide Level, Similar, Asked, Swept;
    if events == [] {
      Later(p, a, b, from, to);
    } else {
      var e := events[0];
      Later(p, a, b, from, e.at);
      match e {
        case Request(key, at) => SimilarAsk(p, a, b, key, at);
        case Sweep(at) => SimilarSweep(p, a, b, at);
      }
      SimilarRuns(p, Step(p, a, e, true).0, Step(p, b, e, false).0, events[1..], e.at, to);
    }
  }

  // ---- How much is admitted ----

  /** The requests of one key that were admitted. */
  function Admitted(events: seq<Event>, answers: seq<bool>, key: string): nat
    requires |answers| == |events|
    decreases |events|
  {
    if events == [] then 0
    else
      (if events[0].Request? && events[0].key == key && answers[0] then 1 else 0) + Admitted(events[1..], answers[1..], key)
  }

  /** The table that never evicts admits what the bucket holds plus what flows in. */
  lemma {:induction false} AdmittedBelow(p: Policy, t: Table, events: seq<Event>, key: string, from: real, to: real)
    requires Sound(p) && Ordered(events, from, to)
    ensures Admitted(events, Answers(p, t, events, false), key) as real <= LevelOf(p, t, key, from) + Flow(p, to - from)
    decreases |events|
  {
    hide Level, Take, Flow;
    if events == [] {
      FlowPositive(p, to - from);
      LevelOfPositive(p, t, key, from);
    } else {
      var e := events[0];
      var next := Step(p, t, e, false).0;
      AdmittedBelow(p, next, events[1..], key, e.at, to);
      assert Answers(p, t, events, false)[1..] == Answers(p, next, events[1..], false);
      LevelOfGrows(p, t, key, from, e.at);
      FlowSum(p, e.at - from, to - e.at);
      assert (e.at - from) + (to - e.at) == to - from;
      AskTakesOne(p, t, e, key);
    }
  }

  /** The tokens available to a key; counted from zero. */
  function LevelOf(p: Policy, t: Table, key: string, now: real): real {
    var l := Level(p, BucketOf(p, t, key, now), now);
    if l < 0.0 then 0.0 else l
  }

  lemma LevelOfPositive(p: Policy, t: Table, key: string, now: real)
    ensures 0.0 <= LevelOf(p, t, key, now) <= p.burst as real
  {}

  lemma LevelOfGrows(p: Policy, t: Table, key: string, now: real, later: real)
    requires Sound(p) && now <= later
    ensures LevelOf(p, t, key, later) <= LevelOf(p, t, key, now) + Flow(p, later - now)
  {
    hide Level, Flow;
    FlowPositive(p, later - now);
    if key in t {
      LevelGrows(p, t[key].bucket, now, later);
    } else {
      FullLevel(p, now);
      FullLevel(p, later);
    }
  }

  /** An admitted request of the key lowers its level by one; nothing else touches it. */
  lemma AskTakesOne(p: Policy, t: Table, e: Event, key: string)
    ensures var (next, ok) := Step(p, t, e, false);
      LevelOf(p, next, key, e.at) + (if e.Request? && e.key == key && ok then 1.0 else 0.0) <= LevelOf(p, t, key, e.at)
  {}

  /** Burst plus rate times length, for one key, in any interval of any run, however often entries are evicted in between. */
  lemma AdmissionBound(p: Policy, before: seq<Event>, during: seq<Event>, key: string, start: real, from: real, to: real)
    requires Sound(p) && p.burst as real <= Flow(p, p.window)
    requires Ordered(before, start, from) && Ordered(during, from, to)
    ensures Admitted(during, Answers(p, Run(p, map[], before, true), during, true), key) as real
            <= p.burst as real + Flow(p, to - from)
  {
    SimilarRuns(p, map[], map[], before, start, from);
    SimilarRuns(p, Run(p, map[], before, true), Run(p, map[], before, false), during, from, to);
    AdmittedBelow(p, Run(p, map[], before, false), during, key, from, to);
    LevelOfPositive(p, Run(p, map[], before, false), key, from);
  }

  // ---- Exactly what is admitted ----

  /** When the key was asked for, and what the answers were. */
  function TimesOf(events: seq<Event>, key: string): seq<real>
    decreases |events|
  {
    if events == [] then []
    else (if events[0].Request? && events[0].key == key then [events[0].at] else []) + TimesOf(events[1..], key)
  }

  function AnswersOf(events: seq<Event>, answers: seq<bool>, key: string): (r: seq<bool>)
    requires |answers| == |events|
    ensures |r| == |TimesOf(events, key)|
    decreases |events|
  {
    if events == [] then []
    else (if events[0].Request? && events[0].key == key then [answers[0]] else []) + AnswersOf(events[1..], answers[1..], key)
  }

  function Count(answers: seq<bool>): nat {
    if answers == [] then 0 else Count(answers[..|answers| - 1]) + (if answers[|answers| - 1] then 1 else 0)
  }

  /**
   * A request at `now` fits: with it, every interval that starts at one of the requests so far, or
   * now, admits at most the burst plus the rate times its length.
   */
  ghost predicate Fits(p: Policy, times: seq<real>, answers: seq<bool>, now: real)
    requires |answers| == |times|
  {
    1 <= p.burst && forall j | 0 <= j < |times| :: InInterval(p, times, answers, now, j)
  }

  ghost predicate InInterval(p: Policy, times: seq<real>, answers: seq<bool>, now: real, j: nat)
    requires |answers| == |times| && j < |times|
  {
    Count(answers[j..]) as real + 1.0 <= p.burst as real + p.rate * (now - times[j])
  }

  /** What the bucket holds after these requests, from the requests alone. */
  ghost function Holds(p: Policy, times: seq<real>, answers: seq<bool>, now: real): real
    requires |answers| == |times|
    decreases |times|
  {
    if times == [] then p.burst as real
    else
      var k := |times| - 1;
      Min(p.burst as real, Holds(p, times[..k], answers[..k], times[k]) - (if answers[k] then 1.0 else 0.0) + Flow(p, now - times[k]))
  }

  function Min(x: real, y: real): real { if y < x then y else x }

  /** At least c tokens are there exactly if every interval leaves room for c more. */
  lemma {:induction false} HoldsIff(p: Policy, times: seq<real>, answers: seq<bool>, now: real, c: real)
    requires |answers| == |times|
    ensures Holds(p, times, answers, now) >= c <==>
      c <= p.burst as real &&
      forall j | 0 <= j < |times| :: RoomFor(p, times, answers, now, j, c)
    decreases |times|
  {
    if times != [] {
      var k := |times| - 1;
      var a := if answers[k] then 1.0 else 0.0;
      var before := c + a - Flow(p, now - times[k]);
      HoldsIff(p, times[..k], answers[..k], times[k], before);
      LastRoom(p, times, answers, now, c);
      forall j | 0 <= j < k
        ensures RoomFor(p, times, answers, now, j, c) <==> RoomFor(p, times[..k], answers[..k], times[k], j, before)
      {
        EarlierRoom(p, times, answers, now, j, c);
      }
    }
  }

  ghost predicate RoomFor(p: Policy, times: seq<real>, answers: seq<bool>, now: real, j: nat, c: real)
    requires |answers| == |times| && j < |times|
  {
    Count(answers[j..]) as real + c <= p.burst as real + Flow(p, now - times[j])
  }

  lemma LastRoom(p: Policy, times: seq<real>, answers: seq<bool>, now: real, c: real)
    requires |answers| == |times| && times != []
    ensures var k := |times| - 1;
      RoomFor(p, times, answers, now, k, c) <==>
      (if answers[k] then 1.0 else 0.0) + c <= p.burst as real + Flow(p, now - times[k])
  {
    assert answers[|times| - 1..] == [answers[|times| - 1]];
    OneCounted(answers[|times| - 1]);
  }

  lemma OneCounted(a: bool)
    ensures Count([a]) == if a then 1 else 0
  {
    assert Count([a][..0]) == 0;
  }

  lemma EarlierRoom(p: Policy, times: seq<real>, answers: seq<bool>, now: real, j: nat, c: real)
    requires |answers| == |times| && j + 1 < |times|
    ensures var k := |times| - 1;
      RoomFor(p, times, answers, now, j, c) <==>
      RoomFor(p, times[..k], answers[..k], times[k], j, c + (if answers[k] then 1.0 else 0.0) - Flow(p, now - times[k]))
  {
    hide Flow;
    var k := |times| - 1;
    assert answers[j..][..k - j] == answers[..k][j..];
    FlowSum(p, times[k] - times[j], now - times[k]);
    assert (times[k] - times[j]) + (now - times[k]) == now - times[j];
  }

  lemma FitsIff(p: Policy, times: seq<real>, answers: seq<bool>, now: real)
    requires |answers| == |times|
    ensures Holds(p, times, answers, now) >= 1.0 <==> Fits(p, times, answers, now)
  {
    hide Holds;
    HoldsIff(p, times, answers, now, 1.0);
    forall j | 0 <= j < |times|
      ensures RoomFor(p, times, answers, now, j, 1.0) <==> InInterval(p, times, answers, now, j)
    {
      FlowIs(p, now - times[j]);
    }
  }

  /** Each request admitted exactly if it fits after the ones before it. */
  ghost function Greedy(p: Policy, times: seq<real>): (r: seq<bool>)
    ensures |r| == |times|
    decreases |times|
  {
    if times == [] then []
    else
      var k := |times| - 1;
      Greedy(p, times[..k]) + [Fits(p, times[..k], Greedy(p, times[..k]), times[k])]
  }

  /** The table's bucket for the key is what the requests say, from now on. */
  ghost predicate Tracks(p: Policy, t: Table, key: string, times: seq<real>, from: real) {
    && (times == [] <==> key !in t)
    && forall now | from <= now :: TracksAt(p, t, key, times, now)
  }

  ghost predicate TracksAt(p: Policy, t: Table, key: string, times: seq<real>, now: real) {
    Level(p, BucketOf(p, t, key, now), now) == Holds(p, times, Greedy(p, times), now)
  }

  /** The level later on is the level now, refilled. */
  lemma LevelLater(p: Policy, b: Bucket, now: real, later: real)
    requires Sound(p) && now <= later
    ensures Level(p, b, later) == Min(p.burst as real, Level(p, b, now) + Flow(p, later - now))
  {
    hide Flow;
    FlowSum(p, now - b.last, later - now);
    assert (now - b.last) + (later - now) == later - b.last;
    FlowPositive(p, later - now);
  }

  lemma TracksRequest(p: Policy, t: Table, key: string, times: seq<real>, at: real)
    requires Sound(p) && Tracks(p, t, key, times, at)
    ensures var (next, ok) := Asked(p, t, key, at);
      && Greedy(p, times + [at]) == Greedy(p, times) + [ok]
      && Tracks(p, next, key, times + [at], at)
  {
    hide Level, Flow, Holds, Fits;
    var b := BucketOf(p, t, key, at);
    var (next, ok) := Asked(p, t, key, at);
    var g := Greedy(p, times);
    assert TracksAt(p, t, key, times, at);
    FitsIff(p, times, g, at);
    assert (times + [at])[..|times|] == times;
    forall now | at <= now ensures TracksAt(p, next, key, times + [at], now) {
      HoldsAppend(p, times, g, at, ok, now);
      if ok {
        TakenLevel(p, Level(p, b, at), at, now);
      } else {
        LevelLater(p, b, at, now);
      }
    }
  }

  lemma HoldsAppend(p: Policy, times: seq<real>, g: seq<bool>, at: real, ok: bool, now: real)
    requires |g| == |times|
    ensures Holds(p, times + [at], g + [ok], now) ==
            Min(p.burst as real, Holds(p, times, g, at) - (if ok then 1.0 else 0.0) + Flow(p, now - at))
  {
    hide Flow;
    assert (times + [at])[..|times|] == times && (g + [ok])[..|g|] == g;
  }

  lemma TakenLevel(p: Policy, level: real, at: real, now: real)
    ensures Level(p, Bucket(level - 1.0, at), now) == Min(p.burst as real, level - 1.0 + Flow(p, now - at))
  {
    hide Flow;
  }

  lemma TracksOther(p: Policy, t: Table, next: Table, key: string, times: seq<real>, from: real, later: real)
    requires Tracks(p, t, key, times, from) && from <= later
    requires key in t <==> key in next
    requires key in t ==> t[key].bucket == next[key].bucket
    ensures Tracks(p, next, key, times, later)
  {
    hide Level, Holds, Greedy;
    forall now | later <= now ensures TracksAt(p, next, key, times, now) {
      assert TracksAt(p, t, key, times, now);
    }
  }

  lemma {:induction false} TrackedRuns(
    p: Policy, t: Table, events: seq<Event>, key: string, from: real, to: real, times: seq<real>)
    requires Sound(p) && Tracks(p, t, key, times, from) && Ordered(events, from, to)
    ensures Greedy(p, times + TimesOf(events, key)) ==
            Greedy(p, times) + AnswersOf(events, Answers(p, t, events, false), key)
    decreases |events|
  {
    hide Tracks, Greedy, Asked, Sound;
    if events == [] {
      assert times + [] == times && Greedy(p, times) + [] == Greedy(p, times);
    } else {
      var e := events[0];
      var (next, ok) := Step(p, t, e, false);
      TracksOther(p, t, t, key, times, from, e.at);
      assert Answers(p, t, events, false)[1..] == Answers(p, next, events[1..], false);
      var rest, answers := TimesOf(events[1..], key), AnswersOf(events[1..], Answers(p, next, events[1..], false), key);
      if e.Request? && e.key == key {
        TracksRequest(p, t, key, times, e.at);
        TrackedRuns(p, next, events[1..], key, e.at, to, times + [e.at]);
        Regroup(times, e.at, rest);
        Regroup(Greedy(p, times), ok, answers);
      } else {
        OtherKey(p, t, e, key);
        TracksOther(p, t, next, key, times, e.at, e.at);
        TrackedRuns(p, next, events[1..], key, e.at, to, times);
        assert [] + rest == rest && [] + answers == answers;
      }
    }
  }

  lemma Regroup<T>(a: seq<T>, x: T, b: seq<T>)
    ensures a + ([x] + b) == (a + [x]) + b
  {}

  lemma OtherKey(p: Policy, t: Table, e: Event, key: string)
    requires e.Request? ==> e.key != key
    ensures var next := Step(p, t, e, false).0;
      (key in t <==> key in next) && (key in t ==> t[key] == next[key])
  {}

  /**
   * The answers for a key are determined by the times it is asked for: a request is admitted exactly
   * if with it every interval up to now stays within burst plus rate times length.
   */
  lemma AdmittedIffItFits(p: Policy, events: seq<Event>, key: string, from: real, to: real)
    requires Sound(p) && p.burst as real <= p.rate * p.window && Ordered(events, from, to)
    ensures var times, answers := TimesOf(events, key), AnswersOf(events, Answers(p, map[], events, true), key);
      forall i | 0 <= i < |times| :: answers[i] <==> Fits(p, times[..i], answers[..i], times[i])
  {
    hide Greedy, Fits, Tracks;
    SimilarRuns(p, map[], map[], events, from, to);
    NothingTracked(p, key, from);
    TrackedRuns(p, map[], events, key, from, to, []);
    var times := TimesOf(events, key);
    var answers := AnswersOf(events, Answers(p, map[], events, true), key);
    assert [] + times == times && [] + answers == answers;
    forall i | 0 <= i < |times| ensures answers[i] <==> Fits(p, times[..i], answers[..i], times[i]) {
      GreedyAt(p, times, i);
    }
  }

  lemma NothingTracked(p: Policy, key: string, from: real)
    ensures Tracks(p, map[], key, [], from) && Greedy(p, []) == []
  {
    forall now | from <= now ensures TracksAt(p, map[], key, [], now) { FullLevel(p, now); }
  }

  lemma {:induction false} GreedyAt(p: Policy, times: seq<real>, i: nat)
    requires i < |times|
    ensures Greedy(p, times)[..i] == Greedy(p, times[..i])
    ensures Greedy(p, times)[i] <==> Fits(p, times[..i], Greedy(p, times)[..i], times[i])
    decreases |times|
  {
    hide Fits;
    var k := |times| - 1;
    assert Greedy(p, times)[..k] == Greedy(p, times[..k]);
    if i < k {
      GreedyAt(p, times[..k], i);
      assert times[..k][..i] == times[..i] && Greedy(p, times[..k])[..i] == Greedy(p, times)[..i];
    }
  }

  /** A refused request leaves the key's level as it was, now and later. */
  lemma RefusalTakesNothing(p: Policy, t: Table, key: string, now: real, later: real)
    requires Sound(p) && !Asked(p, t, key, now).1 && now <= later
    ensures Level(p, BucketOf(p, Asked(p, t, key, now).0, key, later), later) == Level(p, BucketOf(p, t, key, later), later)
  {
    if key !in t {
      FullLevel(p, later);
      LevelLater(p, Full(p, now), now, later);
      FullLevel(p, now);
      FlowPositive(p, later - now);
    }
  }

  /**
   * A request made 1/rate or more after the key's last admitted one is admitted, and so is the first,
   * whatever was refused or swept in between.
   */
  lemma AdmittedAfterPause(p: Policy, events: seq<Event>, key: string, from: real, to: real, i: nat)
    requires Sound(p) && p.burst as real <= p.rate * p.window && Ordered(events, from, to) && 1 <= p.burst
    requires i < |TimesOf(events, key)|
    requires var times, answers := TimesOf(events, key), AnswersOf(events, Answers(p, map[], events, true), key);
      forall k | 0 <= k < i && answers[k] :: p.rate * (times[i] - times[k]) >= 1.0
    ensures AnswersOf(events, Answers(p, map[], events, true), key)[i]
  {
    hide TimesOf, AnswersOf, Answers, InInterval;
    AdmittedIffItFits(p, events, key, from, to);
    var times, answers := TimesOf(events, key), AnswersOf(events, Answers(p, map[], events, true), key);
    TimesOrdered(events, key, from, to);
    forall j | 0 <= j < i ensures InInterval(p, times[..i], answers[..i], times[i], j) {
      PauseFits(p, times, answers, i, j);
    }
    assert Fits(p, times[..i], answers[..i], times[i]);
  }

  lemma {:induction false} TimesOrdered(events: seq<Event>, key: string, from: real, to: real)
    requires Ordered(events, from, to)
    ensures forall i | 0 <= i < |TimesOf(events, key)| :: from <= TimesOf(events, key)[i]
    ensures forall i, j | 0 <= i <= j < |TimesOf(events, key)| :: TimesOf(events, key)[i] <= TimesOf(events, key)[j]
    decreases |events|
  {
    if events != [] { TimesOrdered(events[1..], key, events[0].at, to); }
  }

  /** One after the last admitted request of answers[j..i], or j. */
  function AfterLast(answers: seq<bool>, j: nat, i: nat): (k: nat)
    requires j <= i <= |answers|
    ensures j <= k <= i && (k > j ==> answers[k - 1]) && forall m | k <= m < i :: !answers[m]
  {
    if i == j || answers[i - 1] then i else AfterLast(answers, j, i - 1)
  }

  /** The first `burst` requests of a key are admitted, and so is any other with fewer admitted before it. */
  lemma BurstIsAdmitted(p: Policy, events: seq<Event>, key: string, from: real, to: real, i: nat)
    requires Sound(p) && p.burst as real <= p.rate * p.window && Ordered(events, from, to)
    requires i < |TimesOf(events, key)| && Count(AnswersOf(events, Answers(p, map[], events, true), key)[..i]) < p.burst
    ensures AnswersOf(events, Answers(p, map[], events, true), key)[i]
  {
    hide TimesOf, AnswersOf, Answers, Count, InInterval;
    AdmittedIffItFits(p, events, key, from, to);
    var times, answers := TimesOf(events, key), AnswersOf(events, Answers(p, map[], events, true), key);
    TimesOrdered(events, key, from, to);
    forall j | 0 <= j < i ensures InInterval(p, times[..i], answers[..i], times[i], j) {
      BurstFits(p, times[..i], answers[..i], times[i], j);
    }
    assert Fits(p, times[..i], answers[..i], times[i]);
  }

  lemma BurstFits(p: Policy, times: seq<real>, answers: seq<bool>, now: real, j: nat)
    requires Sound(p) && |answers| == |times| && j < |times| && times[j] <= now && Count(answers) < p.burst
    ensures InInterval(p, times, answers, now, j)
  {
    hide Count;
    SuffixCount(answers, j);
    RatePositive(p.rate, now - times[j]);
    Below(Count(answers[j..]), p.burst);
  }

  lemma Below(n: nat, m: nat)
    requires n < m
    ensures n as real + 1.0 <= m as real
  {}

  lemma {:induction false} SuffixCount(answers: seq<bool>, j: nat)
    requires j <= |answers|
    ensures Count(answers[j..]) <= Count(answers)
    decreases |answers|
  {
    if j < |answers| {
      SuffixCount(answers[..|answers| - 1], j);
      assert answers[j..][..|answers| - j - 1] == answers[..|answers| - 1][j..];
    }
  }

  /** The interval from request j to now has room for one more: look back to the last admitted request in it. */
  lemma PauseFits(p: Policy, times: seq<real>, answers: seq<bool>, i: nat, j: nat)
    requires Sound(p) && 1 <= p.burst && |answers| == |times| && j < i < |times|
    requires times[j] <= times[i]
    requires forall m | 0 <= m < |times| :: answers[m] <==> Fits(p, times[..m], answers[..m], times[m])
    requires forall m | 0 <= m < i && answers[m] :: p.rate * (times[i] - times[m]) >= 1.0
    ensures InInterval(p, times[..i], answers[..i], times[i], j)
  {
    hide Fits, Count, AfterLast;
    var k := AfterLast(answers, j, i);
    NoneCounted(answers, j, k, i);
    assert answers[..i][j..] == answers[j..i];
    NoneAtAll(answers, j);
    if k == j {
      RatePositive(p.rate, times[i] - times[j]);
    } else {
      LastCounted(answers, j, k);
      if j < k - 1 { RoomThen(p, times, answers, j, k - 1); }
      RoomNow(p.rate, p.burst as real, times[j], times[k - 1], times[i], Count(answers[j..k - 1]));
    }
  }

  lemma NoneAtAll(answers: seq<bool>, j: nat)
    requires j <= |answers|
    ensures Count(answers[j..j]) == 0
  {}

  lemma RatePositive(r: real, x: real)
    requires 0.0 <= r && 0.0 <= x
    ensures 0.0 <= r * x
  {}

  /** When request m was admitted, the interval from j had room for it. */
  lemma RoomThen(p: Policy, times: seq<real>, answers: seq<bool>, j: nat, m: nat)
    requires |answers| == |times| && j < m < |times| && Fits(p, times[..m], answers[..m], times[m])
    ensures Count(answers[j..m]) as real + 1.0 <= p.burst as real + p.rate * (times[m] - times[j])
  {
    hide Count;
    assert InInterval(p, times[..m], answers[..m], times[m], j);
    assert answers[..m][j..] == answers[j..m];
  }

  lemma RoomNow(rate: real, burst: real, early: real, mid: real, now: real, n: nat)
    requires n as real + 1.0 <= burst + rate * (mid - early) && rate * (now - mid) >= 1.0
    ensures (n + 1) as real + 1.0 <= burst + rate * (now - early)
  {
    Distribute(rate, mid - early, now - mid, now - early);
  }

  lemma Distribute(r: real, x: real, y: real, z: real)
    requires z == x + y
    ensures r * z == r * x + r * y
  {}

  lemma {:induction false} NoneCounted(answers: seq<bool>, j: nat, k: nat, i: nat)
    requires j <= k <= i <= |answers| && forall m | k <= m < i :: !answers[m]
    ensures Count(answers[j..i]) == Count(answers[j..k])
    decreases i
  {
    if k < i {
      assert answers[j..i][..i - j - 1] == answers[j..i - 1];
      NoneCounted(answers, j, k, i - 1);
    }
  }

  lemma LastCounted(answers: seq<bool>, j: nat, k: nat)
    requires j < k <= |answers| && answers[k - 1]
    ensures Count(answers[j..k]) == Count(answers[j..k - 1]) + 1
  {
    assert answers[j..k][..k - j - 1] == answers[j..k - 1];
  }

  // ---- And only then ----

  function Repeat(key: string, at: real, n: nat): (r: seq<Event>)
    ensures |r| == n
  {
    if n == 0 then [] else [Request(key, at)] + Repeat(key, at, n - 1)
  }

  lemma {:induction false} RepeatOrdered(key: string, at: real, n: nat, from: real, to: real)
    requires from <= at <= to
    ensures Ordered(Repeat(key, at, n), from, to)
  {
    if n > 0 {
      RepeatOrdered(key, at, n - 1, at, to);
      assert Repeat(key, at, n)[1..] == Repeat(key, at, n - 1);
    }
  }

  function Spent(p: Policy, t: Table, key: string, at: real, n: nat): Entry {
    Entry(Bucket(Level(p, BucketOf(p, t, key, at), at) - n as real, at), at)
  }

  lemma LevelAtLast(p: Policy, b: Bucket)
    requires Sound(p) && b.tokens <= p.burst as real
    ensures Level(p, b, b.last) == b.tokens
  {
    hide Flow;
    FlowPositive(p, 0.0);
    assert b.last - b.last == 0.0;
  }

  /** n requests at once on a level of at least n are all admitted and leave the rest. */
  lemma {:induction false} RepeatAdmits(p: Policy, t: Table, key: string, at: real, n: nat, evicting: bool)
    requires Sound(p) && Level(p, BucketOf(p, t, key, at), at) >= n as real
    ensures forall i | 0 <= i < n :: Answers(p, t, Repeat(key, at, n), evicting)[i]
    ensures Run(p, t, Repeat(key, at, n), evicting) == if n == 0 then t else t[key := Spent(p, t, key, at, n)]
    decreases n
  {
    hide Level;
    if n > 0 {
      var rest := Repeat(key, at, n - 1);
      assert Repeat(key, at, n)[1..] == rest;
      var next := Asked(p, t, key, at).0;
      LevelCapped(p, BucketOf(p, t, key, at), at);
      LevelAtLast(p, next[key].bucket);
      assert Level(p, next[key].bucket, at) == Level(p, BucketOf(p, t, key, at), at) - 1.0;
      RepeatAdmits(p, next, key, at, n - 1, evicting);
    }
  }

  lemma {:induction false} AllAdmitted(key: string, at: real, n: nat, answers: seq<bool>)
    requires |answers| == n && forall i | 0 <= i < n :: answers[i]
    ensures Admitted(Repeat(key, at, n), answers, key) == n
    decreases n
  {
    if n > 0 {
      assert Repeat(key, at, n)[1..] == Repeat(key, at, n - 1);
      AllAdmitted(key, at, n - 1, answers[1..]);
    }
  }

  lemma {:induction false} Concat(p: Policy, t: Table, a: seq<Event>, b: seq<Event>, evicting: bool)
    ensures Run(p, t, a + b, evicting) == Run(p, Run(p, t, a, evicting), b, evicting)
    ensures Answers(p, t, a + b, evicting) == Answers(p, t, a, evicting) + Answers(p, Run(p, t, a, evicting), b, evicting)
    decreases |a|
  {
    hide Step;
    if a == [] {
      assert a + b == b;
    } else {
      assert (a + b)[1..] == a[1..] + b;
      Concat(p, Step(p, t, a[0], evicting).0, a[1..], b, evicting);
    }
  }

  lemma {:induction false} OrderedConcat(a: seq<Event>, b: seq<Event>, from: real, mid: real, to: real)
    requires Ordered(a, from, mid) && Ordered(b, mid, to)
    ensures Ordered(a + b, from, to)
    decreases |a|
  {
    if a == [] {
      assert a + b == b;
      OrderedFrom(b, from, mid, to);
    } else {
      assert (a + b)[1..] == a[1..] + b;
      OrderedConcat(a[1..], b, a[0].at, mid, to);
    }
  }

  lemma {:induction false} OrderedFrom(b: seq<Event>, from: real, mid: real, to: real)
    requires from <= mid && Ordered(b, mid, to)
    ensures Ordered(b, from, to)
  {}

  /** Spend the burst at time 0, let the entry be swept at t, and spend it again. */
  function TwoBursts(p: Policy, t: real): seq<Event> {
    Repeat("k", 0.0, p.burst) + [Sweep(t)] + Repeat("k", t, p.burst)
  }

  lemma SecondBurst(p: Policy, t: real, evicting: bool)
    requires Sound(p) && p.burst > 0 && t > p.window
    ensures var middle := if evicting then map[] else map["k" := Entry(Bucket(0.0, 0.0), 0.0)];
      Answers(p, map[], TwoBursts(p, t), evicting)[p.burst + 1..] == Answers(p, middle, Repeat("k", t, p.burst), evicting)
  {
    var first, second := Repeat("k", 0.0, p.burst), Repeat("k", t, p.burst);
    FullLevel(p, 0.0);
    RepeatAdmits(p, map[], "k", 0.0, p.burst, evicting);
    Concat(p, map[], first + [Sweep(t)], second, evicting);
    Concat(p, map[], first, [Sweep(t)], evicting);
    var spent: Table := map["k" := Entry(Bucket(0.0, 0.0), 0.0)];
    assert Run(p, map[], first, evicting) == spent;
    assert Run(p, spent, [Sweep(t)], evicting) == Step(p, spent, Sweep(t), evicting).0 by {
      assert [Sweep(t)][1..] == [];
    }
    assert Swept(p, spent, t) == map[];
  }

  /** With a burst larger than what flows in during the window, the second burst tells the two tables apart. */
  lemma EvictionShows(p: Policy, t: real)
    requires Sound(p) && t > p.window && Flow(p, t) < p.burst as real
    ensures Ordered(TwoBursts(p, t), 0.0, t)
    ensures Answers(p, map[], TwoBursts(p, t), true) != Answers(p, map[], TwoBursts(p, t), false)
  {
    hide Level, Flow;
    FlowPositive(p, t);
    RepeatOrdered("k", 0.0, p.burst, 0.0, 0.0);
    RepeatOrdered("k", t, p.burst, t, t);
    assert Ordered([Sweep(t)], 0.0, t) by { assert [Sweep(t)][1..] == []; }
    OrderedConcat(Repeat("k", 0.0, p.burst), [Sweep(t)], 0.0, 0.0, t);
    OrderedConcat(Repeat("k", 0.0, p.burst) + [Sweep(t)], Repeat("k", t, p.burst), 0.0, t, t);
    var second := Repeat("k", t, p.burst);
    SecondBurst(p, t, true);
    SecondBurst(p, t, false);
    FullLevel(p, t);
    RepeatAdmits(p, map[], "k", t, p.burst, true);
    var spent: Table := map["k" := Entry(Bucket(0.0, 0.0), 0.0)];
    SpentLevel(p, spent, t);
    AdmittedBelow(p, spent, second, "k", t, t);
    if Answers(p, map[], TwoBursts(p, t), true) == Answers(p, map[], TwoBursts(p, t), false) {
      AllAdmitted("k", t, p.burst, Answers(p, spent, second, false));
    }
  }

  lemma SpentLevel(p: Policy, spent: Table, t: real)
    requires Sound(p) && 0.0 <= t && spent == map["k" := Entry(Bucket(0.0, 0.0), 0.0)]
    ensures LevelOf(p, spent, "k", t) <= Flow(p, t) && Flow(p, t - t) == 0.0
  {
    hide Flow;
    FlowPositive(p, t);
    assert t - 0.0 == t && t - t == 0.0;
  }

  /** A moment after the window at which the bucket is still short of the burst. */
  lemma Between(p: Policy) returns (t: real)
    requires Sound(p) && Flow(p, p.window) < p.burst as real
    ensures t > p.window && Flow(p, t) < p.burst as real
  {
    hide Flow;
    var gap := p.burst as real - Flow(p, p.window);
    if p.rate == 0.0 {
      t := p.window + 1.0;
      FlowIs(p, t);
      FlowIs(p, p.window);
    } else {
      var more := Half(gap, p.rate);
      t := p.window + more;
      FlowSum(p, p.window, more);
      FlowIs(p, more);
    }
  }

  lemma FlowIs(p: Policy, t: real)
    ensures Flow(p, t) == p.rate * t
    ensures p.rate == 0.0 ==> Flow(p, t) == 0.0
  {}

  /** Half the time in which the gap would close. */
  lemma Half(gap: real, rate: real) returns (x: real)
    requires 0.0 < gap && 0.0 < rate
    ensures 0.0 < x && rate * x < gap
  {
    var whole := gap / rate;
    assert rate * whole == gap;
    x := whole / 2.0;
    assert rate * x == gap / 2.0;
    assert 0.0 < whole by {
      if whole <= 0.0 { NotPositive(rate, whole); assert false; }
    }
  }

  lemma NotPositive(r: real, x: real)
    requires 0.0 < r && x <= 0.0
    ensures r * x <= 0.0
  {}

  ghost predicate Alike(p: Policy, events: seq<Event>) {
    Answers(p, map[], events, true) == Answers(p, map[], events, false)
  }

  /** No schedule can tell the table from one that never evicts. */
  ghost predicate Invisible(p: Policy) { forall events, to | Ordered(events, 0.0, to) :: Alike(p, events) }

  /** Idle eviction is invisible in every schedule exactly when the burst flows in within the window. */
  lemma InvisibleIff(p: Policy)
    requires Sound(p)
    ensures Invisible(p) <==> p.burst as real <= Flow(p, p.window)
  {
    if p.burst as real <= Flow(p, p.window) {
      forall events, to | Ordered(events, 0.0, to) ensures Alike(p, events) {
        SimilarRuns(p, map[], map[], events, 0.0, to);
      }
    } else {
      var t := Between(p);
      EvictionShows(p, t);
      assert !Alike(p, TwoBursts(p, t));
    }
  }

  /** A sweep keeps exactly the entries asked for within the window, whether the request was admitted or not. */
  lemma EntryKeptIff(p: Policy, t: Table, key: string, at: real, now: real, other: string)
    ensures var asked := Asked(p, t, key, at).0;
      && (key in Swept(p, asked, now) <==> now - at <= p.window)
      && (other != key ==> (other in Swept(p, asked, now) <==> other in t && now - t[other].lastSeen <= p.window))
  {
    hide Level;
  }

  // ---- The three tables ----

  /** One token per 30 s, burst 10, entries kept for 30 minutes. */
  function RefreshPolicy(): Policy { Policy(1.0 / 30.0, 10, 1800.0) }

  /** Requests per second and burst from the configuration, entries kept for 3 minutes. */
  function IpPolicy(rps: nat, burst: nat): Policy { Policy(rps as real, burst, 180.0) }

  /** Rate and burst from the configuration, entries kept for 10 minutes. */
  function UserPolicy(rps: real, burst: nat): Policy { Policy(rps, burst, 600.0) }

  /** A refresh token is redeemed at most 10 + L/30s times in any interval of length L. */
  lemma RefreshBound(before: seq<Event>, during: seq<Event>, key: string, start: real, from: real, to: real)
    requires Ordered(before, start, from) && Ordered(during, from, to)
    ensures var p := RefreshPolicy();
      Admitted(during, Answers(p, Run(p, map[], before, true), during, true), key) as real <= 10.0 + (to - from) / 30.0
  {
    var p := RefreshPolicy();
    FlowIs(p, p.window);
    assert Flow(p, p.window) == 60.0;
    AdmissionBound(p, before, during, key, start, from, to);
    FlowIs(p, to - from);
  }

  /** It is redeemed if fewer than 10 redemptions came before, or none in the last 30 s. */
  lemma RefreshAdmits(events: seq<Event>, key: string, from: real, to: real, i: nat)
    requires Ordered(events, from, to) && i < |TimesOf(events, key)|
    requires var times, answers := TimesOf(events, key), AnswersOf(events, Answers(RefreshPolicy(), map[], events, true), key);
      Count(answers[..i]) < 10 || forall k | 0 <= k < i && answers[k] :: times[i] - times[k] >= 30.0
    ensures AnswersOf(events, Answers(RefreshPolicy(), map[], events, true), key)[i]
  {
    hide TimesOf, AnswersOf, Answers, Count, Ordered;
    var p := RefreshPolicy();
    if Count(AnswersOf(events, Answers(p, map[], events, true), key)[..i]) < 10 {
      BurstIsAdmitted(p, events, key, from, to, i);
    } else {
      AdmittedAfterPause(p, events, key, from, to, i);
    }
  }

  /** Entries are forgotten after 30, 3 and 10 minutes. */
  lemma ForgottenAfter(t: Table, key: string, at: real, now: real, rps: nat, userRps: real, burst: nat)
    ensures key in Swept(RefreshPolicy(), Asked(RefreshPolicy(), t, key, at).0, now) <==> now - at <= 1800.0
    ensures key in Swept(IpPolicy(rps, burst), Asked(IpPolicy(rps, burst), t, key, at).0, now) <==> now - at <= 180.0
    ensures key in Swept(UserPolicy(userRps, burst), Asked(UserPolicy(userRps, burst), t, key, at).0, now) <==> now - at <= 600.0
  {
    hide Asked, Swept;
    EntryKeptIff(RefreshPolicy(), t, key, at, now, key);
    EntryKeptIff(IpPolicy(rps, burst), t, key, at, now, key);
    EntryKeptIff(UserPolicy(userRps, burst), t, key, at, now, key);
  }

  /** The condition in the terms of the two configurable tables; the defaults (20/s and 40, 0.5/s and 3) meet it. */
  lemma ConfiguredTables(rps: nat, ipBurst: nat, userRps: real, userBurst: nat)
    requires 0.0 <= userRps
    ensures Invisible(IpPolicy(rps, ipBurst)) <==> ipBurst <= 180 * rps
    ensures Invisible(UserPolicy(userRps, userBurst)) <==> userBurst as real <= 600.0 * userRps
    ensures Invisible(IpPolicy(20, 40)) && Invisible(UserPolicy(0.5, 3)) && Invisible(RefreshPolicy())
  {
    hide Invisible;
    InvisibleIff(IpPolicy(rps, ipBurst));
    InvisibleIff(UserPolicy(userRps, userBurst));
    InvisibleIff(IpPolicy(20, 40));
    InvisibleIff(UserPolicy(0.5, 3));
    InvisibleIff(RefreshPolicy());
  }
}
