/**
 * The introspection cache of internal/auth/introspection_cache.go, proved against the history of
 * what the authorization server answered. Times are nanoseconds of a monotone clock read once per
 * call; a token is its own cache key.
 */
module IntrospectionCache {
  import opened Common

  const MAX_POSITIVE_TTL := 300_000_000_000
  const NEGATIVE_TTL := 10_000_000_000
  const EXP_LEEWAY := 30_000_000_000
  const SECOND := 1_000_000_000
  const SWEEP_SIZE := 2048

  /** active and exp: section 2.2 of RFC 7662; exp in seconds, 0 when absent. */
  datatype Answer = Claims(active: bool, exp: int, subject: string) | Failed(reason: string)

  datatype Entry = Entry(answer: Answer, expiresAt: int)

  type Cache = map<string, Entry>

  /** How long an answer obtained now may be kept; nothing is kept for a time that is not positive. */
  function Ttl(a: Answer, now: int): int {
    if a.Failed? then NEGATIVE_TTL
    else
      var remaining := a.exp * SECOND - now - EXP_LEEWAY;
      if a.exp > 0 && remaining < MAX_POSITIVE_TTL then remaining else MAX_POSITIVE_TTL
  }

  function Lookup(c: Cache, token: string, now: int): Option<Answer> {
    if token in c && !(now > c[token].expiresAt) then Some(c[token].answer) else None
  }

  function Swept(c: Cache, now: int): Cache { map k | k in c && !(now > c[k].expiresAt) :: c[k] }

  function Stored(c: Cache, token: string, e: Entry, now: int): Cache {
    if |c[token := e]| > SWEEP_SIZE then Swept(c[token := e], now) else c[token := e]
  }

  // ---- One call on the entries ----

  datatype Event = Ask(token: string, at: int, upstream: Answer) | Invalidate(token: string)

  function Keep(c: Cache, token: string, e: Entry, now: int, sweeping: bool): Cache {
    if sweeping then Stored(c, token, e, now) else c[token := e]
  }

  /** What becomes of an answer that the server gave: kept if there is time left for it. */
  function Kept(c: Cache, token: string, a: Answer, now: int, sweeping: bool): Cache {
    if Ttl(a, now) <= 0 then c else Keep(c, token, Entry(a, now + Ttl(a, now)), now, sweeping)
  }

  /** One call, with the size sweep or without it; the answer is None for an invalidation. */
  function Step(c: Cache, e: Event, sweeping: bool): (Cache, Option<Answer>) {
    match e
    case Ask(token, now, upstream) =>
      if token == "" then (c, Some(upstream))
      else if Lookup(c, token, now).Some? then (c, Lookup(c, token, now))
      else (Kept(c, token, upstream, now, sweeping), Some(upstream))
    case Invalidate(token) => (if token == "" then c else c - {token}, None)
  }

  // ---- The specification: what the server said last ----

  datatype Fact = Introspected(token: string, at: int, answer: Answer) | Forgotten(token: string)

  /** The answer that may still be given for the token: the last one, unless it was invalidated or is too old. */
  function Fresh(hist: seq<Fact>, token: string, now: int): Option<Answer> {
    if hist == [] then None
    else
      var last := hist[|hist| - 1];
      if last.token != token then Fresh(hist[..|hist| - 1], token, now)
      else if last.Introspected? && 0 < Ttl(last.answer, last.at) && now <= last.at + Ttl(last.answer, last.at) then Some(last.answer)
      else None
  }

  lemma FreshAppend(hist: seq<Fact>, f: Fact, token: string, now: int)
    ensures Fresh(hist + [f], token, now) ==
      if f.token != token then Fresh(hist, token, now)
      else if f.Introspected? && 0 < Ttl(f.answer, f.at) && now <= f.at + Ttl(f.answer, f.at) then Some(f.answer)
      else None
  {
    assert (hist + [f])[..|hist|] == hist;
  }

  /** From `clock` on the cache answers what the history says. */
  ghost predicate Agrees(c: Cache, hist: seq<Fact>, clock: int) {
    forall token, now | clock <= now :: AgreesOn(c, hist, token, now)
  }

  ghost predicate AgreesOn(c: Cache, hist: seq<Fact>, token: string, now: int) {
    Lookup(c, token, now) == Fresh(hist, token, now)
  }

  /** The size sweep removes nothing that could still be served. */
  lemma SweepKeeps(c: Cache, hist: seq<Fact>, clock: int)
    requires Agrees(c, hist, clock)
    ensures Agrees(Swept(c, clock), hist, clock)
  {
    forall token, now | clock <= now ensures AgreesOn(Swept(c, clock), hist, token, now) {
      assert AgreesOn(c, hist, token, now);
    }
  }

  lemma StoreKeeps(c: Cache, hist: seq<Fact>, token: string, a: Answer, now: int, clock: int)
    requires Agrees(c, hist, clock) && clock <= now && 0 < Ttl(a, now)
    ensures Agrees(Stored(c, token, Entry(a, now + Ttl(a, now)), now), hist + [Introspected(token, now, a)], now)
  {
    hide Fresh, Swept, Ttl;
    var stored, f := c[token := Entry(a, now + Ttl(a, now))], Introspected(token, now, a);
    forall t, later | now <= later ensures AgreesOn(stored, hist + [f], t, later) {
      assert AgreesOn(c, hist, t, later);
      FreshAppend(hist, f, t, later);
    }
    SweepKeeps(stored, hist + [f], now);
  }

  /** An answer that is not kept leaves only entries that have expired already. */
  lemma NotStoredKeeps(c: Cache, hist: seq<Fact>, token: string, a: Answer, now: int, clock: int)
    requires Agrees(c, hist, clock) && clock <= now && Ttl(a, now) <= 0 && Lookup(c, token, now).None?
    ensures Agrees(c, hist + [Introspected(token, now, a)], now)
  {
    hide Fresh, Ttl;
    forall t, later | now <= later ensures AgreesOn(c, hist + [Introspected(token, now, a)], t, later) {
      assert AgreesOn(c, hist, t, later);
      FreshAppend(hist, Introspected(token, now, a), t, later);
    }
  }

  lemma ForgetKeeps(c: Cache, hist: seq<Fact>, token: string, clock: int)
    requires Agrees(c, hist, clock)
    ensures Agrees(c - {token}, hist + [Forgotten(token)], clock)
  {
    hide Fresh;
    forall t, later | clock <= later ensures AgreesOn(c - {token}, hist + [Forgotten(token)], t, later) {
      assert AgreesOn(c, hist, t, later);
      FreshAppend(hist, Forgotten(token), t, later);
    }
  }

  lemma LaterAgrees(c: Cache, hist: seq<Fact>, clock: int, now: int)
    requires Agrees(c, hist, clock) && clock <= now
    ensures Agrees(c, hist, now)
  {
    forall t, later | now <= later ensures AgreesOn(c, hist, t, later) {
      assert AgreesOn(c, hist, t, later);
    }
  }

  class TokenCache {
    var entries: Cache
    ghost var hist: seq<Fact>
    ghost var clock: int

    ghost predicate Valid()
      reads this
    {
      Agrees(entries, hist, clock)
    }

    constructor (ghost now: int)
      ensures Valid() && hist == [] && clock == now
    {
      entries, hist, clock := map[], [], now;
    }

    method Get(key: string, now: int) returns (r: Option<Answer>)
      ensures r == Lookup(entries, key, now)
    {
      if key !in entries {
        return None;
      }
      var entry := entries[key];
      if now > entry.expiresAt {
        return None;
      }
      return Some(entry.answer);
    }

    method Set(key: string, e: Entry, now: int)
      modifies this`entries
      ensures entries == Stored(old(entries), key, e, now)
    {
      entries := entries[key := e];
      if |entries| > SWEEP_SIZE {
        ghost var full := entries;
        var left := entries.Keys;
        while left != {}
          invariant left <= full.Keys
          invariant entries == map k | k in full && (k in left || !(now > full[k].expiresAt)) :: full[k]
          decreases |left|
        {
          var k :| k in left;
          left := left - {k};
          if now > entries[k].expiresAt {
            entries := entries - {k};
          }
        }
      }
    }

    method Invalidate(token: string)
      requires Valid()
      modifies this
      ensures Valid() && clock == old(clock)
      ensures hist == if token == "" then old(hist) else old(hist) + [Forgotten(token)]
      ensures entries == Step(old(entries), Event.Invalidate(token), true).0
    {
      if token == "" {
        return;
      }
      ForgetKeeps(entries, hist, token, clock);
      entries := entries - {token};
      hist := hist + [Forgotten(token)];
    }

    /** The second half of a call: what the server answered is kept for as long as it may be served. */
    method Remember(token: string, now: int, upstream: Answer)
      modifies this`entries
      ensures entries == Kept(old(entries), token, upstream, now, true)
    {
      if upstream.Failed? {
        Set(token, Entry(upstream, now + NEGATIVE_TTL), now);
        return;
      }
      var ttl := MAX_POSITIVE_TTL;
      if upstream.exp > 0 {
        var remaining := upstream.exp * SECOND - now - EXP_LEEWAY;
        if remaining < ttl {
          ttl := remaining;
        }
      }
      if ttl <= 0 {
        return;
      }
      Set(token, Entry(upstream, now + ttl), now);
    }

    /** `upstream` is what the server would answer now; `asked` tells whether it was asked. */
    method IntrospectTokenCached(token: string, now: int, upstream: Answer) returns (r: Answer, asked: bool)
      requires Valid() && clock <= now
      modifies this
      ensures Valid() && clock == now
      ensures (entries, Some(r)) == Step(old(entries), Ask(token, now, upstream), true)
      ensures token == "" ==> r == upstream && asked && hist == old(hist)
      ensures token != "" ==>
        match Fresh(old(hist), token, now)
        case Some(a) => r == a && !asked && hist == old(hist)
        case None => r == upstream && asked && hist == old(hist) + [Introspected(token, now, upstream)]
    {
      hide Fresh, Stored, Agrees, Ttl;
      LaterAgrees(entries, hist, clock, now);
      clock := now;
      if token == "" {
        return upstream, true;
      }
      AgreesNow(token);
      var entry := Get(token, now);
      if entry.Some? {
        return entry.value, false;
      }
      if Ttl(upstream, now) <= 0 {
        NotStoredKeeps(entries, hist, token, upstream, now, now);
      } else {
        StoreKeeps(entries, hist, token, upstream, now, now);
      }
      Remember(token, now, upstream);
      hist := hist + [Introspected(token, now, upstream)];
      return upstream, true;
    }

    lemma AgreesNow(token: string)
      requires Valid()
      ensures Lookup(entries, token, clock) == Fresh(hist, token, clock)
    {
      assert AgreesOn(entries, hist, token, clock);
    }
  }

  // ---- What the specification promises ----

  /** The server gave this answer for this token, not long ago, and the token was not invalidated since. */
  ghost predicate Backed(hist: seq<Fact>, token: string, now: int, a: Answer, i: nat) {
    && i < |hist|
    && hist[i].Introspected? && hist[i].token == token && hist[i].answer == a
    && now - hist[i].at <= (if a.Failed? then NEGATIVE_TTL else MAX_POSITIVE_TTL)
    && (a.Claims? && a.exp > 0 ==> now <= a.exp * SECOND - EXP_LEEWAY)
    && forall j | i < j < |hist| :: hist[j].token != token
  }

  /**
   * Every answer served from the cache is the server's own last answer for that token, at most five
   * minutes old (ten seconds for a failure), not served after exp - 30s, and not invalidated.
   */
  lemma {:induction false} CachedAnswerIsBacked(hist: seq<Fact>, token: string, now: int)
    requires Fresh(hist, token, now).Some?
    ensures exists i: nat :: Backed(hist, token, now, Fresh(hist, token, now).value, i)
  {
    var last := |hist| - 1;
    if hist[last].token != token {
      CachedAnswerIsBacked(hist[..last], token, now);
      var i: nat :| Backed(hist[..last], token, now, Fresh(hist, token, now).value, i);
      assert Backed(hist, token, now, Fresh(hist, token, now).value, i);
    } else {
      assert Backed(hist, token, now, hist[last].answer, last);
    }
  }

  /** After an invalidation the next call for that token asks the server, whatever other tokens did in between. */
  lemma {:induction false} InvalidateForcesFresh(before: seq<Fact>, token: string, others: seq<Fact>, now: int)
    requires forall f | f in others :: f.token != token
    ensures Fresh(before + [Forgotten(token)] + others, token, now).None?
  {
    var hist := before + [Forgotten(token)] + others;
    if others == [] {
      assert hist == before + [Forgotten(token)];
      FreshAppend(before, Forgotten(token), token, now);
    } else {
      var rest := others[..|others| - 1];
      assert hist == before + [Forgotten(token)] + rest + [others[|others| - 1]];
      FreshAppend(before + [Forgotten(token)] + rest, others[|others| - 1], token, now);
      InvalidateForcesFresh(before, token, rest, now);
    }
  }

  /** And the other way round: an answer that may be kept is served until its time is up. */
  lemma {:induction false} ServedUntilExpiry(before: seq<Fact>, f: Fact, others: seq<Fact>, now: int)
    requires f.Introspected? && 0 < Ttl(f.answer, f.at) && forall g | g in others :: g.token != f.token
    ensures Fresh(before + [f] + others, f.token, now) == if now <= f.at + Ttl(f.answer, f.at) then Some(f.answer) else None
  {
    var hist := before + [f] + others;
    if others == [] {
      assert hist == before + [f];
      FreshAppend(before, f, f.token, now);
    } else {
      var rest := others[..|others| - 1];
      assert hist == before + [f] + rest + [others[|others| - 1]];
      FreshAppend(before + [f] + rest, others[|others| - 1], f.token, now);
      ServedUntilExpiry(before, f, rest, now);
    }
  }

  /** Ten seconds for a failure; five minutes for claims, but not within 30 seconds of their exp or later. */
  ghost predicate MayServe(a: Answer, at: int, now: int) {
    match a
    case Failed(_) => now <= at + 10_000_000_000
    case Claims(_, exp, _) =>
      now <= at + 300_000_000_000 && (exp > 0 ==> at < exp * 1_000_000_000 - 30_000_000_000 && now <= exp * 1_000_000_000 - 30_000_000_000)
  }

  lemma MayServeIff(a: Answer, at: int, now: int)
    requires at <= now
    ensures MayServe(a, at, now) <==> 0 < Ttl(a, at) && now <= at + Ttl(a, at)
  {}

  /** The server's last answer for a token is served for exactly that long. */
  lemma ServedWhile(before: seq<Fact>, token: string, at: int, a: Answer, others: seq<Fact>, now: int)
    requires at <= now && forall g | g in others :: g.token != token
    ensures Fresh(before + [Introspected(token, at, a)] + others, token, now) == if MayServe(a, at, now) then Some(a) else None
  {
    hide Ttl, MayServe, Fresh;
    var f := Introspected(token, at, a);
    MayServeIff(a, at, now);
    if 0 < Ttl(a, at) { ServedUntilExpiry(before, f, others, now); } else { NeverServed(before, f, others, now); }
  }

  lemma {:induction false} NeverServed(before: seq<Fact>, f: Fact, others: seq<Fact>, now: int)
    requires f.Introspected? && Ttl(f.answer, f.at) <= 0 && forall g | g in others :: g.token != f.token
    ensures Fresh(before + [f] + others, f.token, now) == None
    decreases |others|
  {
    hide Ttl;
    if others == [] {
      assert before + [f] + others == before + [f];
      FreshAppend(before, f, f.token, now);
    } else {
      var rest := others[..|others| - 1];
      assert before + [f] + others == before + [f] + rest + [others[|others| - 1]];
      FreshAppend(before + [f] + rest, others[|others| - 1], f.token, now);
      NeverServed(before, f, rest, now);
    }
  }

  /** After a store the cache has at most 2048 entries, or none that has expired; none that has not is lost. */
  lemma StoreIsBounded(c: Cache, token: string, e: Entry, now: int)
    requires now <= e.expiresAt
    ensures var r := Stored(c, token, e, now);
      && token in r && r[token] == e
      && (|r| <= 2048 || forall k | k in r :: now <= r[k].expiresAt)
      && (forall k | k in c && k != token && now <= c[k].expiresAt :: k in r && r[k] == c[k])
      && (|c[token := e]| <= 2048 ==> r == c[token := e])
  {}

  // ---- The sweep, over whole runs ----

  function Answers(c: Cache, events: seq<Event>, sweeping: bool): seq<Option<Answer>>
    decreases |events|
  {
    if events == [] then []
    else [Step(c, events[0], sweeping).1] + Answers(Step(c, events[0], sweeping).0, events[1..], sweeping)
  }

  /** The latest clock reading once the event has happened. */
  function Reading(e: Event, clock: int): int { if e.Ask? then e.at else clock }

  predicate Ordered(events: seq<Event>, clock: int)
    decreases |events|
  {
    if events == [] then true
    else clock <= Reading(events[0], clock) && Ordered(events[1..], Reading(events[0], clock))
  }

  ghost predicate SameServed(c: Cache, d: Cache, clock: int) {
    forall token, now | clock <= now :: Lookup(c, token, now) == Lookup(d, token, now)
  }

  lemma SameAfter(c: Cache, d: Cache, e: Event, clock: int)
    requires SameServed(c, d, clock) && (e.Ask? ==> clock <= e.at)
    ensures Step(c, e, true).1 == Step(d, e, false).1
    ensures SameServed(Step(c, e, true).0, Step(d, e, false).0, Reading(e, clock))
  {
    hide Ttl;
    var now := Reading(e, clock);
    forall token, later | now <= later
      ensures Lookup(Step(c, e, true).0, token, later) == Lookup(Step(d, e, false).0, token, later)
    {
      assert Lookup(c, token, later) == Lookup(d, token, later);
      assert e.Ask? ==> Lookup(c, e.token, e.at) == Lookup(d, e.token, e.at);
    }
  }

  /** With or without the sweep every call of every run gets the same answer. */
  lemma {:induction false} SweepIsInvisible(c: Cache, d: Cache, events: seq<Event>, clock: int)
    requires SameServed(c, d, clock) && Ordered(events, clock)
    ensures Answers(c, events, true) == Answers(d, events, false)
    decreases |events|
  {
    hide Step, SameServed;
    if events != [] {
      SameAfter(c, d, events[0], clock);
      var next, plain := Step(c, events[0], true).0, Step(d, events[0], false).0;
      SweepIsInvisible(next, plain, events[1..], Reading(events[0], clock));
    }
  }
}
