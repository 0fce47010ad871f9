/** What the calls to named users deliver, in every interleaving of module HubRuns: who gets which message, and in what order. */
module HubCalls {
  import opened Common
  import opened WsHub
  import opened HubRuns

  /** One call: whom it is for, and who is connected when it takes the read lock. */
  datatype Call = Call(users: set<string>, msg: string, present: set<Client>)

  /** A run with its history: all calls so far, what each client got of them in order, and each caller's present call. */
  datatype History = History(s: State, calls: seq<Call>, got: map<Client, seq<nat>>, at: map<nat, nat>)

  function Got(h: History, c: Client): seq<nat> { if c in h.got then h.got[c] else [] }

  function Note(h: History, a: Act, maxGlobal: nat): History {
    var r := h.(s := Step(h.s, a, maxGlobal));
    if !Enabled(h.s, a, maxGlobal) then r
    else match a
      case CallUsers(id, users, msg) =>
        r.(calls := h.calls + [Call(users, msg, h.s.t.clients)], at := h.at[id := |h.calls|])
      case Send(who, c, full) =>
        if who.Caller? && who.id in h.at && !full then r.(got := h.got[c := Got(h, c) + [h.at[who.id]]]) else r
      case _ => r
  }

  function NoteAll(h: History, acts: seq<Act>, maxGlobal: nat): History
    decreases |acts|
  {
    if acts == [] then h else NoteAll(Note(h, acts[0], maxGlobal), acts[1..], maxGlobal)
  }

  function Start(): History { History(Initial(), [], map[], map[]) }

  /** The history only watches. */
  lemma {:induction false} OnlyWatches(h: History, acts: seq<Act>, maxGlobal: nat)
    ensures NoteAll(h, acts, maxGlobal).s == Run(h.s, acts, maxGlobal)
    decreases |acts|
  {
    hide Step, Enabled;
    if acts != [] { OnlyWatches(Note(h, acts[0], maxGlobal), acts[1..], maxGlobal); }
  }

  // ---- The invariant ----

  /** What reached the client from calls to named users, in order. */
  function Private(stream: seq<Entry>): seq<Entry> {
    if stream == [] then []
    else
      var last := stream[|stream| - 1];
      Private(stream[..|stream| - 1]) + (if last.ToUsers? then [last] else [])
  }

  lemma PrivateAppend(stream: seq<Entry>, e: Entry)
    ensures Private(stream + [e]) == Private(stream) + (if e.ToUsers? then [e] else [])
  {
    assert (stream + [e])[..|stream|] == stream;
  }

  predicate AreCalls(calls: seq<Call>, which: seq<nat>) { forall k | 0 <= k < |which| :: which[k] < |calls| }

  /** The messages of these calls. */
  function Messages(calls: seq<Call>, which: seq<nat>): seq<Entry>
    requires AreCalls(calls, which)
  {
    if which == [] then []
    else
      var i := which[|which| - 1];
      Messages(calls, which[..|which| - 1]) + [ToUsers(calls[i].users, calls[i].msg)]
  }

  lemma MessagesAppend(calls: seq<Call>, which: seq<nat>, i: nat)
    requires AreCalls(calls, which) && i < |calls|
    ensures AreCalls(calls, which + [i])
    ensures Messages(calls, which + [i]) == Messages(calls, which) + [ToUsers(calls[i].users, calls[i].msg)]
  {
    assert (which + [i])[..|which|] == which;
  }

  lemma {:induction false} MoreCalls(calls: seq<Call>, which: seq<nat>, c: Call)
    requires AreCalls(calls, which)
    ensures Messages(calls + [c], which) == Messages(calls, which)
    decreases |which|
  {
    if which != [] { MoreCalls(calls, which[..|which| - 1], c); }
  }

  ghost predicate IsFor(calls: seq<Call>, i: nat, c: Client) {
    i < |calls| && c in calls[i].present && c.user in calls[i].users
  }

  /** The client has got different calls, all of them for it, and these make up its private messages. */
  ghost predicate GotRight(h: History, c: Client) {
    && AreCalls(h.calls, Got(h, c))
    && (forall k | 0 <= k < |Got(h, c)| :: IsFor(h.calls, Got(h, c)[k], c))
    && (forall j, k | 0 <= j < k < |Got(h, c)| :: Got(h, c)[j] != Got(h, c)[k])
    && Private(Stream(h.s.t, c)) == Messages(h.calls, Got(h, c))
  }

  ghost predicate CallerOk(h: History, id: nat) {
    && id in h.at && h.at[id] < |h.calls|
    && Caller(id) in h.s.phases
    && var p, call := h.s.phases[Caller(id)], h.calls[h.at[id]];
    && !p.Counted?
    && (p.Sending? ==> p.e == ToUsers(call.users, call.msg))
    && (p.Sending? ==> forall c | c in p.left :: c in call.present && c.user in call.users && h.at[id] !in Got(h, c))
  }

  /** The caller has still to send to the client, or to evict it. */
  ghost predicate IsWaiting(h: History, id: nat, c: Client, i: nat) {
    && Caller(id) in h.s.phases && id in h.at && h.at[id] == i
    && match h.s.phases[Caller(id)]
      case Counted(_) => false
      case Sending(_, left, dead) => c in left || c in dead
      case Evicting(dead) => c in dead
  }

  /** A connected client that a call is for gets it, or a caller is not done with it. */
  ghost predicate Reached(h: History, c: Client, i: nat) {
    i in Got(h, c) || exists id :: IsWaiting(h, id, c, i)
  }

  ghost predicate CallsOk(h: History) {
    && (forall c :: GotRight(h, c))
    && (forall id | Caller(id) in h.s.phases :: CallerOk(h, id))
    && (forall id, other | Caller(id) in h.s.phases && Caller(other) in h.s.phases && id != other :: Differ(h, id, other))
    && (forall c, i | c in h.s.t.clients && IsFor(h.calls, i, c) :: Reached(h, c, i))
    && (forall i | 0 <= i < |h.calls| :: h.calls[i].present <= h.s.since.Keys)
  }

  ghost predicate Differ(h: History, id: nat, other: nat) { id in h.at && other in h.at ==> h.at[id] != h.at[other] }

  /** An act that sends and calls nothing, and takes no waiting client from a caller but by removing it. */
  ghost predicate Leaves(h: History, r: History) {
    && r.calls == h.calls && r.got == h.got && r.at == h.at
    && (forall c :: Stream(r.s.t, c) == Stream(h.s.t, c))
    && (forall c | c in r.s.t.clients :: c in h.s.t.clients || c !in h.s.since)
    && h.s.since.Keys <= r.s.since.Keys
    && (forall id | Caller(id) in r.s.phases :: CallerSame(h, r, id))
    && (forall id, c, i | c in r.s.t.clients && IsWaiting(h, id, c, i) :: IsWaiting(r, id, c, i))
  }

  /** The caller is as it was, or has nothing left to send. */
  ghost predicate CallerSame(h: History, r: History, id: nat) {
    && Caller(id) in h.s.phases && Caller(id) in r.s.phases
    && (r.s.phases[Caller(id)] == h.s.phases[Caller(id)] || r.s.phases[Caller(id)].Evicting?)
  }

  lemma LeavesKeeps(h: History, r: History)
    requires CallsOk(h) && Leaves(h, r)
    ensures CallsOk(r)
  {
    hide Private, Messages, IsWaiting, Stream;
    forall c ensures GotRight(r, c) { assert GotRight(h, c); }
    forall id | Caller(id) in r.s.phases ensures CallerOk(r, id) {
      assert CallerSame(h, r, id) && CallerOk(h, id);
    }
    forall id, other | Caller(id) in r.s.phases && Caller(other) in r.s.phases && id != other ensures Differ(r, id, other) {
      assert CallerSame(h, r, id) && CallerSame(h, r, other) && Differ(h, id, other);
    }
    forall c, i | c in r.s.t.clients && IsFor(r.calls, i, c) ensures Reached(r, c, i) {
      assert Reached(h, c, i);
      if i !in Got(h, c) {
        var id :| IsWaiting(h, id, c, i);
        assert IsWaiting(r, id, c, i);
      }
    }
  }

  lemma NoneEnabled(h: History, a: Act, maxGlobal: nat)
    ensures !Enabled(h.s, a, maxGlobal) ==> Note(h, a, maxGlobal) == h
  {}

  lemma NewcomersAreNew(s: State)
    requires Inv(s)
    ensures s.pending !! s.since.Keys && s.t.clients <= s.since.Keys
  {
    hide PhasesOk, StreamsOk, OnlyAddressed, CountsOk;
  }

  /** Everything but a caller's call and the sends. */
  lemma OthersLeave(h: History, a: Act, maxGlobal: nat)
    requires Inv(h.s) && CallsOk(h) && Enabled(h.s, a, maxGlobal) && !a.CallUsers? && !a.Send?
    ensures Leaves(h, Note(h, a, maxGlobal))
  {
    hide Inv, CallsOk, Addressed, Reading, Admits, Lowered, Count;
    NewcomersAreNew(h.s);
    if a.Unlock? || a.Evict? { LocksLeave(h, a, maxGlobal); } else { TableLeaves(h, a, maxGlobal); }
  }

  lemma TableLeaves(h: History, a: Act, maxGlobal: nat)
    requires Enabled(h.s, a, maxGlobal) && !a.CallUsers? && !a.Send? && !a.Unlock? && !a.Evict?
    requires h.s.pending !! h.s.since.Keys
    ensures Leaves(h, Note(h, a, maxGlobal))
  {
    hide Addressed, Reading, Admits, Lowered, Count;
    var r := Note(h, a, maxGlobal);
    forall c ensures Stream(r.s.t, c) == Stream(h.s.t, c) {}
    forall id | Caller(id) in r.s.phases ensures CallerSame(h, r, id) {}
    forall id, c, i | c in r.s.t.clients && IsWaiting(h, id, c, i) ensures IsWaiting(r, id, c, i) {}
  }

  lemma LocksLeave(h: History, a: Act, maxGlobal: nat)
    requires Enabled(h.s, a, maxGlobal) && (a.Unlock? || a.Evict?)
    ensures Leaves(h, Note(h, a, maxGlobal))
  {
    hide Addressed, Reading;
    var r := Note(h, a, maxGlobal);
    forall id | Caller(id) in r.s.phases ensures CallerSame(h, r, id) {}
    forall id, c, i | c in r.s.t.clients && IsWaiting(h, id, c, i) ensures IsWaiting(r, id, c, i) {}
  }

  /** The event loop sends public messages only, and leaves the callers alone. */
  lemma LoopSends(h: History, c: Client, full: bool, maxGlobal: nat)
    requires Inv(h.s) && CallsOk(h) && Enabled(h.s, Act.Send(Loop, c, full), maxGlobal)
    ensures CallsOk(Note(h, Act.Send(Loop, c, full), maxGlobal))
  {
    hide Inv, GotRight, CallerOk, IsFor, Reached, Reading;
    var r := Note(h, Act.Send(Loop, c, full), maxGlobal);
    LoopPublic(h.s);
    forall d ensures GotRight(r, d) { LoopGot(h, r, c, full, d); }
    forall id | Caller(id) in r.s.phases ensures CallerOk(r, id) {
      assert CallerOk(h, id);
      LoopCaller(h, r, id);
    }
    forall id, other | Caller(id) in r.s.phases && Caller(other) in r.s.phases && id != other ensures Differ(r, id, other) {
      assert Differ(h, id, other);
    }
    forall d, i | d in r.s.t.clients && IsFor(r.calls, i, d) ensures Reached(r, d, i) {
      LoopReached(h, r, d, i);
    }
  }

  lemma LoopGot(h: History, r: History, c: Client, full: bool, d: Client)
    requires GotRight(h, d) && r.calls == h.calls && r.got == h.got
    requires Loop in h.s.phases && h.s.phases[Loop].Sending? && h.s.phases[Loop].e.ToAll?
    requires r.s.t == if full then h.s.t else Delivered(h.s.t, c, h.s.phases[Loop].e)
    ensures GotRight(r, d)
  {
    hide Private, Messages;
    PrivateAppend(Stream(h.s.t, c), h.s.phases[Loop].e);
  }

  lemma LoopCaller(h: History, r: History, id: nat)
    requires CallerOk(h, id) && r.calls == h.calls && r.got == h.got && r.at == h.at
    requires Caller(id) in r.s.phases && r.s.phases[Caller(id)] == h.s.phases[Caller(id)]
    ensures CallerOk(r, id)
  {}

  lemma LoopReached(h: History, r: History, d: Client, i: nat)
    requires Reached(h, d, i) && r.got == h.got && r.at == h.at && Loop in r.s.phases
    requires r.s.phases == h.s.phases[Loop := r.s.phases[Loop]]
    ensures Reached(r, d, i)
  {
    if i !in Got(h, d) {
      var id :| IsWaiting(h, id, d, i);
      assert IsWaiting(r, id, d, i);
    }
  }

  lemma LoopPublic(s: State)
    requires Inv(s) && Loop in s.phases && s.phases[Loop].Sending?
    ensures s.phases[Loop].e.ToAll?
  {
    hide ChannelsOk, StreamsOk, OnlyAddressed, CountsOk, Addressed;
    assert PhaseOk(s, Loop);
  }

  /** A caller has taken the read lock. */
  ghost predicate OneCalled(h: History, r: History, id: nat, users: set<string>, msg: string) {
    && r.calls == h.calls + [Call(users, msg, h.s.t.clients)] && r.at == h.at[id := |h.calls|] && r.got == h.got
    && r.s.t == h.s.t && r.s.since == h.s.since && Caller(id) !in h.s.phases
    && Caller(id) in r.s.phases && r.s.phases == h.s.phases[Caller(id) := r.s.phases[Caller(id)]]
    && r.s.phases[Caller(id)].Sending? && r.s.phases[Caller(id)].e == ToUsers(users, msg)
    && forall c :: c in r.s.phases[Caller(id)].left <==> c in h.s.t.clients && c.user in users
  }

  lemma CalledIs(h: History, id: nat, users: set<string>, msg: string, maxGlobal: nat)
    requires Enabled(h.s, CallUsers(id, users, msg), maxGlobal)
    ensures OneCalled(h, Note(h, CallUsers(id, users, msg), maxGlobal), id, users, msg)
  {}

  lemma CalledGot(h: History, r: History, id: nat, users: set<string>, msg: string, c: Client)
    requires GotRight(h, c) && OneCalled(h, r, id, users, msg)
    ensures GotRight(r, c) && |h.calls| !in Got(r, c)
  {
    hide Private, Messages;
    MoreCalls(h.calls, Got(h, c), Call(users, msg, h.s.t.clients));
  }

  lemma CalledReached(h: History, r: History, id: nat, users: set<string>, msg: string, c: Client, i: nat)
    requires OneCalled(h, r, id, users, msg) && c in h.s.t.clients && IsFor(r.calls, i, c)
    requires IsFor(h.calls, i, c) ==> Reached(h, c, i)
    ensures Reached(r, c, i)
  {
    if i == |h.calls| {
      assert IsWaiting(r, id, c, i);
    } else if i !in Got(h, c) {
      assert IsFor(h.calls, i, c);
      var k :| IsWaiting(h, k, c, i);
      assert IsWaiting(r, k, c, i);
    }
  }

  lemma NewCall(h: History, id: nat, users: set<string>, msg: string, maxGlobal: nat)
    requires Inv(h.s) && CallsOk(h) && Enabled(h.s, CallUsers(id, users, msg), maxGlobal)
    ensures CallsOk(Note(h, CallUsers(id, users, msg), maxGlobal))
  {
    hide Inv, GotRight, IsFor, Reached, Enabled, Note;
    var r := Note(h, CallUsers(id, users, msg), maxGlobal);
    NewcomersAreNew(h.s);
    CalledIs(h, id, users, msg, maxGlobal);
    forall c ensures GotRight(r, c) && |h.calls| !in Got(r, c) { CalledGot(h, r, id, users, msg, c); }
    forall other | Caller(other) in r.s.phases ensures CallerOk(r, other) {
      if other != id { assert CallerOk(h, other); }
    }
    forall k, other | Caller(k) in r.s.phases && Caller(other) in r.s.phases && k != other ensures Differ(r, k, other) {
      if k != id { assert CallerOk(h, k); }
      if other != id { assert CallerOk(h, other); }
      assert k != id && other != id ==> Differ(h, k, other);
    }
    forall c, i | c in r.s.t.clients && IsFor(r.calls, i, c) ensures Reached(r, c, i) {
      CalledReached(h, r, id, users, msg, c, i);
    }
  }

  /** A caller has sent to one client, or found its channel full. */
  ghost predicate OneSent(h: History, r: History, id: nat, c: Client, full: bool)
    requires Caller(id) in h.s.phases && h.s.phases[Caller(id)].Sending? && id in h.at
  {
    var p := h.s.phases[Caller(id)];
    && c in p.left && r.calls == h.calls && r.at == h.at && r.s.t.clients == h.s.t.clients && r.s.since == h.s.since
    && r.s.phases == h.s.phases[Caller(id) := Sending(p.e, p.left - {c}, if full then p.dead + {c} else p.dead)]
    && r.got == (if full then h.got else h.got[c := Got(h, c) + [h.at[id]]])
    && (forall d :: Stream(r.s.t, d) == if d == c && !full then Stream(h.s.t, d) + [p.e] else Stream(h.s.t, d))
  }

  lemma SentIs(h: History, id: nat, c: Client, full: bool, maxGlobal: nat)
    requires id in h.at && Enabled(h.s, Act.Send(Caller(id), c, full), maxGlobal)
    ensures OneSent(h, Note(h, Act.Send(Caller(id), c, full), maxGlobal), id, c, full)
  {
    hide Reading;
  }

  lemma SentGot(h: History, r: History, id: nat, c: Client, full: bool, d: Client)
    requires GotRight(h, d) && CallerOk(h, id) && h.s.phases[Caller(id)].Sending? && OneSent(h, r, id, c, full)
    ensures GotRight(r, d)
  {
    hide Private, Messages;
    if d == c && !full {
      PrivateAppend(Stream(h.s.t, c), h.s.phases[Caller(id)].e);
      MessagesAppend(h.calls, Got(h, c), h.at[id]);
    }
  }

  lemma SentCaller(h: History, r: History, id: nat, c: Client, full: bool, other: nat)
    requires CallerOk(h, id) && h.s.phases[Caller(id)].Sending? && OneSent(h, r, id, c, full)
    requires CallerOk(h, other) && (other != id ==> Differ(h, id, other))
    ensures CallerOk(r, other)
  {
    forall d | d != c || full ensures Got(r, d) == Got(h, d) {}
    assert !full ==> Got(r, c) == Got(h, c) + [h.at[id]];
  }

  lemma SentReached(h: History, r: History, id: nat, c: Client, full: bool, d: Client, i: nat)
    requires CallerOk(h, id) && h.s.phases[Caller(id)].Sending? && OneSent(h, r, id, c, full) && Reached(h, d, i)
    ensures Reached(r, d, i)
  {
    if i in Got(h, d) {
      assert Got(h, d) <= Got(r, d);
    } else {
      var k :| IsWaiting(h, k, d, i);
      if k == id && d == c && !full {
        assert Got(r, c)[|Got(h, c)|] == i;
      } else {
        assert IsWaiting(r, k, d, i);
      }
    }
  }

  lemma CallerSends(h: History, id: nat, c: Client, full: bool, maxGlobal: nat)
    requires CallsOk(h) && Enabled(h.s, Act.Send(Caller(id), c, full), maxGlobal)
    ensures CallsOk(Note(h, Act.Send(Caller(id), c, full), maxGlobal))
  {
    hide GotRight, Reached, CallerOk, Enabled, Note, IsFor;
    var r := Note(h, Act.Send(Caller(id), c, full), maxGlobal);
    SendingNow(h, id, c, full, maxGlobal);
    SentIs(h, id, c, full, maxGlobal);
    forall d ensures GotRight(r, d) { SentGot(h, r, id, c, full, d); }
    forall other | Caller(other) in r.s.phases ensures CallerOk(r, other) {
      assert other != id ==> Differ(h, id, other);
      SentCaller(h, r, id, c, full, other);
    }
    forall k, other | Caller(k) in r.s.phases && Caller(other) in r.s.phases && k != other ensures Differ(r, k, other) {
      assert Differ(h, k, other);
    }
    forall d, i | d in r.s.t.clients && IsFor(r.calls, i, d) ensures Reached(r, d, i) {
      SentReached(h, r, id, c, full, d, i);
    }
  }

  lemma SendingNow(h: History, id: nat, c: Client, full: bool, maxGlobal: nat)
    requires CallsOk(h) && Enabled(h.s, Act.Send(Caller(id), c, full), maxGlobal)
    ensures Caller(id) in h.s.phases && h.s.phases[Caller(id)].Sending? && CallerOk(h, id)
  {
    assert CallerOk(h, id);
  }

  /** Every act keeps it. */
  lemma NoteKeeps(h: History, a: Act, maxGlobal: nat)
    requires Inv(h.s) && CallsOk(h)
    ensures Inv(Note(h, a, maxGlobal).s) && CallsOk(Note(h, a, maxGlobal))
  {
    hide Inv, CallsOk, Enabled, Leaves;
    StepKeeps(h.s, a, maxGlobal);
    if Enabled(h.s, a, maxGlobal) {
      match a
      case CallUsers(id, users, msg) => NewCall(h, id, users, msg, maxGlobal);
      case Send(who, c, full) =>
        if who.Caller? { CallerSends(h, who.id, c, full, maxGlobal); } else { LoopSends(h, c, full, maxGlobal); }
      case _ =>
        OthersLeave(h, a, maxGlobal);
        LeavesKeeps(h, Note(h, a, maxGlobal));
    }
  }

  lemma {:induction false} EveryRunDelivers(h: History, acts: seq<Act>, maxGlobal: nat)
    requires Inv(h.s) && CallsOk(h)
    ensures Inv(NoteAll(h, acts, maxGlobal).s) && CallsOk(NoteAll(h, acts, maxGlobal))
    decreases |acts|
  {
    hide Inv, CallsOk, Note;
    if acts != [] {
      NoteKeeps(h, acts[0], maxGlobal);
      EveryRunDelivers(Note(h, acts[0], maxGlobal), acts[1..], maxGlobal);
    }
  }

  lemma StartOk()
    ensures Inv(Start().s) && CallsOk(Start())
  {
    InitialOk();
  }

  /**
   * When no call is under way, the private messages of a connected client are those of exactly the
   * calls made for it while it was connected, each of them once.
   */
  lemma UserMessagesAreExact(acts: seq<Act>, maxGlobal: nat, c: Client)
    requires var h := NoteAll(Start(), acts, maxGlobal);
      c in h.s.t.clients && forall a | a in h.s.phases :: a.Loop?
    ensures var h := NoteAll(Start(), acts, maxGlobal);
      && h.s == Run(Initial(), acts, maxGlobal)
      && (forall i: nat :: i in Got(h, c) <==> i < |h.calls| && c in h.calls[i].present && c.user in h.calls[i].users)
      && (forall j, k | 0 <= j < k < |Got(h, c)| :: Got(h, c)[j] != Got(h, c)[k])
      && AreCalls(h.calls, Got(h, c)) && Private(Stream(h.s.t, c)) == Messages(h.calls, Got(h, c))
  {
    hide Inv, NoteAll, Private, Messages, Run;
    OnlyWatches(Start(), acts, maxGlobal);
    StartOk();
    EveryRunDelivers(Start(), acts, maxGlobal);
    var h := NoteAll(Start(), acts, maxGlobal);
    assert GotRight(h, c);
    forall i: nat | IsFor(h.calls, i, c) ensures i in Got(h, c) { assert Reached(h, c, i); }
    forall i: nat | i in Got(h, c) ensures IsFor(h.calls, i, c) {
      var k :| 0 <= k < |Got(h, c)| && Got(h, c)[k] == i;
    }
  }

  // ---- Calls that do not overlap ----

  ghost predicate NobodySends(h: History) { forall id: nat :: Caller(id) in h.s.phases ==> !h.s.phases[Caller(id)].Sending? }

  ghost predicate OneAtATime(h: History, acts: seq<Act>, maxGlobal: nat)
    decreases |acts|
  {
    acts == [] ||
    (&& (acts[0].CallUsers? && Enabled(h.s, acts[0], maxGlobal) ==> NobodySends(h))
     && OneAtATime(Note(h, acts[0], maxGlobal), acts[1..], maxGlobal))
  }

  ghost predicate Rising(which: seq<nat>, bound: int) {
    (forall j, k | 0 <= j < k < |which| :: which[j] < which[k]) && AllBelow(which, bound)
  }

  ghost predicate AllBelow(which: seq<nat>, bound: int) { forall k | 0 <= k < |which| :: which[k] < bound }

  ghost predicate IsSending(h: History, id: nat) { Caller(id) in h.s.phases && h.s.phases[Caller(id)].Sending? }

  /** A caller that is sending has the last call, and none of those it has still to serve has got it. */
  ghost predicate LastCall(h: History, id: nat)
    requires IsSending(h, id)
  {
    && id in h.at && h.at[id] == |h.calls| - 1
    && forall c | c in h.s.phases[Caller(id)].left :: AllBelow(Got(h, c), h.at[id])
  }

  ghost predicate Rises(h: History) {
    && (forall c :: Rising(Got(h, c), |h.calls|))
    && (forall id | IsSending(h, id) :: LastCall(h, id))
    && (forall id, other | IsSending(h, id) && IsSending(h, other) :: id == other)
  }

  lemma NoteRises(h: History, a: Act, maxGlobal: nat)
    requires Rises(h) && (a.CallUsers? && Enabled(h.s, a, maxGlobal) ==> NobodySends(h))
    ensures Rises(Note(h, a, maxGlobal))
  {
    hide Enabled, Rises, NobodySends;
    NoneEnabled(h, a, maxGlobal);
    if Enabled(h.s, a, maxGlobal) {
      match a
      case CallUsers(id, users, msg) =>
        CalledIs(h, id, users, msg, maxGlobal);
        CallRises(h, Note(h, a, maxGlobal), id, users, msg);
      case Send(who, c, full) =>
        if who.Caller? { SendRises(h, who.id, c, full, maxGlobal); } else { OtherRises(h, a, maxGlobal); }
      case _ => OtherRises(h, a, maxGlobal);
    }
  }

  lemma CallRises(h: History, r: History, id: nat, users: set<string>, msg: string)
    requires Rises(h) && NobodySends(h) && OneCalled(h, r, id, users, msg)
    ensures Rises(r)
  {
    forall c ensures Rising(Got(r, c), |r.calls|) && AllBelow(Got(r, c), |h.calls|) {
      assert Got(r, c) == Got(h, c) && Rising(Got(h, c), |h.calls|);
    }
    forall k | IsSending(r, k) ensures k == id {}
  }

  lemma SendRises(h: History, id: nat, c: Client, full: bool, maxGlobal: nat)
    requires Rises(h) && Enabled(h.s, Act.Send(Caller(id), c, full), maxGlobal)
    ensures Rises(Note(h, Act.Send(Caller(id), c, full), maxGlobal))
  {
    hide Note, Reading;
    var r := Note(h, Act.Send(Caller(id), c, full), maxGlobal);
    assert IsSending(h, id) && LastCall(h, id);
    SentIs(h, id, c, full, maxGlobal);
    forall d ensures Rising(Got(r, d), |r.calls|) && (d != c ==> Got(r, d) == Got(h, d)) {
      assert Rising(Got(h, d), |h.calls|);
      assert d == c && !full ==> Got(r, d) == Got(h, d) + [h.at[id]];
    }
    forall k | IsSending(r, k) ensures k == id { assert IsSending(h, k); }
  }

  lemma OtherRises(h: History, a: Act, maxGlobal: nat)
    requires Rises(h) && Enabled(h.s, a, maxGlobal) && !a.CallUsers? && !(a.Send? && a.who.Caller?)
    ensures Rises(Note(h, a, maxGlobal))
  {
    hide Addressed, Reading, Admits, Lowered, Count, Delivered, Stream;
    var r := Note(h, a, maxGlobal);
    forall c ensures Got(r, c) == Got(h, c) && Rising(Got(r, c), |r.calls|) { assert Rising(Got(h, c), |h.calls|); }
    forall id | IsSending(r, id) ensures IsSending(h, id) && LastCall(r, id) {
      assert IsSending(h, id) && LastCall(h, id);
    }
  }

  lemma {:induction false} RunRises(h: History, acts: seq<Act>, maxGlobal: nat)
    requires Rises(h) && OneAtATime(h, acts, maxGlobal)
    ensures Rises(NoteAll(h, acts, maxGlobal))
    decreases |acts|
  {
    hide Rises, Note, Enabled, NobodySends;
    if acts != [] {
      NoteRises(h, acts[0], maxGlobal);
      RunRises(Note(h, acts[0], maxGlobal), acts[1..], maxGlobal);
    }
  }

  /** Calls of which no two send at the same time reach every client in the order in which they were made. */
  lemma InCallOrder(acts: seq<Act>, maxGlobal: nat, c: Client)
    requires OneAtATime(Start(), acts, maxGlobal)
    ensures var h := NoteAll(Start(), acts, maxGlobal);
      forall j, k | 0 <= j < k < |Got(h, c)| :: Got(h, c)[j] < Got(h, c)[k]
  {
    hide NoteAll, OneAtATime;
    RunRises(Start(), acts, maxGlobal);
    assert Rising(Got(NoteAll(Start(), acts, maxGlobal), c), |NoteAll(Start(), acts, maxGlobal).calls|);
  }

  // ---- One call, or one broadcast, with nothing in between ----

  /** Whom one message reaches: who is addressed and has room gets it, who is addressed and has none is removed. */
  lemma BroadcastReaches(t: Table, e: Entry, full: set<Client>, c: Client)
    ensures var to := Addressed(t.clients, e);
      var r := Evicted(DeliveredAll(t, to - full, e), to * full);
      && Stream(r, c) == Stream(t, c) + (if c in t.clients && (e.ToUsers? ==> c.user in e.users) && c !in full then [e] else [])
      && (c in r.clients <==> c in t.clients && !((e.ToUsers? ==> c.user in e.users) && c in full))
      && (c in r.closed <==> c in t.closed || (c in t.clients && (e.ToUsers? ==> c.user in e.users) && c in full))
      && r.conns == t.conns
  {}

  /** A call's own steps: every named user's client gets the message exactly once, if it has room. */
  lemma CallReaches(
    s: State, id: nat, users: set<string>, msg: string, order: seq<Client>, full: set<Client>, maxGlobal: nat, c: Client)
    requires Caller(id) !in s.phases && !Reading(s)
    requires forall d :: d in order <==> d in s.t.clients && d.user in users
    requires forall i, j | 0 <= i < j < |order| :: order[i] != order[j]
    ensures var r := Run(s, BroadcastActs(id, users, msg, order, full), maxGlobal);
      Stream(r.t, c) == Stream(s.t, c) + (if c in s.t.clients && c.user in users && c !in full then [ToUsers(users, msg)] else [])
  {
    hide Run, DeliveredAll, Evicted, Stream, Reading, BroadcastActs;
    InOrder(s, users, msg, order);
    UninterruptedIsBroadcast(s, id, users, msg, order, full, maxGlobal);
    BroadcastReaches(s.t, ToUsers(users, msg), full, c);
  }

  lemma InOrder(s: State, users: set<string>, msg: string, order: seq<Client>)
    requires forall d :: d in order <==> d in s.t.clients && d.user in users
    ensures AsSet(order) == Addressed(s.t.clients, ToUsers(users, msg))
  {}
}
