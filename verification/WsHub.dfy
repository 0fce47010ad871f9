/**
 * The WebSocket hub of internal/control/ws_hub.go. The hub's tables are a class whose methods are
 * the lock sections; any number of broadcasters and handlers interleave them in the state machine
 * of module HubRuns.
 */
module WsHub {
  import opened Common

  /** One connection: every handler makes its own. */
  datatype Client = Client(id: nat, user: string)

  datatype Entry = ToAll(msg: string) | ToUsers(users: set<string>, msg: string)

  /** The hub's maps, and per client channel what was sent on it and whether it was closed. */
  datatype Table = Table(
    clients: set<Client>, conns: map<string, int>, closed: set<Client>, sent: map<Client, seq<Entry>>, panicked: bool)

  function NewTable(): Table { Table({}, map[], {}, map[], false) }

  function Count(conns: map<string, int>, user: string): int { if user in conns then conns[user] else 0 }

  function Stream(t: Table, c: Client): seq<Entry> { if c in t.sent then t.sent[c] else [] }

  /** Registration. */
  function Opened(t: Table, c: Client): Table {
    t.(clients := t.clients + {c}, conns := t.conns[c.user := Count(t.conns, c.user) + 1], sent := t.sent[c := Stream(t, c)])
  }

  function Lowered(conns: map<string, int>, user: string): map<string, int> {
    if Count(conns, user) - 1 <= 0 then conns - {user} else conns[user := Count(conns, user) - 1]
  }

  /** Closing a closed channel panics. */
  function WithClosed(t: Table, gone: set<Client>): Table {
    t.(clients := t.clients - gone, closed := t.closed + gone, panicked := t.panicked || gone * t.closed != {})
  }

  /** Unregistration: nothing happens to a client that is no longer in the table. */
  function Dropped(t: Table, c: Client): Table {
    if c !in t.clients then t else WithClosed(t, {c}).(conns := Lowered(t.conns, c.user))
  }

  /** Eviction of those of `dead` that are still in the table. The counters are left alone. */
  function Evicted(t: Table, dead: set<Client>): Table { WithClosed(t, dead * t.clients) }

  /** Sending on a closed channel panics. */
  function Delivered(t: Table, c: Client, e: Entry): Table {
    t.(sent := t.sent[c := Stream(t, c) + [e]], panicked := t.panicked || c in t.closed)
  }

  /** All of `to` served with the same entry. */
  function DeliveredAll(t: Table, to: set<Client>, e: Entry): Table {
    t.(sent := map c | c in t.sent.Keys + to :: if c in to then Stream(t, c) + [e] else t.sent[c],
       panicked := t.panicked || to * t.closed != {})
  }

  function Addressed(clients: set<Client>, e: Entry): set<Client> {
    set c | c in clients && (e.ToUsers? ==> c.user in e.users)
  }

  lemma AddressedAre(clients: set<Client>, e: Entry)
    ensures forall c :: c in Addressed(clients, e) <==> c in clients && (e.ToUsers? ==> c.user in e.users)
  {}

  function AsSet(list: seq<Client>): set<Client> { set c | c in list }

  lemma NoneNamed()
    ensures AsSet([]) == {}
  {}

  lemma AsSetAppend(list: seq<Client>, c: Client)
    ensures AsSet(list + [c]) == AsSet(list) + {c}
  {}

  lemma NoneServed(t: Table, e: Entry)
    ensures DeliveredAll(t, {}, e) == t
  {
    assert {} * t.closed == {};
    assert t.sent == DeliveredAll(t, {}, e).sent;
  }

  /** Serving a set of clients is serving them one after the other. */
  lemma OneMore(t: Table, to: set<Client>, c: Client, e: Entry)
    requires c !in to
    ensures DeliveredAll(t, to + {c}, e) == Delivered(DeliveredAll(t, to, e), c, e)
  {
    assert (to + {c}) * t.closed == to * t.closed + (if c in t.closed then {c} else {});
    assert DeliveredAll(t, to + {c}, e).sent == Delivered(DeliveredAll(t, to, e), c, e).sent;
  }

  class Hub {
    var clients: set<Client>
    var userConns: map<string, int>
    var closed: set<Client>
    var sent: map<Client, seq<Entry>>

    function Now(): Table
      reads this
    {
      Table(clients, userConns, closed, sent, false)
    }

    /** No channel in the table is closed. */
    ghost predicate Valid()
      reads this
    {
      clients !! closed
    }

    constructor ()
      ensures Valid() && Now() == NewTable()
    {
      clients, userConns, closed, sent := {}, map[], {}, map[];
    }

    /** close(client.send): panics on a closed channel, so it must not be one. */
    method Close(c: Client)
      requires c !in closed
      modifies this`closed
      ensures closed == old(closed) + {c}
    {
      closed := closed + {c};
    }

    /** client.send <- message: panics on a closed channel, so it must not be one. */
    method Send(c: Client, e: Entry)
      requires c !in closed
      modifies this`sent
      ensures Now() == Delivered(old(Now()), c, e)
    {
      sent := sent[c := (if c in sent then sent[c] else []) + [e]];
    }

    method Register(c: Client)
      requires Valid() && c !in closed
      modifies this
      ensures Valid() && Now() == Opened(old(Now()), c)
    {
      clients, sent := clients + {c}, sent[c := if c in sent then sent[c] else []];
      userConns := userConns[c.user := Count(userConns, c.user) + 1];
    }

    method Unregister(c: Client)
      requires Valid()
      modifies this
      ensures Valid() && Now() == Dropped(old(Now()), c)
    {
      if c in clients {
        clients := clients - {c};
        Close(c);
        userConns := userConns[c.user := Count(userConns, c.user) - 1];
        if userConns[c.user] <= 0 {
          userConns := userConns - {c.user};
        }
        assert userConns == Lowered(old(userConns), c.user);
      }
    }

    /** The read-locked loop over the map, in any order. `full` are the channels without room. */
    method SendAll(e: Entry, full: set<Client>) returns (dead: seq<Client>)
      requires Valid()
      modifies this`sent
      ensures Valid() && Now() == DeliveredAll(old(Now()), Addressed(old(clients), e) - full, e)
      ensures AsSet(dead) == Addressed(old(clients), e) * full
    {
      hide DeliveredAll, Delivered, AsSet, Addressed;
      ghost var before, all := Now(), Addressed(clients, e);
      ghost var served, failed: set<Client> := {}, {};
      dead := [];
      var left := clients;
      NoneServed(before, e);
      NoneNamed();
      AddressedAre(clients, e);
      while left != {}
        invariant left <= clients && clients == before.clients && closed == before.closed
        invariant forall c :: c in served <==> c in all && c !in full && c !in left
        invariant forall c :: c in failed <==> c in all && c in full && c !in left
        invariant Now() == DeliveredAll(before, served, e)
        invariant AsSet(dead) == failed
        decreases |left|
      {
        var c :| c in left;
        if !(e.ToUsers? && c.user !in e.users) {
          if c in full {
            AsSetAppend(dead, c);
            dead, failed := dead + [c], failed + {c};
          } else {
            Send(c, e);
            OneMore(before, served, c, e);
            served := served + {c};
          }
        }
        left := left - {c};
      }
      assert served == all - full && failed == all * full;
    }

    /** The write-locked loop over a list that may be out of date, or name a client twice. */
    method Evict(dead: seq<Client>)
      requires Valid()
      modifies this
      ensures Valid() && Now() == Evicted(old(Now()), AsSet(dead))
    {
      hide AsSet;
      NoneNamed();
      for i := 0 to |dead|
        invariant Valid() && userConns == old(userConns) && sent == old(sent)
        invariant clients == old(clients) - AsSet(dead[..i])
        invariant closed == old(closed) + old(clients) * AsSet(dead[..i])
      {
        assert dead[..i + 1] == dead[..i] + [dead[i]];
        AsSetAppend(dead[..i], dead[i]);
        if dead[i] in clients {
          Close(dead[i]);
          clients := clients - {dead[i]};
        }
      }
      assert dead[..|dead|] == dead;
    }

    /** One message, to everybody or to the named users, with nothing else running. */
    method Broadcast(e: Entry, full: set<Client>)
      requires Valid()
      modifies this
      ensures Valid()
      ensures var to := Addressed(old(clients), e);
        Now() == Evicted(DeliveredAll(old(Now()), to - full, e), to * full)
    {
      var dead := SendAll(e, full);
      if |dead| > 0 {
        Evict(dead);
      } else {
        NoneNamed();
      }
    }

    /** The admission test; a limit of 0 is no limit. */
    method CanAccept(user: string, maxGlobal: nat, maxForUser: nat) returns (ok: bool)
      ensures ok <==> Admits(Now(), user, maxGlobal, maxForUser)
    {
      if maxGlobal > 0 && |clients| >= maxGlobal {
        return false;
      }
      if maxForUser > 0 && Count(userConns, user) >= maxForUser {
        return false;
      }
      return true;
    }
  }

  predicate Admits(t: Table, user: string, maxGlobal: nat, maxForUser: nat) {
    (maxGlobal == 0 || |t.clients| < maxGlobal) && (maxForUser == 0 || Count(t.conns, user) < maxForUser)
  }
}
