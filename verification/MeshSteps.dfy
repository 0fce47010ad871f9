/**
 * Mesh addresses over every interleaving of the provisioning statements: choosing a subnet and
 * creating the mesh are two of them, and other calls can come in between.
 */
module MeshSteps {
  import opened Common
  import opened Text
  import opened Ipv4
  import opened Mesh
  import opened MeshRuns
  import ManagerSpec

  /** chosen: the subnets that calls have chosen and not yet created a mesh on. */
  datatype State = State(db: Db, chosen: map<nat, string>)

  /** Activate is a whole call of ensureAutoMesh with nothing in between; Choose and Create are its two statements. */
  datatype Op =
    | Activate(user: nat, id: nat, origin: string, country: Option<string>, listFails: bool)
    | Choose(call: nat)
    | Create(call: nat, id: nat, user: nat, origin: string, code: string)
    | AddTo(id: nat, user: nat)
    | Leave(id: nat, user: nat)
    | Drop(id: nat)

  function NewMesh(s: State, op: Op): Mesh
    requires op.Create? && op.call in s.chosen
  {
    Mesh(op.user, s.chosen[op.call], true, true, op.code, op.origin)
  }

  ghost function Step(s: State, op: Op): (r: State)
    requires Keyed(s.db)
    ensures Keyed(r.db)
  {
    match op
    case Activate(user, id, origin, country, listFails) =>
      if id in s.db.meshes then s
      else
        EnsuredKeyed(s.db, id, user, origin, country, listFails);
        s.(db := Ensured(s.db, id, user, origin, country, listFails).0)
    case Choose(call) => if NextSubnet(s.db).Some? then s.(chosen := s.chosen[call := NextSubnet(s.db).value]) else s
    case Create(call, id, user, _, _) =>
      if call !in s.chosen || id in s.db.meshes then s
      else State(Created(s.db, id, NewMesh(s, op)).0, s.chosen - {call})
    case AddTo(id, user) => AddedSame(s.db, id, user); s.(db := Added(s.db, id, user).0)
    case Leave(id, user) => s.(db := Left(s.db, id, user))
    case Drop(id) => s.(db := Removed(s.db, id))
  }

  lemma EnsuredKeyed(db: Db, id: nat, user: nat, origin: string, country: Option<string>, listFails: bool)
    requires Keyed(db) && id !in db.meshes
    ensures Keyed(Ensured(db, id, user, origin, country, listFails).0)
  {
    hide ValidMesh, Provisioned, Reused;
    var s := SessionOf(db, user);
    ProvisionedKeyed(db, id, user, origin, country);
    if s.Some? {
      ReusedKeyed(db, s.value, user, origin, country);
      ProvisionedKeyed(Removed(db, s.value), id, user, origin, country);
    }
  }

  lemma ProvisionedKeyed(db: Db, id: nat, user: nat, origin: string, country: Option<string>)
    requires Keyed(db) && id !in db.meshes
    ensures Keyed(Provisioned(db, id, user, origin, country).0)
  {
    hide NextSubnet, Added;
    if country.Some? && NextSubnet(db).Some? {
      var made := Created(db, id, Mesh(user, NextSubnet(db).value, true, true, country.value, origin));
      AddedSame(made.0, made.1, user);
    }
  }

  lemma ReusedKeyed(db: Db, id: nat, user: nat, origin: string, country: Option<string>)
    requires Keyed(db) && id in db.meshes
    ensures Keyed(Reused(db, id, user, origin, country).0)
  {
    hide Added;
    AddedSame(db, id, user);
  }

  ghost function Run(s: State, ops: seq<Op>): (r: State)
    requires Keyed(s.db)
    ensures Keyed(r.db)
    decreases |ops|
  {
    if ops == [] then s else Run(Step(s, ops[0]), ops[1..])
  }

  /** The statement inserts a mesh on a subnet that is in use by now. */
  ghost predicate Clashes(s: State, op: Op) {
    && op.Create? && op.call in s.chosen && op.id !in s.db.meshes && SessionOf(s.db, op.user).None?
    && s.chosen[op.call] in UsedSubnets(s.db)
  }

  ghost predicate NoClash(s: State, ops: seq<Op>)
    requires Keyed(s.db)
    decreases |ops|
  {
    ops == [] || (!Clashes(s, ops[0]) && NoClash(Step(s, ops[0]), ops[1..]))
  }

  // ---- Subnets ----

  ghost predicate IsSubnetText(t: string) { exists i: octet :: NumberOf(i, t) }

  ghost predicate NumberOf(i: octet, t: string) { 1 <= i <= 254 && t == SubnetText(i) }

  ghost predicate Chosen(s: State) { forall call | call in s.chosen :: IsSubnetText(s.chosen[call]) }

  lemma NextIsSubnet(db: Db)
    ensures NextSubnet(db).Some? ==> IsSubnetText(NextSubnet(db).value) && NextSubnet(db).value !in UsedSubnets(db)
  {
    hide SubnetText, LowestUnused, UsedSubnets;
    LowestIsLowest(Subnets, UsedSubnets(db), 1);
    var i := LowestUnused(Subnets, UsedSubnets(db), 1);
    if i.Some? { assert NumberOf(i.value, SubnetText(i.value)); }
  }

  /** One statement keeps every mesh on a /24 of its own exactly if it does not clash. */
  lemma PlacedIff(s: State, op: Op)
    requires Placed(s.db) && Chosen(s)
    ensures Keyed(s.db) && Chosen(Step(s, op))
    ensures Placed(Step(s, op).db) <==> !Clashes(s, op)
  {
    hide Placed, NextSubnet, Ensured, Added, UsedSubnets, IsSubnetText, SessionOf;
    Keys(s.db);
    match op
    case Activate(user, id, origin, country, listFails) =>
      if id !in s.db.meshes { EnsuredPlaced(s.db, id, user, origin, country, listFails); }
    case Choose(_) => NextIsSubnet(s.db);
    case Create(call, id, user, _, _) =>
      if call in s.chosen && id !in s.db.meshes && SessionOf(s.db, user).None? { CreatedIff(s, op); }
    case AddTo(id, user) => AddedPlaced(s.db, id, user);
    case Leave(id, user) => LeftPlaced(s.db, id, user);
    case Drop(id) => RemovedPlaced(s.db, id);
  }

  lemma CreatedIff(s: State, op: Op)
    requires Placed(s.db) && Chosen(s) && op.Create? && op.call in s.chosen && op.id !in s.db.meshes
    ensures Placed(Inserted(s.db, op.id, NewMesh(s, op))) <==> s.chosen[op.call] !in UsedSubnets(s.db)
  {
    hide Placed, UsedSubnets, SubnetText;
    var i: octet :| NumberOf(i, s.chosen[op.call]);
    InsertedIff(s.db, op.id, NewMesh(s, op), i);
  }

  /** At every point of the run every mesh has a /24 of its own. */
  ghost predicate PlacedThroughout(s: State, ops: seq<Op>)
    requires Keyed(s.db)
    decreases |ops|
  {
    Placed(s.db) && (ops == [] || PlacedThroughout(Step(s, ops[0]), ops[1..]))
  }

  lemma {:induction false} RunPlacedIff(s: State, ops: seq<Op>)
    requires Placed(s.db) && Chosen(s)
    ensures Keyed(s.db)
    ensures PlacedThroughout(s, ops) <==> NoClash(s, ops)
    ensures NoClash(s, ops) ==> Placed(Run(s, ops).db)
    decreases |ops|
  {
    hide Placed, Chosen, Step, Clashes;
    Keys(s.db);
    if ops != [] {
      PlacedIff(s, ops[0]);
      var next := Step(s, ops[0]);
      if Placed(next.db) { RunPlacedIff(next, ops[1..]); } else { NotPlaced(next, ops[1..]); }
    }
  }

  lemma NotPlaced(s: State, ops: seq<Op>)
    requires Keyed(s.db) && !Placed(s.db)
    ensures !PlacedThroughout(s, ops)
  {}

  // ---- A session mesh while others are at work ----

  /** A mesh and one of its members are as they were. */
  ghost predicate Undisturbed(db: Db, r: Db, user: nat, id: nat)
    requires IsMember(db, user, id)
  {
    && IsMember(r, user, id) && OneSession(r)
    && r.meshes[id] == db.meshes[id] && r.members[id][user] == db.members[id][user]
  }

  ghost predicate IsMember(db: Db, user: nat, id: nat) { Keyed(db) && id in db.meshes && user in db.members[id] }

  lemma AddedUndisturbed(db: Db, at: nat, u: nat, user: nat, id: nat)
    requires IsMember(db, user, id) && OneSession(db)
    ensures Undisturbed(db, Added(db, at, u).0, user, id)
  {
    hide Added, OneSession;
    AddedSame(db, at, u);
    NoNewSession(db, Added(db, at, u).0);
  }

  lemma RemovedUndisturbed(db: Db, at: nat, user: nat, id: nat)
    requires IsMember(db, user, id) && OneSession(db) && at != id
    ensures Undisturbed(db, Removed(db, at), user, id)
  {
    hide OneSession;
    NoNewSession(db, Removed(db, at));
  }

  lemma CreatedUndisturbed(db: Db, at: nat, m: Mesh, user: nat, id: nat)
    requires IsMember(db, user, id) && OneSession(db) && at !in db.meshes
    ensures Undisturbed(db, Created(db, at, m).0, user, id)
    ensures IsSessionOf(db, id, user) && m.owner != user ==> Created(db, at, m).1 != id
  {
    hide OneSession, SessionOf;
    if SessionOf(db, m.owner).None? { OneMoreSession(db, Created(db, at, m).0, at, m); }
  }

  lemma ProvisionedUndisturbed(
    db: Db, at: nat, u: nat, origin: string, country: Option<string>, user: nat, id: nat)
    requires IsMember(db, user, id) && OneSession(db) && IsSessionOf(db, id, user) && at !in db.meshes && u != user
    ensures Undisturbed(db, Provisioned(db, at, u, origin, country).0, user, id)
  {
    hide OneSession, SessionOf, Created, Added, NextSubnet, IsSessionOf;
    if country.Some? && NextSubnet(db).Some? {
      var m := Mesh(u, NextSubnet(db).value, true, true, country.value, origin);
      CreatedUndisturbed(db, at, m, user, id);
      var (made, there) := Created(db, at, m);
      AddedUndisturbed(made, there, u, user, id);
      RemovedUndisturbed(Added(made, there, u).0, there, user, id);
    }
  }

  lemma ReusedUndisturbed(
    db: Db, at: nat, u: nat, origin: string, country: Option<string>, user: nat, id: nat)
    requires IsMember(db, user, id) && OneSession(db) && at in db.meshes && at != id
    ensures Undisturbed(db, Reused(db, at, u, origin, country).0, user, id)
  {
    hide OneSession, Added;
    AddedUndisturbed(db, at, u, user, id);
    AddedSame(db, at, u);
    NoNewSession(db, Reused(db, at, u, origin, country).0);
  }

  lemma EnsuredUndisturbed(
    db: Db, at: nat, u: nat, origin: string, country: Option<string>, listFails: bool, user: nat, id: nat)
    requires IsMember(db, user, id) && OneSession(db) && IsSessionOf(db, id, user) && at !in db.meshes && u != user
    ensures Undisturbed(db, Ensured(db, at, u, origin, country, listFails).0, user, id)
  {
    hide OneSession, Provisioned, Reused, ValidMesh;
    var s := SessionOf(db, u);
    ProvisionedUndisturbed(db, at, u, origin, country, user, id);
    if s.Some? {
      ReusedUndisturbed(db, s.value, u, origin, country, user, id);
      RemovedUndisturbed(db, s.value, user, id);
      ProvisionedUndisturbed(Removed(db, s.value), at, u, origin, country, user, id);
    }
  }

  /**
   * The statements that take the user's session away: the mesh dropped, the user leaving it, and the
   * user's own call when its listing fails and the call gets as far as joining.
   */
  ghost predicate Spoils(s: State, op: Op, user: nat, id: nat) {
    match op
    case Activate(u, at, _, country, listFails) =>
      u == user && at !in s.db.meshes && listFails && country.Some? && NextSubnet(s.db).Some?
    case Leave(at, u) => at == id && u == user
    case Drop(at) => at == id
    case _ => false
  }

  /** Countries in the user's own calls come from the lookup. */
  ghost predicate OwnCountry(op: Op, user: nat) { op.Activate? && op.user == user ==> Country(op.country) }

  /** One statement keeps the user's session, address and all, exactly if it is not one of those. */
  lemma SessionKeptIff(st: State, op: Op, user: nat, s: Session)
    requires HasSession(st.db, user, s) && OwnCountry(op, user)
    ensures HasSession(Step(st, op).db, user, s) <==> !Spoils(st, op, user, s.id)
  {
    hide Added, NextSubnet, ValidMesh, OneSession, Ensured, Created, HasSession;
    SessionHas(st.db, user, s);
    var r := Step(st, op).db;
    match op {
      case Activate(u, at, origin, country, listFails) =>
        if at !in st.db.meshes {
          if u != user { EnsuredUndisturbed(st.db, at, u, origin, country, listFails, user, s.id); }
          else { OwnCall(st.db, at, user, origin, country, listFails, s); }
        }
      case Choose(_) =>
      case Create(call, at, u, _, _) =>
        if call in st.chosen && at !in st.db.meshes { CreatedUndisturbed(st.db, at, NewMesh(st, op), user, s.id); }
      case AddTo(at, u) => AddedUndisturbed(st.db, at, u, user, s.id);
      case Leave(at, u) => NoNewSession(st.db, r);
      case Drop(at) => if at != s.id { RemovedUndisturbed(st.db, at, user, s.id); }
    }
    Lasts(st.db, r, user, s);
  }

  lemma SessionHas(db: Db, user: nat, s: Session)
    requires HasSession(db, user, s)
    ensures IsMember(db, user, s.id) && OneSession(db) && IsSessionOf(db, s.id, user)
  {}

  lemma Lasts(db: Db, r: Db, user: nat, s: Session)
    requires HasSession(db, user, s)
    ensures Undisturbed(db, r, user, s.id) ==> HasSession(r, user, s)
    ensures HasSession(r, user, s) ==> s.id in r.meshes && s.id in r.members && user in r.members[s.id]
  {
    hide ValidMesh, OneSession;
  }

  lemma OwnCall(db: Db, at: nat, user: nat, origin: string, country: Option<string>, listFails: bool, s: Session)
    requires HasSession(db, user, s) && Country(country) && at !in db.meshes
    ensures HasSession(Ensured(db, at, user, origin, country, listFails).0, user, s) <==>
            !(listFails && country.Some? && NextSubnet(db).Some?)
  {
    hide HasSession, NextSubnet, Country, Added;
    SessionHas(db, user, s);
    if !listFails {
      RepeatReturnsTheSame(db, user, s, at, origin, country);
    } else {
      ListFailure(db, s.id, at, user, origin, country);
      Lasts(db, Removed(db, s.id), user, s);
    }
  }

  ghost predicate HasThroughout(st: State, ops: seq<Op>, user: nat, s: Session)
    requires Keyed(st.db)
    decreases |ops|
  {
    HasSession(st.db, user, s) && (ops == [] || HasThroughout(Step(st, ops[0]), ops[1..], user, s))
  }

  ghost predicate NeverSpoilt(st: State, ops: seq<Op>, user: nat, id: nat)
    requires Keyed(st.db)
    decreases |ops|
  {
    ops == [] || (!Spoils(st, ops[0], user, id) && NeverSpoilt(Step(st, ops[0]), ops[1..], user, id))
  }

  /** A session lasts through a run, whatever others do in between, exactly if no statement spoils it. */
  lemma {:induction false} SessionLastsIff(st: State, ops: seq<Op>, user: nat, s: Session)
    requires HasSession(st.db, user, s) && forall op | op in ops :: OwnCountry(op, user)
    ensures HasThroughout(st, ops, user, s) <==> NeverSpoilt(st, ops, user, s.id)
    ensures NeverSpoilt(st, ops, user, s.id) ==> HasSession(Run(st, ops).db, user, s)
    decreases |ops|
  {
    hide Step, Spoils, HasSession, OwnCountry;
    SessionHas(st.db, user, s);
    if ops != [] {
      assert ops[0] in ops && forall op | op in ops[1..] :: op in ops;
      SessionKeptIff(st, ops[0], user, s);
      if !Spoils(st, ops[0], user, s.id) { SessionLastsIff(Step(st, ops[0]), ops[1..], user, s); }
    }
  }

  /** A repeat call after any such run returns the same mesh and address and creates nothing. */
  lemma RepeatAfterARun(
    st: State, ops: seq<Op>, user: nat, s: Session, id: nat, origin: string, country: Option<string>)
    requires HasSession(st.db, user, s) && Country(country)
    requires NeverSpoilt(st, ops, user, s.id) && forall op | op in ops :: OwnCountry(op, user)
    ensures Keyed(Run(st, ops).db)
    ensures var (r, again) := Ensured(Run(st, ops).db, id, user, origin, country, false);
      && again == Ok(Session(s.id, s.ip, false))
      && r.meshes.Keys == Run(st, ops).db.meshes.Keys && r.members == Run(st, ops).db.members
  {
    hide HasSession, Run, Ensured;
    SessionHas(st.db, user, s);
    SessionLastsIff(st, ops, user, s);
    RepeatReturnsTheSame(Run(st, ops).db, user, s, id, origin, country);
  }

  // ---- Addresses ----

  /** No two memberships have the same address. */
  ghost predicate Distinct(db: Db)
    requires Keyed(db)
  {
    forall id, u, other, v |
      id in db.meshes && other in db.meshes && u in db.members[id] && v in db.members[other] && (id, u) != (other, v) ::
      db.members[id][u] != db.members[other][v]
  }

  lemma PlacedIsDistinct(db: Db)
    requires Placed(db)
    ensures Keyed(db) && Distinct(db)
  {
    hide Placed;
    Keys(db);
    forall id, u, other, v |
      id in db.meshes && other in db.meshes && u in db.members[id] && v in db.members[other] && (id, u) != (other, v)
      ensures db.members[id][u] != db.members[other][v]
    {
      AddressesDistinct(db, id, u, other, v);
    }
  }

  /** Members joining and leaving, and nothing else. */
  predicate Joins(ops: seq<Op>) { forall op | op in ops :: op.AddTo? || op.Leave? }

  /** Addresses are distinct, and stay so whoever joins and leaves. */
  ghost predicate Safe(s: State)
    requires Keyed(s.db)
  {
    forall more | Joins(more) :: Distinct(Run(s, more).db)
  }

  lemma {:induction false} JoinsDoNotClash(s: State, more: seq<Op>)
    requires Keyed(s.db) && Joins(more)
    ensures NoClash(s, more)
    decreases |more|
  {
    hide Step;
    if more != [] {
      assert more[0] in more;
      JoinsDoNotClash(Step(s, more[0]), more[1..]);
    }
  }

  lemma PlacedIsSafe(s: State)
    requires Placed(s.db) && Chosen(s)
    ensures Keyed(s.db) && Safe(s)
  {
    hide Placed, Chosen, Run, Distinct, Joins;
    Keys(s.db);
    forall more | Joins(more) ensures Distinct(Run(s, more).db) {
      JoinsDoNotClash(s, more);
      RunPlacedIff(s, more);
      PlacedIsDistinct(Run(s, more).db);
    }
  }

  lemma {:induction false} RunConcat(s: State, a: seq<Op>, b: seq<Op>)
    requires Keyed(s.db)
    ensures Run(s, a + b) == Run(Run(s, a), b)
    decreases |a|
  {
    hide Step;
    if a == [] {
      assert a + b == b;
    } else {
      assert (a + b)[1..] == a[1..] + b;
      RunConcat(Step(s, a[0]), a[1..], b);
    }
  }

  /** A state like `s` in which mesh `id` has no members. */
  function Emptied(s: State, id: nat): State
    requires id in s.db.members
  {
    s.(db := s.db.(members := s.db.members[id := map[]]))
  }

  /** All members of a mesh leave. */
  lemma EmptyOut(s: State, id: nat) returns (more: seq<Op>)
    requires Keyed(s.db) && id in s.db.meshes
    ensures Joins(more) && Run(s, more) == Emptied(s, id)
    decreases |s.db.members[id]|
  {
    hide Step, Emptied;
    if s.db.members[id] == map[] {
      more := [];
      EmptiedIs(s, id);
    } else {
      var u :| u in s.db.members[id];
      LeaveOne(s, id, u);
      var next := Step(s, Leave(id, u));
      var rest := EmptyOut(next, id);
      more := [Leave(id, u)] + rest;
      assert more[1..] == rest;
    }
  }

  lemma LeaveOne(s: State, id: nat, u: nat)
    requires Keyed(s.db) && id in s.db.meshes && u in s.db.members[id]
    ensures var next := Step(s, Leave(id, u));
      id in next.db.meshes && next.db.members[id] == s.db.members[id] - {u} && Emptied(next, id) == Emptied(s, id)
    ensures |s.db.members[id] - {u}| < |s.db.members[id]|
  {
    assert (s.db.members[id] - {u}).Keys == s.db.members[id].Keys - {u};
  }

  lemma EmptiedIs(s: State, id: nat)
    requires id in s.db.members && s.db.members[id] == map[]
    ensures Emptied(s, id) == s
  {
    assert s.db.members[id := map[]] == s.db.members;
  }

  /** The first member of an empty mesh gets the first host of its subnet. */
  lemma FirstJoin(s: State, id: nat, u: nat, i: octet)
    requires Keyed(s.db) && id in s.db.meshes && s.db.members[id] == map[] && s.db.meshes[id].subnet == SubnetText(i)
    ensures Step(s, AddTo(id, u)).db.meshes == s.db.meshes
    ensures Step(s, AddTo(id, u)).db.members == s.db.members[id := Joined(map[], u, NameText(Hosts(Subnet(i).ip), 2))]
  {
    hide SubnetText, ParseCIDR, FormatIP, LowestUnused, HostIP;
    SubnetReads(i, 2);
    FirstHost(i);
  }

  lemma FirstHost(i: octet)
    ensures UsedIPs(map[]) == {}
    ensures LowestUnused(Hosts(Subnet(i).ip), {}, 2) == Some(2)
  {
    hide FormatIP;
    assert NameText(Hosts(Subnet(i).ip), 2) !in {};
  }

  /** Two meshes on one subnet are not safe: once their members have left, the next members of both get the same address. */
  lemma SharedIsUnsafe(s: State, id: nat, other: nat, i: octet)
    requires Keyed(s.db) && id in s.db.meshes && other in s.db.meshes && id != other
    requires s.db.meshes[id].subnet == SubnetText(i) && s.db.meshes[other].subnet == SubnetText(i)
    ensures !Safe(s)
  {
    hide SubnetText, NameText, Run, Step, Distinct;
    var a := EmptyOut(s, id);
    var s1 := Emptied(s, id);
    var b := EmptyOut(s1, other);
    var s2 := Emptied(s1, other);
    RunConcat(s, a, b);
    var last := [AddTo(id, 0), AddTo(other, 0)];
    RunConcat(s, a + b, last);
    FirstJoin(s2, id, 0, i);
    var s3 := Step(s2, AddTo(id, 0));
    FirstJoin(s3, other, 0, i);
    TwoOps(s2, AddTo(id, 0), AddTo(other, 0));
    var r := Run(s, a + b + last);
    SameAddress(r.db, id, other);
    assert Joins(a + b + last);
  }

  lemma SameAddress(db: Db, id: nat, other: nat)
    requires Keyed(db) && id in db.meshes && other in db.meshes && id != other
    requires 0 in db.members[id] && 0 in db.members[other] && db.members[id][0] == db.members[other][0]
    ensures !Distinct(db)
  {
    assert (id, 0) != (other, 0);
  }

  lemma TwoOps(s: State, a: Op, b: Op)
    requires Keyed(s.db)
    ensures Run(s, [a, b]) == Step(Step(s, a), b)
  {
    hide Step;
    assert [a, b][1..] == [b] && [b][1..] == [];
    assert Run(Step(s, a), [b]) == Run(Step(Step(s, a), b), []);
  }

  lemma ClashIsUnsafe(s: State, op: Op)
    requires Placed(s.db) && Chosen(s) && Clashes(s, op)
    ensures Keyed(s.db) && !Safe(Step(s, op))
  {
    hide SubnetText, PlacedAt, Safe;
    Keys(s.db);
    var i: octet :| NumberOf(i, s.chosen[op.call]);
    var other :| other in s.db.meshes && s.db.meshes[other].subnet == s.chosen[op.call];
    SharedIsUnsafe(Step(s, op), op.id, other, i);
  }

  ghost predicate SafeThroughout(s: State, ops: seq<Op>)
    requires Keyed(s.db)
    decreases |ops|
  {
    Safe(s) && (ops == [] || SafeThroughout(Step(s, ops[0]), ops[1..]))
  }

  lemma NotSafe(s: State, ops: seq<Op>)
    requires Keyed(s.db) && !Safe(s)
    ensures !SafeThroughout(s, ops)
  {}

  /**
   * At every point of a run all mesh addresses are distinct and stay so whoever joins and leaves,
   * exactly if no statement of the run creates a mesh on a subnet that is in use at that moment.
   */
  lemma {:induction false} AddressesSafeIff(s: State, ops: seq<Op>)
    requires Placed(s.db) && Chosen(s)
    ensures Keyed(s.db)
    ensures SafeThroughout(s, ops) <==> NoClash(s, ops)
    decreases |ops|
  {
    hide Placed, Chosen, Step, Clashes, Safe;
    Keys(s.db);
    PlacedIsSafe(s);
    if ops != [] {
      PlacedIff(s, ops[0]);
      var next := Step(s, ops[0]);
      if Clashes(s, ops[0]) {
        ClashIsUnsafe(s, ops[0]);
        NotSafe(next, ops[1..]);
      } else {
        AddressesSafeIff(next, ops[1..]);
      }
    }
  }

  // ---- Calls that do not overlap, and calls that do ----

  ghost function Empty(): (s: State)
    ensures Placed(s.db) && Chosen(s)
  {
    State(Db(map[], map[]), map[])
  }

  lemma {:induction false} WholeCallsDoNotClash(s: State, ops: seq<Op>)
    requires Keyed(s.db) && forall op | op in ops :: !op.Create?
    ensures NoClash(s, ops)
    decreases |ops|
  {
    hide Step;
    if ops != [] {
      assert ops[0] in ops;
      WholeCallsDoNotClash(Step(s, ops[0]), ops[1..]);
    }
  }

  /** A subnet chosen by the statement just before is not in use. */
  lemma AdjacentDoesNotClash(s: State, call: nat, id: nat, user: nat, origin: string, country: string)
    requires Keyed(s.db) && call !in s.chosen
    ensures !Clashes(Step(s, Choose(call)), Create(call, id, user, origin, country))
  {
    hide NextSubnet, UsedSubnets;
    NextIsSubnet(s.db);
  }

  /**
   * From an empty database, with every call of ensureAutoMesh one step, no two memberships ever
   * have the same mesh IP text.
   */
  lemma AddressesNeverCollide(ops: seq<Op>)
    requires forall op | op in ops :: !op.Create?
    ensures Keyed(Run(Empty(), ops).db) && Distinct(Run(Empty(), ops).db)
  {
    hide Placed, Run, Distinct, Chosen;
    Keys(Empty().db);
    WholeCallsDoNotClash(Empty(), ops);
    RunPlacedIff(Empty(), ops);
    PlacedIsDistinct(Run(Empty(), ops).db);
  }

  /** Every mesh IP handed out is one the WireGuard manager accepts: it parses and lies in 10.200.0.0/16. */
  lemma AddressesAreInMesh(db: Db, id: nat, u: nat)
    requires Placed(db) && id in db.meshes && u in db.members[id]
    ensures var ip := ParseIP(db.members[id][u]);
      ip.Some? && ManagerSpec.InMesh(ip.value)
  {
    hide FormatIP, ParseIP, SubnetText;
    var i: nat :| PlacedAt(db, id, i);
    var h: octet :| IsHost(i, h, db.members[id][u]);
    ParseFormat(Number(Quad(10, 200, i, h)));
  }

  /** Two users who both choose before either creates: the second creation clashes. */
  lemma OverlappingChoiceClashes(s: State, a: nat, b: nat, u: nat, v: nat, origin: string, country: string)
    requires Placed(s.db) && NextSubnet(s.db).Some? && a !in s.db.meshes && b !in s.db.meshes && a != b && u != v
    requires SessionOf(s.db, u).None? && SessionOf(s.db, v).None?
    ensures Keyed(s.db)
    ensures !NoClash(s, [Choose(1), Choose(2), Create(1, a, u, origin, country), Create(2, b, v, origin, country)])
  {
    hide NextSubnet, Placed, SubnetText, UsedSubnets, SessionOf;
    Keys(s.db);
    var c1, c2, d1, d2 := Choose(1), Choose(2), Create(1, a, u, origin, country), Create(2, b, v, origin, country);
    assert [c1, c2, d1, d2][1..] == [c2, d1, d2] && [c2, d1, d2][1..] == [d1, d2] && [d1, d2][1..] == [d2];
    var s1 := Step(s, c1);
    var s2 := Step(s1, c2);
    var s3 := Step(s2, d1);
    assert s3.db == Inserted(s.db, a, NewMesh(s2, d1));
    assert s3.db.meshes[a].subnet == NextSubnet(s.db).value && a in s3.db.meshes;
    NoOtherSession(s.db, s3.db, a, NewMesh(s2, d1), v);
    InUse(s3.db, a);
    assert Clashes(s3, d2);
    assert !NoClash(s3, [d2]);
    assert !NoClash(s2, [d1, d2]);
    assert !NoClash(s1, [c2, d1, d2]);
  }

  lemma InUse(db: Db, id: nat)
    requires id in db.meshes
    ensures db.meshes[id].subnet in UsedSubnets(db)
  {}

  lemma NoOtherSession(db: Db, r: Db, id: nat, m: Mesh, v: nat)
    requires SessionOf(db, v).None? && r.meshes == db.meshes[id := m] && m.owner != v
    ensures SessionOf(r, v).None?
  {
    if SessionOf(r, v).Some? { assert IsSessionOf(db, SessionOf(r, v).value, v); }
  }
}
