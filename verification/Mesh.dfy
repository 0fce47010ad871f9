/**
 * Mesh provisioning: the mesh_networks and mesh_members statements of internal/repo/mesh.go and
 * ensureAutoMesh of internal/control/mesh_handler.go.
 */
module Mesh {
  import opened Common
  import opened Text
  import opened Ipv4

  datatype Mesh = Mesh(owner: nat, subnet: string, isSession: bool, isActive: bool, country: string, publicIP: string)

  /** Meshes by id, and each mesh's members with their mesh IPs. */
  datatype Db = Db(meshes: map<nat, Mesh>, members: map<nat, map<nat, string>>)

  datatype Error = NoCountry | NoSubnet | NoMesh | BadSubnet | MeshFull | AlreadyMember

  // ---- Country codes ----

  function Upper(s: string): string {
    if s == "" then "" else [if 'a' <= s[0] <= 'z' then 'A' + (s[0] as int - 'a' as int) as char else s[0]] + Upper(s[1..])
  }

  predicate ValidCode(c: string) { |c| == 2 && 'A' <= c[0] <= 'Z' && 'A' <= c[1] <= 'Z' && c != "XX" }

  method IsValidCountryCode(code: string) returns (ok: bool)
    ensures ok <==> ValidCode(code)
    ensures ok <==> |code| == 2 && (forall c | c in code :: 'A' <= c <= 'Z') && code != "XX"
  {
    if |code| != 2 {
      return false;
    }
    for i := 0 to |code|
      invariant forall j | 0 <= j < i :: 'A' <= code[j] <= 'Z'
    {
      if code[i] < 'A' || code[i] > 'Z' {
        assert code[i] in code;
        return false;
      }
    }
    return code != "XX";
  }

  /** isValidPublicMesh on a session mesh as it is read: the stored code is upper-cased first. */
  predicate ValidMesh(m: Mesh) { m.isSession && m.isActive && ValidCode(Upper(m.country)) }

  method IsValidPublicMesh(m: Mesh) returns (ok: bool)
    ensures ok <==> ValidMesh(m)
  {
    ok := false;
    if m.isSession && m.isActive {
      ok := IsValidCountryCode(Upper(m.country));
    }
  }

  // ---- Lowest-free search over texts ----

  /** The two searches: /24 subnets of 10.200.0.0/16 from .1, hosts of a subnet from .2. */
  datatype Names = Subnets | Hosts(base: uint32)

  function Subnet(i: octet): IPNet { IPNet(Number(Quad(10, 200, i, 0)), 24) }

  function HostIP(base: uint32, h: octet): uint32 { Number(Quad(Bytes(base).a, Bytes(base).b, Bytes(base).c, h)) }

  function SubnetText(i: octet): string { "10.200" + "." + Decimal(i) + ".0/24" }

  function NameText(n: Names, i: octet): string {
    match n
    case Subnets => SubnetText(i)
    case Hosts(base) => FormatIP(HostIP(base, i))
  }

  function First(n: Names): octet { if n.Subnets? then 1 else 2 }

  /** The lowest number from i to 254 whose text is not used. */
  function LowestUnused(n: Names, used: set<string>, i: nat): (r: Option<octet>)
    ensures r.Some? ==> i <= r.value <= 254
    decreases 255 - i
  {
    if i > 254 then None
    else if NameText(n, i) !in used then Some(i)
    else LowestUnused(n, used, i + 1)
  }

  lemma {:induction false} LowestIsLowest(n: Names, used: set<string>, i: nat)
    ensures var r := LowestUnused(n, used, i);
      && (r.Some? ==> i <= r.value <= 254 && NameText(n, r.value) !in used && forall j | i <= j < r.value :: NameText(n, j) in used)
      && (r.None? ==> forall j | i <= j <= 254 :: NameText(n, j) in used)
    decreases 255 - i
  {
    hide NameText;
    if i <= 254 { LowestIsLowest(n, used, i + 1); }
  }

  /** The loop of NextAvailableSubnet and of nextAvailableMeshIPTx. */
  method FindUnused(n: Names, used: set<string>) returns (r: Option<octet>)
    ensures r == LowestUnused(n, used, First(n))
  {
    hide NameText;
    for i := First(n) to 255
      invariant LowestUnused(n, used, i) == LowestUnused(n, used, First(n))
    {
      if NameText(n, i) !in used {
        return Some(i);
      }
    }
    return None;
  }

  // ---- Statements ----

  ghost predicate IsSessionOf(db: Db, id: nat, owner: nat) {
    id in db.meshes && db.meshes[id].isSession && db.meshes[id].owner == owner
  }

  /** The partial unique index: at most one session mesh per owner. */
  ghost predicate OneSession(db: Db) {
    forall i, j, u :: IsSessionOf(db, i, u) && IsSessionOf(db, j, u) ==> i == j
  }

  ghost predicate Keyed(db: Db) { db.members.Keys == db.meshes.Keys }

  ghost function SessionOf(db: Db, owner: nat): (r: Option<nat>)
    ensures r.Some? ==> IsSessionOf(db, r.value, owner)
    ensures r.None? ==> forall id :: !IsSessionOf(db, id, owner)
  {
    if exists id :: IsSessionOf(db, id, owner) then
      var id :| IsSessionOf(db, id, owner);
      Some(id)
    else None
  }

  function UsedSubnets(db: Db): set<string> { set id | id in db.meshes :: db.meshes[id].subnet }

  function NextSubnet(db: Db): Option<string> {
    match LowestUnused(Subnets, UsedSubnets(db), 1)
    case None => None
    case Some(i) => Some(SubnetText(i))
  }

  function UsedIPs(members: map<nat, string>): set<string> { set u | u in members :: members[u] }

  function NextHost(db: Db, id: nat): Result<string, Error>
    requires id in db.meshes && Keyed(db)
  {
    match ParseCIDR(db.meshes[id].subnet)
    case None => Err(BadSubnet)
    case Some(net) =>
      match LowestUnused(Hosts(net.ip), UsedIPs(db.members[id]), 2)
      case None => Err(MeshFull)
      case Some(h) => Ok(NameText(Hosts(net.ip), h))
  }

  /** The AddMember transaction: unique on (mesh, user). */
  function Added(db: Db, id: nat, user: nat): (Db, Result<string, Error>)
    requires Keyed(db)
  {
    if id !in db.meshes then (db, Err(NoMesh))
    else match NextHost(db, id)
      case Err(e) => (db, Err(e))
      case Ok(ip) =>
        if user in db.members[id] then (db, Err(AlreadyMember))
        else (db.(members := db.members[id := Joined(db.members[id], user, ip)]), Ok(ip))
  }

  function Joined(roster: map<nat, string>, user: nat, ip: string): map<nat, string> { roster[user := ip] }

  function Removed(db: Db, id: nat): Db { Db(db.meshes - {id}, db.members - {id}) }

  /** CreateSession: the owner's session mesh if there is one, whatever its state, else the new one. */
  ghost function Created(db: Db, id: nat, m: Mesh): (Db, nat) {
    if SessionOf(db, m.owner).Some? then (db, SessionOf(db, m.owner).value)
    else (Db(db.meshes[id := m], db.members[id := map[]]), id)
  }

  lemma SessionIs(db: Db, id: nat, user: nat)
    requires OneSession(db) && IsSessionOf(db, id, user)
    ensures SessionOf(db, user) == Some(id)
  {}

  lemma NoNewSession(db: Db, r: Db)
    requires OneSession(db)
    requires forall i, u :: IsSessionOf(r, i, u) ==> IsSessionOf(db, i, u)
    ensures OneSession(r)
  {
    forall i, j, u | IsSessionOf(r, i, u) && IsSessionOf(r, j, u) ensures i == j {
      assert IsSessionOf(db, i, u) && IsSessionOf(db, j, u);
    }
  }

  lemma OneMoreSession(db: Db, r: Db, id: nat, m: Mesh)
    requires OneSession(db) && SessionOf(db, m.owner).None? && id !in db.meshes && r.meshes == db.meshes[id := m]
    ensures OneSession(r)
  {
    forall i, j, u | IsSessionOf(r, i, u) && IsSessionOf(r, j, u) ensures i == j {
      if i != id { assert IsSessionOf(db, i, u); }
      if j != id { assert IsSessionOf(db, j, u); }
    }
  }

  datatype Session = Session(id: nat, ip: string, created: bool)

  /** The second half of ensureAutoMesh: choose a subnet, create, join, and take the mesh away again if joining fails. */
  ghost function Provisioned(db: Db, id: nat, user: nat, origin: string, country: Option<string>): (Db, Result<Session, Error>)
    requires Keyed(db)
  {
    if country.None? then (db, Err(NoCountry))
    else if NextSubnet(db).None? then (db, Err(NoSubnet))
    else
      var (made, at) := Created(db, id, Mesh(user, NextSubnet(db).value, true, true, country.value, origin));
      var (joined, ip) := Added(made, at, user);
      match ip
      case Ok(text) => (joined, Ok(Session(at, text, true)))
      case Err(e) => (Removed(joined, at), Err(e))
  }

  /** An existing valid session mesh: join it if need be, and refresh its origin. */
  ghost function Reused(db: Db, id: nat, user: nat, origin: string, country: Option<string>): (Db, Result<Session, Error>)
    requires Keyed(db) && id in db.meshes
  {
    var (joined, ip) := if user in db.members[id] then (db, Ok(db.members[id][user])) else Added(db, id, user);
    match ip
    case Err(e) => (joined, Err(e))
    case Ok(text) =>
      var m := joined.meshes[id];
      var moved := origin != "" && m.publicIP != origin && country.Some?;
      (if moved then joined.(meshes := joined.meshes[id := m.(country := country.value, publicIP := origin)]) else joined,
       Ok(Session(id, text, false)))
  }

  /** ensureAutoMesh; `id` is the fresh row id, `listFails` a ListByUser that returns an error. */
  ghost function Ensured(
    db: Db, id: nat, user: nat, origin: string, country: Option<string>, listFails: bool): (Db, Result<Session, Error>)
    requires Keyed(db)
  {
    var s := SessionOf(db, user);
    if listFails || s.None? then Provisioned(db, id, user, origin, country)
    else if ValidMesh(db.meshes[s.value]) then Reused(db, s.value, user, origin, country)
    else Provisioned(Removed(db, s.value), id, user, origin, country)
  }

  class MeshRepo {
    var meshes: map<nat, Mesh>
    var members: map<nat, map<nat, string>>

    function Now(): Db
      reads this
    {
      Db(meshes, members)
    }

    ghost predicate Valid()
      reads this
    {
      Keyed(Now()) && OneSession(Now())
    }

    constructor ()
      ensures Valid() && Now() == Db(map[], map[])
    {
      meshes, members := map[], map[];
    }

    method NextAvailableSubnet() returns (r: Option<string>)
      ensures r == NextSubnet(Now())
    {
      hide LowestUnused, SubnetText;
      var i := FindUnused(Subnets, UsedSubnets(Now()));
      return if i.None? then None else Some(SubnetText(i.value));
    }

    method AddMember(id: nat, user: nat) returns (r: Result<string, Error>)
      requires Valid()
      modifies this
      ensures Valid() && (Now(), r) == Added(old(Now()), id, user)
    {
      hide LowestUnused, ParseCIDR, FormatIP;
      if id !in meshes {
        return Err(NoMesh);
      }
      var net := ParseCIDR(meshes[id].subnet);
      if net.None? {
        return Err(BadSubnet);
      }
      var h := FindUnused(Hosts(net.value.ip), UsedIPs(members[id]));
      if h.None? {
        return Err(MeshFull);
      }
      var ip := NameText(Hosts(net.value.ip), h.value);
      if user in members[id] {
        return Err(AlreadyMember);
      }
      members := members[id := Joined(members[id], user, ip)];
      NoNewSession(old(Now()), Now());
      return Ok(ip);
    }

    method Delete(id: nat)
      requires Valid()
      modifies this
      ensures Valid() && Now() == Removed(old(Now()), id)
    {
      meshes, members := meshes - {id}, members - {id};
      NoNewSession(old(Now()), Now());
    }

    /** The insert, or after a unique violation the lookup of the existing row. */
    method CreateSession(id: nat, m: Mesh) returns (at: nat)
      requires Valid() && id !in meshes && m.isSession
      modifies this
      ensures Valid() && (Now(), at) == Created(old(Now()), id, m)
    {
      var left := meshes.Keys;
      while left != {}
        invariant left <= meshes.Keys && forall k | k in meshes && k !in left :: !IsSessionOf(Now(), k, m.owner)
        decreases |left|
      {
        var k :| k in left;
        if meshes[k].isSession && meshes[k].owner == m.owner {
          assert IsSessionOf(Now(), k, m.owner);
          return k;
        }
        left := left - {k};
      }
      assert SessionOf(Now(), m.owner).None?;
      meshes, members := meshes[id := m], members[id := map[]];
      OneMoreSession(old(Now()), Now(), id, m);
      return id;
    }

    /** The meshes the user owns or is a member of, in whatever order the rows come. */
    method ListByUser(user: nat) returns (list: seq<nat>)
      requires Valid()
      ensures forall id :: id in list <==> id in meshes && (meshes[id].owner == user || user in members[id])
      ensures forall i, j | 0 <= i < j < |list| :: list[i] != list[j]
    {
      list := [];
      var left := meshes.Keys;
      while left != {}
        invariant left <= meshes.Keys
        invariant forall id :: id in list <==> id in meshes && id !in left && (meshes[id].owner == user || user in members[id])
        invariant forall i, j | 0 <= i < j < |list| :: list[i] != list[j]
        decreases |left|
      {
        var id :| id in left;
        left := left - {id};
        if meshes[id].owner == user || user in members[id] {
          list := list + [id];
        }
      }
    }

    method EnsureAutoMesh(id: nat, user: nat, origin: string, country: Option<string>, listFails: bool)
      returns (r: Result<Session, Error>)
      requires Valid() && id !in meshes
      modifies this
      ensures Valid() && (Now(), r) == Ensured(old(Now()), id, user, origin, country, listFails)
    {
      hide Added, Upper, Created, SessionOf, NextSubnet, OneSession;
      if !listFails {
        var list := ListByUser(user);
        ghost var db, gone := Now(), None;
        for i := 0 to |list|
          invariant Valid()
          invariant gone.None? ==> Now() == db && forall k | 0 <= k < i :: !IsSessionOf(db, list[k], user)
          invariant gone.Some? ==>
            && IsSessionOf(db, gone.value, user) && !ValidMesh(db.meshes[gone.value])
            && Now() == Removed(db, gone.value) && gone.value in list[..i]
        {
          if list[i] !in meshes {
            assert false;
          }
          assert list[..i + 1] == list[..i] + [list[i]];
          var mesh := meshes[list[i]];
          if !mesh.isSession || mesh.owner != user {
            continue;
          }
          SessionIs(db, list[i], user);
          if gone.Some? { SessionIs(db, gone.value, user); assert false; }
          var valid := IsValidPublicMesh(mesh);
          if !valid {
            Delete(list[i]);
            gone := Some(list[i]);
            continue;
          }
          r := Reuse(list[i], user, origin, country);
          return;
        }
        if gone.Some? { SessionIs(db, gone.value, user); } else { NoSessionLeft(db, list, user); }
      }
      r := Provision(id, user, origin, country);
    }

    static lemma NoSessionLeft(db: Db, list: seq<nat>, user: nat)
      requires OneSession(db)
      requires forall id :: id in db.meshes && db.meshes[id].owner == user ==> id in list
      requires forall k | 0 <= k < |list| :: !IsSessionOf(db, list[k], user)
      ensures SessionOf(db, user).None?
    {}

    /** The body of the loop for the user's valid session mesh. */
    method Reuse(id: nat, user: nat, origin: string, country: Option<string>) returns (r: Result<Session, Error>)
      requires Valid() && id in meshes && meshes[id].isSession
      modifies this
      ensures Valid() && (Now(), r) == Reused(old(Now()), id, user, origin, country)
    {
      hide Added;
      var ip: string;
      if user in members[id] {
        ip := members[id][user];
      } else {
        var added := AddMember(id, user);
        AddedSame(old(Now()), id, user);
        if added.Err? {
          return Err(added.error);
        }
        ip := added.value;
      }
      if origin != "" && meshes[id].publicIP != origin {
        if country.Some? {
          ghost var before := Now();
          meshes := meshes[id := meshes[id].(country := country.value, publicIP := origin)];
          NoNewSession(before, Now());
        }
      }
      return Ok(Session(id, ip, false));
    }

    /** The part after the loop. */
    method Provision(id: nat, user: nat, origin: string, country: Option<string>) returns (r: Result<Session, Error>)
      requires Valid() && id !in meshes
      modifies this
      ensures Valid() && (Now(), r) == Provisioned(old(Now()), id, user, origin, country)
    {
      hide Added, Created, NextSubnet;
      if country.None? {
        return Err(NoCountry);
      }
      var subnet := NextAvailableSubnet();
      if subnet.None? {
        return Err(NoSubnet);
      }
      var at := CreateSession(id, Mesh(user, subnet.value, true, true, country.value, origin));
      var ip := AddMember(at, user);
      if ip.Err? {
        Delete(at);
        return Err(ip.error);
      }
      return Ok(Session(at, ip.value, true));
    }
  }

  lemma AddedSame(db: Db, id: nat, user: nat)
    requires Keyed(db)
    ensures Added(db, id, user).0.meshes == db.meshes && Keyed(Added(db, id, user).0)
    ensures Added(db, id, user).1.Err? ==> Added(db, id, user).0 == db
    ensures Added(db, id, user).1.Ok? ==>
      && id in db.meshes && user !in db.members[id]
      && Added(db, id, user).0.members == db.members[id := Joined(db.members[id], user, Added(db, id, user).1.value)]
  {}
}
