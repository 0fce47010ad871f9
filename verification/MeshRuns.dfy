/** Idempotent provisioning, and why mesh addresses never collide. */
module MeshRuns {
  import opened Common
  import opened Text
  import opened Ipv4
  import opened Mesh

  // ---- Idempotence ----

  /** What the second half leaves when it succeeds. */
  lemma ProvisionedOk(db: Db, id: nat, user: nat, origin: string, country: Option<string>)
    requires Keyed(db) && OneSession(db) && id !in db.meshes && SessionOf(db, user).None?
    ensures var (r, s) := Provisioned(db, id, user, origin, country);
      s.Ok? ==>
        && s.value.id == id && Keyed(r) && country.Some? && NextSubnet(db).Some?
        && r.meshes == db.meshes[id := Mesh(user, NextSubnet(db).value, true, true, country.value, origin)]
        && r.members == db.members[id := Joined(map[], user, s.value.ip)]
  {
    hide NextSubnet, NextHost, OneSession;
  }

  lemma RemovedSession(db: Db, id: nat, user: nat)
    requires Keyed(db) && OneSession(db) && IsSessionOf(db, id, user)
    ensures Keyed(Removed(db, id)) && OneSession(Removed(db, id)) && SessionOf(Removed(db, id), user).None?
  {
    var r := Removed(db, id);
    forall i, u | IsSessionOf(r, i, u) ensures IsSessionOf(db, i, u) && (u == user ==> false) {
      assert IsSessionOf(db, i, u);
    }
    NoNewSession(db, r);
  }

  /** Countries come from a lookup that only returns valid codes. */
  ghost predicate Country(c: Option<string>) { c.Some? ==> ValidCode(c.value) }

  lemma UpperValid(c: string)
    requires ValidCode(c)
    ensures Upper(c) == c
  {
    assert c[1..][1..] == "";
    assert Upper(c[1..]) == [c[1]];
    assert c == [c[0]] + [c[1]];
  }

  /** The user has exactly one session mesh; it is valid and has the user as a member under this address. */
  ghost predicate HasSession(db: Db, user: nat, s: Session) {
    && Keyed(db) && OneSession(db)
    && IsSessionOf(db, s.id, user)
    && ValidMesh(db.meshes[s.id])
    && user in db.members[s.id] && db.members[s.id][user] == s.ip
  }

  lemma AfterProvision(db: Db, id: nat, user: nat, origin: string, country: Option<string>)
    requires Keyed(db) && OneSession(db) && id !in db.meshes && SessionOf(db, user).None? && Country(country)
    ensures var (r, s) := Provisioned(db, id, user, origin, country);
      s.Ok? ==> HasSession(r, user, s.value)
  {
    hide Upper, ValidCode, Provisioned, SessionOf, NextSubnet;
    var (r, s) := Provisioned(db, id, user, origin, country);
    ProvisionedOk(db, id, user, origin, country);
    if s.Ok? {
      OneMoreSession(db, r, id, Mesh(user, NextSubnet(db).value, true, true, country.value, origin));
      UpperValid(country.value);
    }
  }

  lemma AfterReuse(db: Db, id: nat, user: nat, origin: string, country: Option<string>)
    requires Keyed(db) && OneSession(db) && IsSessionOf(db, id, user) && ValidMesh(db.meshes[id]) && Country(country)
    ensures var (r, s) := Reused(db, id, user, origin, country);
      s.Ok? ==> HasSession(r, user, s.value)
  {
    hide Upper, ValidCode, Added;
    AddedSame(db, id, user);
    var (r, s) := Reused(db, id, user, origin, country);
    if s.Ok? {
      if country.Some? { UpperValid(country.value); }
      forall i, u | IsSessionOf(r, i, u) ensures IsSessionOf(db, i, u) {}
      NoNewSession(db, r);
    }
  }

  /** After ensureAutoMesh succeeds the user has exactly one session mesh, valid and with the user in it. */
  lemma EnsuredHasSession(db: Db, id: nat, user: nat, origin: string, country: Option<string>)
    requires Keyed(db) && OneSession(db) && id !in db.meshes && Country(country)
    ensures var (r, s) := Ensured(db, id, user, origin, country, false);
      s.Ok? ==> HasSession(r, user, s.value)
  {
    hide Provisioned, Reused, ValidMesh, HasSession;
    var s := SessionOf(db, user);
    if s.None? {
      AfterProvision(db, id, user, origin, country);
    } else if ValidMesh(db.meshes[s.value]) {
      AfterReuse(db, s.value, user, origin, country);
    } else {
      RemovedSession(db, s.value, user);
      AfterProvision(Removed(db, s.value), id, user, origin, country);
    }
  }

  /** A repeat call, from any origin and country, returns the same mesh and address and creates nothing. */
  lemma RepeatReturnsTheSame(db: Db, user: nat, s: Session, id: nat, origin: string, country: Option<string>)
    requires HasSession(db, user, s) && Country(country)
    ensures var (r, again) := Ensured(db, id, user, origin, country, false);
      && again == Ok(Session(s.id, s.ip, false))
      && HasSession(r, user, s)
      && r.meshes.Keys == db.meshes.Keys && r.members == db.members
  {
    SessionIs(db, s.id, user);
    AfterReuse(db, s.id, user, origin, country);
  }

  /**
   * When listing the user's meshes fails once, the call goes on as if there were none. The
   * existing session mesh survives exactly if the call stops before the join or the join succeeds.
   */
  lemma ListFailure(db: Db, m: nat, id: nat, user: nat, origin: string, country: Option<string>)
    requires Keyed(db) && OneSession(db) && IsSessionOf(db, m, user)
    ensures var (r, s) := Ensured(db, id, user, origin, country, true);
      m in r.meshes <==>
      country.None? || NextSubnet(db).None? || (user !in db.members[m] && NextHost(db, m).Ok?)
    ensures user in db.members[m] && country.Some? && NextSubnet(db).Some? ==>
      var (r, s) := Ensured(db, id, user, origin, country, true);
      s.Err? && r == Removed(db, m)
  {
    hide NextSubnet, NextHost;
    SessionIs(db, m, user);
  }

  // ---- Addresses ----

  /** Mesh `id` has the i-th /24, and its members have distinct hosts .2 to .254 of it. */
  ghost predicate PlacedAt(db: Db, id: nat, i: nat)
    requires id in db.meshes && Keyed(db)
  {
    && 1 <= i <= 254 && db.meshes[id].subnet == SubnetText(i)
    && (forall u | u in db.members[id] :: HostOf(i, db.members[id][u]))
    && (forall u, v | u in db.members[id] && v in db.members[id] && u != v :: db.members[id][u] != db.members[id][v])
  }

  ghost predicate IsHost(i: octet, h: octet, ip: string) { 2 <= h <= 254 && ip == FormatIP(Number(Quad(10, 200, i, h))) }

  ghost predicate HostOf(i: octet, ip: string) { exists h: octet :: IsHost(i, h, ip) }

  /** Every mesh has a /24 of its own. */
  ghost predicate Placed(db: Db) {
    && Keyed(db)
    && (forall id | id in db.meshes :: exists i: nat :: PlacedAt(db, id, i))
    && (forall id, other | id in db.meshes && other in db.meshes && id != other :: db.meshes[id].subnet != db.meshes[other].subnet)
  }

  lemma SubnetIsFormat(i: octet)
    ensures SubnetText(i) == FormatNet(Subnet(i)) && Masked(Subnet(i))
  {
    BytesOfNumber(Quad(10, 200, i, 0));
    SmallDecimals();
    var d := Decimal(i);
    QuadJoin("10", "200", d, "0");
    assert Number(Quad(10, 200, i, 0)) % 256 == 0;
    assert Pow2(8) == 256;
    assert SubnetText(i) == "10" + "." + ("200" + "." + (d + "." + "0")) + "/" + "24";
  }

  lemma SmallDecimals()
    ensures Decimal(10) == "10" && Decimal(200) == "200" && Decimal(0) == "0" && Decimal(24) == "24"
  {
    assert Decimal(2) == "2" && Decimal(20) == "20";
  }

  lemma QuadJoin(a: string, b: string, c: string, d: string)
    ensures Join([a, b, c, d], '.') == a + "." + (b + "." + (c + "." + d))
  {
    assert [a, b, c, d][1..] == [b, c, d] && [b, c, d][1..] == [c, d] && [c, d][1..] == [d];
    assert Join([c, d], '.') == c + "." + d;
    assert Join([b, c, d], '.') == b + "." + (c + "." + d);
  }

  /** The subnet text reads back as that /24, and its hosts are the addresses 10.200.i.h. */
  lemma SubnetReads(i: octet, h: octet)
    ensures ParseCIDR(SubnetText(i)) == Some(Subnet(i))
    ensures HostIP(Subnet(i).ip, h) == Number(Quad(10, 200, i, h))
  {
    hide ParseCIDR, FormatNet, SubnetText;
    SubnetIsFormat(i);
    ParseFormatNet(Subnet(i));
    BytesOfNumber(Quad(10, 200, i, 0));
  }

  /** Equal address texts name the same host of the same subnet. */
  lemma HostInjective(i: octet, j: octet, ip: string)
    requires HostOf(i, ip) && HostOf(j, ip)
    ensures i == j
  {
    hide FormatIP;
    var h: octet :| IsHost(i, h, ip);
    var k: octet :| IsHost(j, k, ip);
    FormatInjective(Number(Quad(10, 200, i, h)), Number(Quad(10, 200, j, k)));
    BytesOfNumber(Quad(10, 200, i, h));
    BytesOfNumber(Quad(10, 200, j, k));
  }

  /** In a placed database no two memberships share an address, within a mesh or across meshes. */
  lemma AddressesDistinct(db: Db, id: nat, u: nat, other: nat, v: nat)
    requires Placed(db) && id in db.meshes && other in db.meshes && u in db.members[id] && v in db.members[other]
    requires (id, u) != (other, v)
    ensures db.members[id][u] != db.members[other][v]
  {
    hide SubnetText, HostOf;
    var i: nat :| PlacedAt(db, id, i);
    var j: nat :| PlacedAt(db, other, j);
    if db.members[id][u] == db.members[other][v] && id != other {
      HostInjective(i, j, db.members[id][u]);
    }
  }

  /** AddMember hands out the lowest free host, and answers "full" only when .2 to .254 are all taken. */
  lemma LowestFreeHost(db: Db, id: nat, user: nat, i: nat)
    requires Placed(db) && id in db.meshes && PlacedAt(db, id, i) && user !in db.members[id]
    ensures match Added(db, id, user).1
      case Ok(ip) => exists h: octet ::
        && IsHost(i, h, ip) && ip !in UsedIPs(db.members[id])
        && forall g: octet | 2 <= g < h :: FormatIP(Number(Quad(10, 200, i, g))) in UsedIPs(db.members[id])
      case Err(e) =>
        && e == MeshFull
        && forall g: octet | 2 <= g <= 254 :: FormatIP(Number(Quad(10, 200, i, g))) in UsedIPs(db.members[id])
  {
    hide SubnetText, FormatIP, ParseCIDR, LowestUnused, HostOf, UsedIPs, HostIP;
    var used := UsedIPs(db.members[id]);
    SubnetReads(i, 2);
    LowestIsLowest(Hosts(Subnet(i).ip), used, 2);
    forall g: octet | 2 <= g <= 254 ensures NameText(Hosts(Subnet(i).ip), g) == FormatIP(Number(Quad(10, 200, i, g))) {
      SubnetReads(i, g);
    }
    var r := LowestUnused(Hosts(Subnet(i).ip), used, 2);
    if r.Some? { assert IsHost(i, r.value, NameText(Hosts(Subnet(i).ip), r.value)); }
  }

  lemma AddedPlaced(db: Db, id: nat, user: nat)
    requires Placed(db)
    ensures Placed(Added(db, id, user).0)
  {
    hide SubnetText, FormatIP, NextHost, HostOf, UsedIPs;
    var (r, ip) := Added(db, id, user);
    AddedSame(db, id, user);
    if ip.Ok? {
      var i: nat :| PlacedAt(db, id, i);
      LowestFreeHost(db, id, user, i);
      NewHost(db, id, user, i);
      assert PlacedAt(r, id, i);
      forall k | k in r.meshes ensures exists j: nat :: PlacedAt(r, k, j) {
        if k != id {
          var j: nat :| PlacedAt(db, k, j);
          assert PlacedAt(r, k, j);
        }
      }
    }
  }

  lemma NewHost(db: Db, id: nat, user: nat, i: nat)
    requires Placed(db) && id in db.meshes && PlacedAt(db, id, i) && user !in db.members[id] && Added(db, id, user).1.Ok?
    ensures HostOf(i, Added(db, id, user).1.value)
    ensures forall u | u in db.members[id] :: db.members[id][u] != Added(db, id, user).1.value
  {
    hide SubnetText, FormatIP, NextHost, Added;
    LowestFreeHost(db, id, user, i);
  }

  lemma RemovedPlaced(db: Db, id: nat)
    requires Placed(db)
    ensures Placed(Removed(db, id))
  {
    hide SubnetText, HostOf, PlacedAt;
    var r := Removed(db, id);
    forall k | k in r.meshes ensures exists j: nat :: PlacedAt(r, k, j) { PlaceKept(db, r, k); }
  }

  /** A mesh created on the subnet just chosen has that subnet to itself. */
  lemma InsertedPlaced(db: Db, id: nat, m: Mesh)
    requires Placed(db) && id !in db.meshes && NextSubnet(db) == Some(m.subnet)
    ensures Placed(Inserted(db, id, m))
  {
    hide SubnetText, HostOf, LowestUnused, Placed, UsedSubnets;
    LowestIsLowest(Subnets, UsedSubnets(db), 1);
    InsertedIff(db, id, m, LowestUnused(Subnets, UsedSubnets(db), 1).value);
  }

  /** Rows keep their subnet and their members, or lose members. */
  lemma ThinnedPlaced(db: Db, r: Db)
    requires Placed(db) && Keyed(r) && r.meshes.Keys == db.meshes.Keys
    requires forall k | k in db.meshes :: r.meshes[k].subnet == db.meshes[k].subnet
    requires forall k, u | k in db.meshes && u in r.members[k] :: u in db.members[k] && r.members[k][u] == db.members[k][u]
    ensures Placed(r)
  {
    hide SubnetText, HostOf, PlacedAt;
    forall k | k in r.meshes ensures exists j: nat :: PlacedAt(r, k, j) { PlaceKept(db, r, k); }
  }

  lemma ProvisionedPlaced(db: Db, id: nat, user: nat, origin: string, country: Option<string>)
    requires Placed(db) && id !in db.meshes
    ensures Placed(Provisioned(db, id, user, origin, country).0)
  {
    hide Placed, NextSubnet, Added, SessionOf;
    Keys(db);
    if country.Some? && NextSubnet(db).Some? {
      var m := Mesh(user, NextSubnet(db).value, true, true, country.value, origin);
      InsertedPlaced(db, id, m);
      var (made, at) := Created(db, id, m);
      Keys(made);
      AddedPlaced(made, at, user);
      RemovedPlaced(Added(made, at, user).0, at);
    }
  }

  lemma Keys(db: Db)
    requires Placed(db)
    ensures Keyed(db)
  {}

  lemma ReusedPlaced(db: Db, id: nat, user: nat, origin: string, country: Option<string>)
    requires Placed(db) && id in db.meshes
    ensures Placed(Reused(db, id, user, origin, country).0)
  {
    hide Placed, Added;
    Keys(db);
    AddedPlaced(db, id, user);
    AddedSame(db, id, user);
    var joined := if user in db.members[id] then db else Added(db, id, user).0;
    ThinnedPlaced(joined, Reused(db, id, user, origin, country).0);
  }

  lemma EnsuredPlaced(db: Db, id: nat, user: nat, origin: string, country: Option<string>, listFails: bool)
    requires Placed(db) && id !in db.meshes
    ensures Placed(Ensured(db, id, user, origin, country, listFails).0)
  {
    hide Placed, Provisioned, Reused, ValidMesh;
    Keys(db);
    var s := SessionOf(db, user);
    if s.Some? {
      RemovedPlaced(db, s.value);
      ReusedPlaced(db, s.value, user, origin, country);
      ProvisionedPlaced(Removed(db, s.value), id, user, origin, country);
    }
    ProvisionedPlaced(db, id, user, origin, country);
  }

  /** A member row deleted. */
  function Left(db: Db, id: nat, user: nat): Db {
    if id in db.members then db.(members := db.members[id := db.members[id] - {user}]) else db
  }

  lemma LeftPlaced(db: Db, id: nat, user: nat)
    requires Placed(db)
    ensures Placed(Left(db, id, user))
  {
    hide SubnetText, HostOf;
    ThinnedPlaced(db, Left(db, id, user));
  }

  // ---- What a call answers and leaves ----

  ghost predicate HasSubnet(db: Db, i: octet) { exists k :: k in db.meshes && db.meshes[k].subnet == SubnetText(i) }

  /** The lowest number from 1 to 254 whose /24 no mesh has. */
  ghost predicate LowestFreeSubnet(db: Db, i: octet) {
    1 <= i <= 254 && !HasSubnet(db, i) && forall j: octet | 1 <= j < i :: HasSubnet(db, j)
  }

  lemma NextSubnetIs(db: Db)
    ensures match NextSubnet(db)
      case Some(text) => exists i: octet :: LowestFreeSubnet(db, i) && text == SubnetText(i)
      case None => forall i: octet :: !LowestFreeSubnet(db, i)
  {
    hide SubnetText, LowestUnused, UsedSubnets, HasSubnet;
    LowestIsLowest(Subnets, UsedSubnets(db), 1);
    forall i: octet ensures NameText(Subnets, i) in UsedSubnets(db) <==> HasSubnet(db, i) { SubnetUsedIff(db, i); }
    var r := LowestUnused(Subnets, UsedSubnets(db), 1);
    if r.Some? { assert LowestFreeSubnet(db, r.value); }
  }

  lemma SubnetUsedIff(db: Db, i: octet)
    ensures NameText(Subnets, i) in UsedSubnets(db) <==> HasSubnet(db, i)
  {
    hide SubnetText, UsedSubnets;
    UsedIff(db, SubnetText(i));
  }

  /**
   * Without a session mesh to reuse: a new mesh on the lowest free /24, with the user on its first
   * host, unless the country is unknown or no subnet is left, which changes nothing.
   */
  lemma ProvisionAnswers(db: Db, id: nat, user: nat, origin: string, country: Option<string>)
    requires Keyed(db) && id !in db.meshes && SessionOf(db, user).None?
    ensures var (r, s) := Provisioned(db, id, user, origin, country);
      if country.None? then s == Err(NoCountry) && r == db
      else if forall i: octet :: !LowestFreeSubnet(db, i) then s == Err(NoSubnet) && r == db
      else exists i: octet :: LowestFreeSubnet(db, i) && NewSession(db, r, s, i, id, user, origin, country.value)
  {
    hide SubnetText, LowestUnused, UsedSubnets, LowestFreeSubnet, NewSession;
    NextSubnetIs(db);
    if country.Some? && NextSubnet(db).Some? {
      var i: octet :| LowestFreeSubnet(db, i) && NextSubnet(db).value == SubnetText(i);
      ProvisionedOn(db, i, id, user, origin, country.value);
    }
  }

  ghost predicate NewSession(
    db: Db, r: Db, s: Result<Session, Error>, i: octet, id: nat, user: nat, origin: string, country: string)
  {
    var ip := FormatIP(Number(Quad(10, 200, i, 2)));
    && s == Ok(Session(id, ip, true))
    && r.meshes == db.meshes[id := Mesh(user, SubnetText(i), true, true, country, origin)]
    && r.members == db.members[id := map[user := ip]]
  }

  lemma ProvisionedOn(db: Db, i: octet, id: nat, user: nat, origin: string, country: string)
    requires Keyed(db) && id !in db.meshes && SessionOf(db, user).None? && NextSubnet(db) == Some(SubnetText(i))
    ensures var (r, s) := Provisioned(db, id, user, origin, Some(country)); NewSession(db, r, s, i, id, user, origin, country)
  {
    hide SubnetText, ParseCIDR, FormatIP, HostIP, NextSubnet, LowestUnused;
    SubnetReads(i, 2);
    OnlyHost(i);
    assert Joined(map[], user, FormatIP(Number(Quad(10, 200, i, 2)))) == map[user := FormatIP(Number(Quad(10, 200, i, 2)))];
  }

  lemma OnlyHost(i: octet)
    ensures UsedIPs(map[]) == {} && LowestUnused(Hosts(Subnet(i).ip), {}, 2) == Some(2)
  {
    hide FormatIP;
    assert NameText(Hosts(Subnet(i).ip), 2) !in {};
  }

  /** Joining a mesh: the first of these that applies, and else the lowest free host. */
  lemma AddAnswers(db: Db, id: nat, user: nat, i: octet)
    requires Placed(db) && (id in db.meshes ==> PlacedAt(db, id, i))
    ensures var (r, ip) := Added(db, id, user);
      if id !in db.meshes then ip == Err(NoMesh) && r == db
      else if forall h: octet :: !FreeHost(db, id, i, h) then ip == Err(MeshFull) && r == db
      else if user in db.members[id] then ip == Err(AlreadyMember) && r == db
      else
        && (exists h: octet :: FreeHost(db, id, i, h) && (forall g: octet | g < h :: !FreeHost(db, id, i, g)) &&
             ip == Ok(FormatIP(Number(Quad(10, 200, i, h)))))
        && r.meshes == db.meshes && r.members == db.members[id := Joined(db.members[id], user, ip.value)]
  {
    hide SubnetText, FormatIP, ParseCIDR, LowestUnused, HostIP, UsedIPs, HostOf;
    if id in db.meshes {
      var used, names := UsedIPs(db.members[id]), Hosts(Subnet(i).ip);
      SubnetReads(i, 2);
      LowestIsLowest(names, used, 2);
      forall g: octet ensures NameText(names, g) == FormatIP(Number(Quad(10, 200, i, g))) { SubnetReads(i, g); }
      var r := LowestUnused(names, used, 2);
      if r.Some? { assert FreeHost(db, id, i, r.value); }
    }
  }

  ghost predicate FreeHost(db: Db, id: nat, i: octet, h: octet)
    requires id in db.members
  {
    2 <= h <= 254 && FormatIP(Number(Quad(10, 200, i, h))) !in UsedIPs(db.members[id])
  }

  /** A session mesh that is reused keeps its row, but for country and origin when the user has moved. */
  lemma ReuseAnswers(db: Db, id: nat, user: nat, origin: string, country: Option<string>)
    requires Keyed(db) && id in db.meshes
    ensures var (r, s) := Reused(db, id, user, origin, country);
      var m := db.meshes[id];
      && r.meshes.Keys == db.meshes.Keys && (forall k | k in db.meshes && k != id :: r.meshes[k] == db.meshes[k])
      && (user in db.members[id] ==> s == Ok(Session(id, db.members[id][user], false)) && r.members == db.members)
      && (user !in db.members[id] && s.Ok? ==>
            !s.value.created && r.members == db.members[id := Joined(db.members[id], user, s.value.ip)])
      && (s.Err? ==> r == db)
      && var moved := s.Ok? && origin != "" && m.publicIP != origin && country.Some?;
      r.meshes[id] == if moved then Mesh(m.owner, m.subnet, m.isSession, m.isActive, country.value, origin) else m
  {
    hide Added;
    AddedSame(db, id, user);
  }

  /** Which of the two it is: a valid session mesh is reused, an invalid one makes room for a new one. */
  lemma EnsuredIs(db: Db, m: nat, id: nat, user: nat, origin: string, country: Option<string>)
    requires Keyed(db) && OneSession(db) && IsSessionOf(db, m, user)
    ensures Ensured(db, id, user, origin, country, false) ==
      if db.meshes[m].isActive && ValidCode(Upper(db.meshes[m].country)) then Reused(db, m, user, origin, country)
      else Provisioned(Removed(db, m), id, user, origin, country)
    ensures SessionOf(Removed(db, m), user).None? && Keyed(Removed(db, m)) && m !in Removed(db, m).meshes
  {
    hide Reused, Provisioned, Upper, ValidCode, OneSession;
    SessionIs(db, m, user);
    RemovedSession(db, m, user);
  }

  /** A mesh row inserted without members. */
  function Inserted(db: Db, id: nat, m: Mesh): Db { Db(db.meshes[id := m], db.members[id := map[]]) }

  /** A mesh keeps its place while its row and its members stay as they are. */
  lemma PlaceKept(db: Db, r: Db, k: nat)
    requires Placed(db) && Keyed(r) && k in db.meshes && k in r.meshes
    requires r.meshes[k].subnet == db.meshes[k].subnet
    requires forall u | u in r.members[k] :: u in db.members[k] && r.members[k][u] == db.members[k][u]
    ensures exists j: nat :: PlacedAt(r, k, j)
  {
    hide SubnetText, HostOf;
    var j: nat :| PlacedAt(db, k, j);
    assert PlacedAt(r, k, j);
  }

  /** Inserting a mesh leaves every mesh a /24 of its own exactly if no mesh uses its subnet at that moment. */
  lemma InsertedIff(db: Db, id: nat, m: Mesh, i: octet)
    requires Placed(db) && id !in db.meshes && 1 <= i <= 254 && m.subnet == SubnetText(i)
    ensures Placed(Inserted(db, id, m)) <==> m.subnet !in UsedSubnets(db)
  {
    hide SubnetText, HostOf, PlacedAt, UsedSubnets;
    var r := Inserted(db, id, m);
    UsedIff(db, m.subnet);
    if m.subnet in UsedSubnets(db) {
      var k :| k in db.meshes && db.meshes[k].subnet == m.subnet;
      assert r.meshes[k].subnet == r.meshes[id].subnet;
    } else {
      InsertedApart(db, id, m, i);
    }
  }

  lemma InsertedApart(db: Db, id: nat, m: Mesh, i: octet)
    requires Placed(db) && id !in db.meshes && 1 <= i <= 254 && m.subnet == SubnetText(i)
    requires forall k | k in db.meshes :: db.meshes[k].subnet != m.subnet
    ensures Placed(Inserted(db, id, m))
  {
    hide SubnetText, PlacedAt;
    var r := Inserted(db, id, m);
    NewPlace(r, id, i);
    forall k | k in r.meshes ensures exists j: nat :: PlacedAt(r, k, j) {
      if k != id { PlaceKept(db, r, k); }
    }
  }

  lemma UsedIff(db: Db, subnet: string)
    ensures subnet in UsedSubnets(db) <==> exists k :: k in db.meshes && db.meshes[k].subnet == subnet
  {}

  lemma NewPlace(r: Db, id: nat, i: octet)
    requires Keyed(r) && id in r.meshes && r.members[id] == map[] && 1 <= i <= 254 && r.meshes[id].subnet == SubnetText(i)
    ensures PlacedAt(r, id, i)
  {
    hide SubnetText;
  }
}
