/**
 * Restarting the manager: reading its maps and its pool back from the device, or first rebuilding
 * the device from the saved file, and why no later caller can tell.
 */
module Restart {
  import opened Common
  import opened Base64
  import opened Ipv4
  import opened IpPool
  import opened Device
  import opened ManagerSpec
  import opened ConfigFile

  // ---- What a restart reads back ----

  /** The mesh entries that are still routed on the device; only these come back after a restart. */
  ghost predicate IsRouted(v: View, s: string) {
    && s in v.mesh && s in v.peers && Decode(s).Some? && KeyOf(s) in v.dev && ParseIP(v.mesh[s]).Some?
    && Host(ParseIP(v.mesh[s]).value) in v.dev[KeyOf(s)].allowed
  }

  ghost function Routed(v: View): map<string, string> { map s | s in v.mesh && IsRouted(v, s) :: v.mesh[s] }

  ghost function Reloaded(v: View): View { View(v.peers, Routed(v), v.dev) }

  /** The text a restart gives to the key that `s` names. */
  function OwnText(s: string): string
    requires Decode(s).Some?
  {
    Encode(KeyOf(s))
  }

  lemma OwnTextInjective(peers: map<string, nat>, s: string, t: string)
    requires Decodable(peers) && OneText(peers) && s in peers && t in peers && OwnText(s) == OwnText(t)
    ensures s == t
  {
    hide Encode, Decode, KeyOf;
    KeyTextRoundTrip(KeyOf(s));
    KeyTextRoundTrip(KeyOf(t));
    assert SameKey(peers, s, t);
  }

  /** A map on peers, carried over to the keys' own texts. */
  ghost function Renamed<T(!new)>(peers: map<string, nat>, m: map<string, T>): (r: map<string, T>)
    requires Decodable(peers) && OneText(peers) && m.Keys <= peers.Keys
    ensures forall s | s in m :: OwnText(s) in r && r[OwnText(s)] == m[s]
    ensures forall c | c in r :: exists s :: s in m && OwnText(s) == c
  {
    forall s, t | s in m && t in m && OwnText(s) == OwnText(t) ensures s == t { OwnTextInjective(peers, s, t); }
    map s | s in m :: OwnText(s) := m[s]
  }

  /** The peers of a consistent manager, under their keys' own texts and with the mesh entries still routed. */
  ghost function ReadBack(v: View): (w: View)
    requires Decodable(v.peers) && OneText(v.peers)
    ensures w.dev == v.dev
  {
    View(Renamed(v.peers, v.peers), Renamed(v.peers, Routed(v)), v.dev)
  }

  lemma RenamedCanonical<T(!new)>(peers: map<string, nat>, m: map<string, T>)
    requires Decodable(peers) && OneText(peers) && m.Keys <= peers.Keys && Canonical(peers)
    ensures Renamed(peers, m) == m
  {
    hide Encode, Decode, KeyOf;
    forall s | s in m ensures OwnText(s) == s {}
  }

  lemma RoutedPeers(v: View)
    ensures Routed(v).Keys <= v.peers.Keys
  {
    hide Decode, ParseIP, KeyOf;
  }

  /** With every text canonical a restart renames nothing. */
  lemma ReadBackIsReloaded(n: Net, v: View)
    requires Agree(n, v)
    ensures Decodable(v.peers) && OneText(v.peers) && ReadBack(v) == Reloaded(v)
  {
    hide Decode, Renamed, Routed, Consistent, Decodable, OneText, Canonical;
    ConsistentHosts(n, v);
    RoutedPeers(v);
    RenamedCanonical(v.peers, v.peers);
    RenamedCanonical(v.peers, Routed(v));
  }

  lemma RenamedKeys(n: Net, v: View)
    requires Consistent(n, v)
    ensures Canonical(ReadBack(v).peers) && Decodable(ReadBack(v).peers) && OneText(ReadBack(v).peers)
    ensures PeerKeys(ReadBack(v).peers) == PeerKeys(v.peers)
    ensures forall s | s in v.peers :: KeyOf(OwnText(s)) == KeyOf(s)
  {
    hide Encode, Decode, KeyOf, ParseIP, PeerAgrees, Owned, MeshTexts, Hosts, Injective;
    var r := ReadBack(v).peers;
    forall s | s in v.peers ensures IsKeyText(OwnText(s)) && KeyOf(OwnText(s)) == KeyOf(s) {
      KeyTextRoundTrip(KeyOf(s));
    }
    forall c, d ensures SameKey(r, c, d) {}
    forall s | s in v.peers ensures OwnText(s) in r && KeyOf(OwnText(s)) == KeyOf(s) {}
  }

  lemma RenamedOffsets(n: Net, v: View)
    requires Consistent(n, v)
    ensures Hosts(n, ReadBack(v).peers) && Injective(ReadBack(v).peers)
  {
    hide Encode, Decode, KeyOf, ParseIP, PeerAgrees, Owned, MeshTexts, OwnText;
    var r := ReadBack(v).peers;
    forall c, d ensures Distinct(r, c, d) {
      if c in r && d in r && c != d {
        var s :| s in v.peers && OwnText(s) == c;
        var t :| t in v.peers && OwnText(t) == d;
        assert Distinct(v.peers, s, t);
      }
    }
  }

  lemma RenamedMesh(n: Net, v: View)
    requires Consistent(n, v)
    ensures MeshTexts(ReadBack(v).mesh)
    ensures forall s | s in v.peers && IsRouted(v, s) :: OwnText(s) in ReadBack(v).mesh && ReadBack(v).mesh[OwnText(s)] == v.mesh[s]
    ensures forall c | c in ReadBack(v).mesh :: exists s :: s in v.peers && IsRouted(v, s) && OwnText(s) == c
  {
    hide Encode, Decode, KeyOf, ParseIP, PeerAgrees, Owned, Hosts, Injective;
    forall s | s in v.peers ensures Decode(OwnText(s)).Some? { KeyTextRoundTrip(KeyOf(s)); }
  }

  /** A restart of a consistent manager gives one that agrees, on the same device. */
  lemma ReadBackAgrees(n: Net, v: View)
    requires n.Valid() && Consistent(n, v)
    ensures Agree(n, ReadBack(v))
  {
    hide Encode, Decode, KeyOf, ParseIP, Owned, MeshTexts, Hosts, Injective, OneText, OwnText, PeerKeys, FormatIP;
    var w := ReadBack(v);
    RenamedKeys(n, v);
    RenamedOffsets(n, v);
    RenamedMesh(n, v);
    forall c | c in w.peers ensures PeerAgrees(n, w, c) {
      var s :| s in v.peers && OwnText(s) == c;
      assert PeerAgrees(n, v, s);
      forall a | a in w.dev[KeyOf(c)].allowed ensures a == n.At(w.peers[c]) || IsMeshOf(w, c, a) {
        if a != n.At(v.peers[s]) { assert IsRouted(v, s); }
      }
    }
  }

  /** Reading back twice changes nothing: what was read back is all routed. */
  lemma ReloadedReadBack(n: Net, v: View)
    requires n.Valid() && Consistent(n, v)
    ensures Reloaded(ReadBack(v)) == ReadBack(v)
  {
    hide Encode, Decode, KeyOf, ParseIP, Consistent, Hosts, OneText, Decodable, OwnText, ReadBack, IsRouted;
    ConsistentHosts(n, v);
    var w := ReadBack(v);
    RenamedMesh(n, v);
    forall c | c in w.mesh ensures IsRouted(w, c) {
      var s :| s in v.peers && IsRouted(v, s) && OwnText(s) == c;
      RoutedAgain(n, v, s);
    }
  }

  lemma RoutedAgain(n: Net, v: View, s: string)
    requires Consistent(n, v) && s in v.peers && IsRouted(v, s)
    ensures Decodable(v.peers) && OneText(v.peers) && IsRouted(ReadBack(v), OwnText(s))
  {
    hide Encode, ParseIP, Owned, MeshTexts, Hosts, Injective, OneText, PeerKeys, PeerAgrees, DropBreaks, DecodeQuanta;
    RenamedKeys(n, v);
    RenamedMesh(n, v);
    KeyTextRoundTrip(KeyOf(s));
  }

  // ---- One operation on two managers ----

  /** The same peers and device; the second has forgotten some mesh entries that are not routed. */
  ghost predicate Similar(n: Net, v: View, w: View) {
    && Agree(n, v) && Agree(n, w)
    && w.peers == v.peers && w.dev == v.dev
    && forall s | s in w.mesh :: s in v.mesh && w.mesh[s] == v.mesh[s]
  }

  lemma SimilarFacts(n: Net, v: View, w: View)
    requires Similar(n, v, w)
    ensures Agree(n, v) && Agree(n, w) && Hosts(n, v.peers) && w.peers == v.peers && w.dev == v.dev
  {}

  lemma ReloadedIsSimilar(n: Net, v: View, w: View)
    requires n.Valid() && Similar(n, v, w)
    ensures Similar(n, v, Reloaded(w)) && Similar(n, w, Reloaded(w))
  {
    hide ParseIP, Decode, Encode, FormatIP, IsKeyText, KeyOf, PeerKeys, Owned, OneText, Injective, Hosts;
    forall s | s in w.peers ensures PeerAgrees(n, Reloaded(w), s) {
      assert PeerAgrees(n, w, s);
      forall a | a in w.dev[KeyOf(s)].allowed ensures a == n.At(w.peers[s]) || IsMeshOf(Reloaded(w), s, a) {
        if a != n.At(w.peers[s]) { assert IsRouted(w, s); }
      }
    }
  }

  lemma RestartIsSimilar(n: Net, v: View)
    requires n.Valid() && Agree(n, v)
    ensures Similar(n, v, Reloaded(v))
  {
    ReloadedIsSimilar(n, v, v);
  }

  /** The one visible difference: RemoveMeshIP on an entry that the restart forgot and whose removal fails. */
  ghost predicate Forgotten(v: View, w: View, op: Op) {
    && op.RemoveMeshIP? && op.key in v.mesh && op.key !in w.mesh
    && (op.key !in v.peers || op.fails)
  }

  /** When a peer has no recorded mesh IP its device entry is already what RemoveMeshIP would leave. */
  lemma NothingToRemove(n: Net, v: View, s: string)
    requires n.Valid() && Consistent(n, v) && s in v.peers && s !in v.mesh
    ensures PeerAgrees(n, v, s)
    ensures Apply(v.dev, Change(KeyOf(s), true, true, {n.At(v.peers[s])}, None)) == v.dev
  {
    hide ParseIP, Decode, Encode, FormatIP, KeyOf, OneText, Injective, Hosts;
    assert PeerAgrees(n, v, s);
    var own := {n.At(v.peers[s])};
    assert v.dev[KeyOf(s)].allowed == own;
    var d := Apply(v.dev, Change(KeyOf(s), true, true, own, None));
    forall k | k in v.dev ensures d[k] == v.dev[k] {
      if k != KeyOf(s) { assert v.dev[k].allowed - own == v.dev[k].allowed; }
    }
  }

  lemma OtherStepAlike(n: Net, v: View, w: View, op: Op)
    requires n.Valid() && Similar(n, v, w) && !op.RemoveMeshIP?
    ensures Hosts(n, v.peers)
    ensures var (a, b) := (Step(n, v, op), Step(n, w, op));
      && a.1 == b.1 && a.0.peers == b.0.peers && a.0.dev == b.0.dev
      && forall s | s in b.0.mesh :: s in a.0.mesh && b.0.mesh[s] == a.0.mesh[s]
  {
    hide Step, Agree, Hosts;
    SimilarFacts(n, v, w);
    match op
    case AddPeer(_, _, _) => AddAlike(n, v, w, op);
    case AddMeshIP(_, _, _) => AddMeshAlike(n, v, w, op);
    case _ => ChangeAlike(n, v, w, op);
  }

  /** The same peers and device, and no mesh entry that the other does not have. */
  ghost predicate Fewer(n: Net, v: View, w: View) {
    Hosts(n, v.peers) && w.peers == v.peers && w.dev == v.dev && forall s | s in w.mesh :: s in v.mesh && w.mesh[s] == v.mesh[s]
  }

  ghost predicate Alike(n: Net, v: View, w: View, op: Op)
    requires n.Valid() && Fewer(n, v, w)
  {
    var (a, b) := (Step(n, v, op), Step(n, w, op));
    && a.1 == b.1 && a.0.peers == b.0.peers && a.0.dev == b.0.dev
    && forall s | s in b.0.mesh :: s in a.0.mesh && b.0.mesh[s] == a.0.mesh[s]
  }

  lemma AddAlike(n: Net, v: View, w: View, op: Op)
    requires n.Valid() && Fewer(n, v, w) && op.AddPeer?
    ensures Alike(n, v, w, op)
  {
    hide Decode, KeyOf, Apply, NextOffset, HostText, Taken;
    assert Taken(v) == Taken(w) by { TakenFromPeers(v, w); }
  }

  lemma TakenFromPeers(v: View, w: View)
    requires w.peers == v.peers
    ensures Taken(v) == Taken(w)
  {}

  lemma AddMeshAlike(n: Net, v: View, w: View, op: Op)
    requires n.Valid() && Fewer(n, v, w) && op.AddMeshIP?
    ensures Alike(n, v, w, op)
  {
    hide ParseIP, Decode, KeyOf, Apply;
  }

  lemma ChangeAlike(n: Net, v: View, w: View, op: Op)
    requires n.Valid() && Fewer(n, v, w) && (op.RemovePeer? || op.UpdatePeer?)
    ensures Alike(n, v, w, op)
  {
    hide Decode, KeyOf, Apply;
  }

  lemma KnownKey(n: Net, v: View, s: string)
    requires Agree(n, v)
    ensures Hosts(n, v.peers) && (s in v.mesh ==> Decode(s).Some?)
  {}

  /** Removing a mesh entry that one manager knows and the other has forgotten. */
  lemma RemoveForgotten(n: Net, v: View, w: View, op: Op)
    requires n.Valid() && Similar(n, v, w) && op.RemoveMeshIP?
    requires op.key in v.mesh && op.key !in w.mesh
    ensures Hosts(n, v.peers)
    ensures Step(n, w, op) == (w, Done)
    ensures Step(n, v, op).1 == Done <==> op.key in v.peers && !op.fails
    ensures Step(n, v, op).0.peers == v.peers && Step(n, v, op).0.dev == v.dev
    ensures Step(n, v, op).0.mesh == if op.key in v.peers && !op.fails then v.mesh - {op.key} else v.mesh
  {
    hide Apply, Agree, KeyOf, IsKeyText, PeerAgrees, ParseIP, FormatIP, Decode;
    KnownKey(n, v, op.key);
    if op.key in v.peers {
      AgreeIsConsistent(n, w);
      NothingToRemove(n, w, op.key);
    }
  }

  lemma AgreeIsConsistent(n: Net, v: View)
    requires Agree(n, v)
    ensures Consistent(n, v)
  {}

  lemma RemoveStepAlike(n: Net, v: View, w: View, op: Op)
    requires n.Valid() && Similar(n, v, w) && op.RemoveMeshIP?
    ensures Hosts(n, v.peers)
    ensures var (a, b) := (Step(n, v, op), Step(n, w, op));
      && (a.1 == b.1 <==> !Forgotten(v, w, op))
      && a.0.peers == b.0.peers && a.0.dev == b.0.dev
      && forall s | s in b.0.mesh :: s in a.0.mesh && b.0.mesh[s] == a.0.mesh[s]
  {
    hide Apply, KeyOf, ParseIP, FormatIP, Agree, Decode;
    SimilarFacts(n, v, w);
    KnownKey(n, v, op.key);
    if op.key in v.mesh && op.key !in w.mesh {
      RemoveForgotten(n, v, w, op);
    }
  }

  /**
   * One operation that does not spoil the agreement: the same device and peers afterwards, and the
   * same reply exactly outside the forgotten case.
   */
  lemma StepAlike(n: Net, v: View, w: View, op: Op)
    requires n.Valid() && Similar(n, v, w)
    ensures Hosts(n, v.peers)
    ensures Step(n, v, op).1 == Step(n, w, op).1 <==> !Forgotten(v, w, op)
    ensures Spoils(n, v, op) <==> Spoils(n, w, op)
    ensures !Spoils(n, v, op) ==> Similar(n, Step(n, v, op).0, Step(n, w, op).0)
  {
    hide Step, Agree, KeyOf, IsKeyText, ParseIP;
    SimilarFacts(n, v, w);
    AgreeIff(n, v, op);
    AgreeIff(n, w, op);
    if op.RemoveMeshIP? { RemoveStepAlike(n, v, w, op); } else { OtherStepAlike(n, v, w, op); }
  }

  /**
   * A consistent manager whose restart nobody can notice, except in the forgotten case, is one
   * whose peers are all known under their keys' own texts.
   */
  lemma RestartUnseenIff(n: Net, v: View)
    requires n.Valid() && Consistent(n, v)
    ensures Hosts(n, v.peers) && Hosts(n, ReadBack(v).peers)
    ensures (forall op :: Step(n, v, op).1 == Step(n, ReadBack(v), op).1 || Forgotten(v, ReadBack(v), op)) <==> Canonical(v.peers)
  {
    hide Step, Consistent, ReadBack, Decode, KeyOf, IsKeyText, Reloaded;
    ConsistentHosts(n, v);
    ReadBackAgrees(n, v);
    var w := ReadBack(v);
    AgreeIsConsistent(n, w);
    ConsistentHosts(n, w);
    if Canonical(v.peers) {
      ReadBackIsReloaded(n, v);
      RestartIsSimilar(n, v);
      forall op ensures Step(n, v, op).1 == Step(n, w, op).1 || Forgotten(v, w, op) { StepAlike(n, v, w, op); }
    } else {
      var s :| s in v.peers && !IsKeyText(s);
      UpdateTells(n, v, w, s);
    }
  }

  /** A peer under another text is not found after the restart. */
  lemma UpdateTells(n: Net, v: View, w: View, s: string)
    requires n.Valid() && Consistent(n, v) && Agree(n, w) && s in v.peers && !IsKeyText(s)
    ensures Hosts(n, v.peers) && Hosts(n, w.peers)
    ensures var op := UpdatePeer(s, 0, false);
      Step(n, v, op).1 == Done && Step(n, w, op).1 == Failed(PeerNotFound) && !Forgotten(v, w, op)
  {
    hide KeyOf, ParseIP, IsKeyText, Decode, Apply;
  }

  // ---- Whole runs ----

  datatype Action = Call(op: Op) | Restarted

  /** One action; a restart happens only if `restarts`, and then on a manager that agrees with its device. */
  ghost function ActionStep(n: Net, v: View, a: Action, restarts: bool): (r: (View, Reply))
    requires n.Valid() && Hosts(n, v.peers)
    ensures Hosts(n, r.0.peers)
  {
    match a
    case Call(op) => StepHosts(n, v, op); Step(n, v, op)
    case Restarted => (if restarts then Reloaded(v) else v, Done)
  }

  /** The state after a run. */
  ghost function After(n: Net, v: View, acts: seq<Action>, restarts: bool): (w: View)
    requires n.Valid() && Hosts(n, v.peers)
    ensures Hosts(n, w.peers)
    decreases |acts|
  {
    if acts == [] then v else After(n, ActionStep(n, v, acts[0], restarts).0, acts[1..], restarts)
  }

  ghost function Replies(n: Net, v: View, acts: seq<Action>, restarts: bool): (r: seq<Reply>)
    requires n.Valid() && Hosts(n, v.peers)
    ensures |r| == |acts|
    decreases |acts|
  {
    if acts == [] then []
    else
      var step := ActionStep(n, v, acts[0], restarts);
      [step.1] + Replies(n, step.0, acts[1..], restarts)
  }

  /** No call of the run spoils the agreement at its turn. */
  ghost predicate Unspoiled(n: Net, v: View, acts: seq<Action>, restarts: bool)
    requires n.Valid() && Hosts(n, v.peers)
    decreases |acts|
  {
    acts == [] ||
    (&& (acts[0].Call? ==> !Spoils(n, v, acts[0].op))
     && Unspoiled(n, ActionStep(n, v, acts[0], restarts).0, acts[1..], restarts))
  }

  /** Manager, pool and device agree at every point of the run. */
  ghost predicate AgreesThroughout(n: Net, v: View, acts: seq<Action>, restarts: bool)
    requires n.Valid() && Hosts(n, v.peers)
    decreases |acts|
  {
    Agree(n, v) && (acts == [] || AgreesThroughout(n, ActionStep(n, v, acts[0], restarts).0, acts[1..], restarts))
  }

  lemma EmptyAgrees(n: Net)
    ensures Agree(n, View(map[], map[], map[]))
  {}

  lemma EmptyReadBack()
    ensures var v := View(map[], map[], map[]);
      Decodable(v.peers) && OneText(v.peers) && ReadBack(v) == v
  {}

  /** From any agreeing state, and so from an empty device: a run agrees throughout exactly if no call spoils it. */
  lemma {:induction false} RunAgreesIff(n: Net, v: View, acts: seq<Action>, restarts: bool)
    requires n.Valid() && Agree(n, v) && Hosts(n, v.peers)
    ensures AgreesThroughout(n, v, acts, restarts) <==> Unspoiled(n, v, acts, restarts)
    ensures Unspoiled(n, v, acts, restarts) ==> Agree(n, After(n, v, acts, restarts))
    decreases |acts|
  {
    hide Step, Agree, Spoils, Reloaded;
    if acts != [] {
      var next := ActionStep(n, v, acts[0], restarts).0;
      if acts[0].Call? { AgreeIff(n, v, acts[0].op); } else { ReloadedAgrees(n, v); }
      if Agree(n, next) { RunAgreesIff(n, next, acts[1..], restarts); } else { NotThroughout(n, next, acts[1..], restarts); }
    }
  }

  lemma ReloadedAgrees(n: Net, v: View)
    requires n.Valid() && Agree(n, v)
    ensures Agree(n, Reloaded(v))
  {
    hide Agree;
    RestartIsSimilar(n, v);
    SimilarFacts(n, v, Reloaded(v));
  }

  lemma NotThroughout(n: Net, v: View, acts: seq<Action>, restarts: bool)
    requires n.Valid() && Hosts(n, v.peers) && !Agree(n, v)
    ensures !AgreesThroughout(n, v, acts, restarts)
  {}

  /** The forgotten case at the i-th action of two runs. */
  ghost predicate ForgottenAt(n: Net, v: View, w: View, acts: seq<Action>, i: nat)
    requires n.Valid() && Hosts(n, v.peers) && Hosts(n, w.peers) && i < |acts|
  {
    acts[i].Call? && Forgotten(After(n, v, acts[..i], false), After(n, w, acts[..i], true), acts[i].op)
  }

  /**
   * A manager restarted at any points of a run, and one never restarted, hold the same addresses
   * and leave the same device, and the i-th replies are the same exactly outside the forgotten case.
   */
  lemma {:induction false} RestartsAreInvisible(n: Net, v: View, w: View, acts: seq<Action>)
    requires n.Valid() && Similar(n, v, w) && Hosts(n, v.peers) && Unspoiled(n, v, acts, false)
    ensures Similar(n, After(n, v, acts, false), After(n, w, acts, true))
    ensures forall i: nat | i < |acts| ::
      Replies(n, v, acts, false)[i] == Replies(n, w, acts, true)[i] <==> !ForgottenAt(n, v, w, acts, i)
    decreases |acts|
  {
    hide Step, Similar, Agree, Reloaded, Spoils, Forgotten;
    SimilarFacts(n, v, w);
    if acts != [] {
      var a, b := ActionStep(n, v, acts[0], false), ActionStep(n, w, acts[0], true);
      if acts[0].Call? { StepAlike(n, v, w, acts[0].op); } else { ReloadedIsSimilar(n, v, w); }
      RestartsAreInvisible(n, a.0, b.0, acts[1..]);
      forall i: nat | i < |acts|
        ensures Replies(n, v, acts, false)[i] == Replies(n, w, acts, true)[i] <==> !ForgottenAt(n, v, w, acts, i)
      {
        if i == 0 {
          assert acts[..0] == [];
        } else {
          LaterReply(n, v, w, acts, i);
        }
      }
    }
  }

  /** Reply i of a run is reply i - 1 of the run after the first action, and likewise for the states before it. */
  lemma LaterReply(n: Net, v: View, w: View, acts: seq<Action>, i: nat)
    requires n.Valid() && Hosts(n, v.peers) && Hosts(n, w.peers) && 0 < i < |acts|
    ensures var a, b := ActionStep(n, v, acts[0], false), ActionStep(n, w, acts[0], true);
      && Replies(n, v, acts, false)[i] == Replies(n, a.0, acts[1..], false)[i - 1]
      && Replies(n, w, acts, true)[i] == Replies(n, b.0, acts[1..], true)[i - 1]
      && (ForgottenAt(n, v, w, acts, i) <==> ForgottenAt(n, a.0, b.0, acts[1..], i - 1))
  {
    hide ActionStep, Forgotten;
    assert acts[..i][1..] == acts[1..][..i - 1];
  }

  /** In a run without restarts the flag makes no difference. */
  lemma {:induction false} CallsOnly(n: Net, v: View, acts: seq<Action>)
    requires n.Valid() && Hosts(n, v.peers) && forall a | a in acts :: a.Call?
    ensures After(n, v, acts, true) == After(n, v, acts, false)
    ensures Replies(n, v, acts, true) == Replies(n, v, acts, false)
    decreases |acts|
  {
    hide Step;
    if acts != [] {
      assert acts[0] in acts;
      CallsOnly(n, ActionStep(n, v, acts[0], false).0, acts[1..]);
    }
  }

  // ---- From the saved file ----

  function Given(c: Conf): PeerConfig {
    Change(c.key, false, false, Nets(c.allowed), if 0 < c.keepalive < 0x1_0000 then Some(c.keepalive) else None)
  }

  /** One ConfigureDevice call with all restored peers. */
  function ApplyAll(dev: Dev, confs: seq<Conf>): Dev
    decreases |confs|
  {
    if confs == [] then dev else ApplyAll(Apply(dev, Given(confs[0])), confs[1..])
  }

  lemma ApplyNew(dev: Dev, e: Dev, p: PeerConf)
    requires p.key in e && Nets(p.allowed) == e[p.key].allowed && p.keepalive == e[p.key].keepalive
    requires dev.Keys !! e.Keys && Owned(dev + e)
    ensures Apply(dev, Given(AsConf(p))) == dev[p.key := e[p.key]]
  {
    var d := Apply(dev, Given(AsConf(p)));
    assert p.key !in dev;
    forall k | k in dev ensures d[k] == dev[k] {
      assert (dev + e)[k] == dev[k] && (dev + e)[p.key] == e[p.key];
      assert dev[k].allowed - Nets(p.allowed) == dev[k].allowed;
    }
    assert {} + Nets(p.allowed) == Nets(p.allowed);
    assert d[p.key] == e[p.key];
  }

  lemma ListingFacts(list: seq<PeerConf>, e: Dev)
    requires IsListing(list, e)
    ensures list == [] ==> e == map[]
    ensures list != [] ==>
      list[0].key in e && Nets(list[0].allowed) == e[list[0].key].allowed && list[0].keepalive == e[list[0].key].keepalive
  {
    if list != [] { assert list[0] in list && list[0].key in Keys(list); }
  }

  lemma {:induction false} RebuildDevice(dev: Dev, e: Dev, list: seq<PeerConf>)
    requires IsListing(list, e) && dev.Keys !! e.Keys && Owned(dev + e)
    ensures ApplyAll(dev, AsConfs(list)) == dev + e
    decreases |list|
  {
    hide Keys, Apply, Given, AsConf, Nets, Owned, IsListing;
    ListingFacts(list, e);
    if list == [] {
      assert e == map[];
    } else {
      var p, rest := list[0], e - {list[0].key};
      ApplyNew(dev, e, p);
      assert AsConfs(list)[1..] == AsConfs(list[1..]);
      RestIsListing(list, e);
      assert dev[p.key := e[p.key]] + rest == dev + e;
      RebuildDevice(dev[p.key := e[p.key]], rest, list[1..]);
    }
  }

  lemma RestIsListing(list: seq<PeerConf>, e: Dev)
    requires IsListing(list, e) && list != []
    ensures IsListing(list[1..], e - {list[0].key})
  {
    KeysFirst(list);
    forall p | p in list[1..] ensures p.key != list[0].key && p in list {
      var i :| 0 <= i < |list[1..]| && list[1..][i] == p;
      assert list[i + 1] == p;
    }
    forall p | p in list[1..] ensures p.key in Keys(list[1..]) {}
    assert list[0].key !in Keys(list[1..]);
  }

  lemma KeysFirst(list: seq<PeerConf>)
    requires list != []
    ensures Keys(list) == {list[0].key} + Keys(list[1..])
  {
    assert forall p | p in list :: p == list[0] || p in list[1..];
    assert forall p | p in list[1..] :: p in list;
    assert list[0] in list;
  }

  /** The device rebuilt from the file that was saved is the device the file was saved from. */
  lemma FileRestoresDevice(n: Net, v: View, priv: Key, port: nat, gateway: string, list: seq<PeerConf>)
    requires n.Valid() && Consistent(n, v) && IsListing(list, v.dev)
    requires Text.Trimmed(gateway) && '\n' !in gateway
    ensures Restored(ConfigText(priv, port, gateway, list)).0 == Some(priv)
    ensures ApplyAll(map[], Restored(ConfigText(priv, port, gateway, list)).1) == v.dev
  {
    hide Restored, ConfigText, Printable, ApplyAll, IsListing, Consistent, Owned;
    DeviceOwned(n, v);
    forall p | p in list ensures Printable(p) { AllowedAreHosts(n, v, list, p); }
    RestoreIntact(priv, port, gateway, list);
    assert map[] + v.dev == v.dev;
    RebuildDevice(map[], v.dev, list);
  }

  lemma DeviceOwned(n: Net, v: View)
    requires Consistent(n, v)
    ensures Owned(v.dev)
  {}

  lemma AllowedAreHosts(n: Net, v: View, list: seq<PeerConf>, p: PeerConf)
    requires n.Valid() && Consistent(n, v) && IsListing(list, v.dev) && p in list
    ensures Printable(p)
  {
    hide ParseIP, Decode, Encode, FormatIP, KeyOf;
    assert p.key in Keys(list);
    var s :| s in v.peers && KeyOf(s) == p.key;
    assert PeerAgrees(n, v, s);
    forall a | a in p.allowed ensures Masked(a) {
      assert a in Nets(p.allowed);
      assert Pow2(0) == 1;
    }
  }
}
