/** From resolved segments and a requested control plane to per-host BGP neighbour lists (scripts/render-topology.py)
    and on to FRR configuration (ansible/roles/frr-evpn/tasks/main.yml). */
module ControlPlane {
  import opened Text
  import opened Topology
  import opened ReflectorPlane

  // ---------- one underlay per VTEP host ----------

  datatype Underlay = Underlay(host: string, nic: string, mac: string, ip: string, address: string)

  function UnderlayOf(v: Vtep): Underlay {
    Underlay(v.host, v.underlayNic, v.underlayMac, v.underlayIp, v.underlayAddress)
  }

  function VtepSet(segs: seq<Segment>): set<Vtep> {
    set s, v | s in segs && v in s.vteps :: v
  }

  function HostsOf(vteps: set<Vtep>): set<string> {
    set v | v in vteps :: v.host
  }

  predicate Agree(vteps: set<Vtep>) {
    forall v, w :: v in vteps && w in vteps && v.host == w.host ==> UnderlayOf(v) == UnderlayOf(w)
  }

  type Underlays = map<string, Underlay>

  predicate IsTable(m: Underlays, vteps: set<Vtep>) {
    m.Keys == HostsOf(vteps) && forall v :: v in vteps ==> m[v.host] == UnderlayOf(v)
  }

  lemma AddVtep(m: Underlays, done: set<Vtep>, v: Vtep)
    requires IsTable(m, done) && Agree(done)
    requires v.host in m ==> m[v.host] == UnderlayOf(v)
    ensures IsTable(m[v.host := UnderlayOf(v)], done + {v}) && Agree(done + {v})
  {
  }

  method TabulateSegment(vteps: seq<Vtep>, table: Underlays, ghost done: set<Vtep>) returns (r: Result<Underlays>)
    requires IsTable(table, done) && Agree(done)
    ensures r.Ok? <==> Agree(done + Elements(vteps))
    ensures r.Ok? ==> IsTable(r.value, done + Elements(vteps))
  {
    var underlays := table;
    ghost var acc := done;
    for j := 0 to |vteps|
      invariant acc == done + Elements(vteps[..j])
      invariant IsTable(underlays, acc) && Agree(acc)
    {
      var v := vteps[j];
      MoreElements(vteps, j);
      if v.host in underlays && underlays[v.host] != UnderlayOf(v) {
        Disagreement(done + Elements(vteps), acc, v);
        return Die;
      }
      AddVtep(underlays, acc, v);
      underlays := underlays[v.host := UnderlayOf(v)];
      acc := acc + {v};
    }
    assert vteps[..|vteps|] == vteps;
    return Ok(underlays);
  }

  lemma MoreElements<T>(s: seq<T>, j: nat)
    requires j < |s|
    ensures Elements(s[..j + 1]) == Elements(s[..j]) + {s[j]} && s[j] in Elements(s) && Elements(s[..j]) <= Elements(s)
  {
    assert s[..j + 1] == s[..j] + [s[j]];
  }

  lemma MoreVteps(segs: seq<Segment>, i: nat)
    requires i < |segs|
    ensures VtepSet(segs[..i + 1]) == VtepSet(segs[..i]) + Elements(segs[i].vteps)
    ensures VtepSet(segs[..i + 1]) <= VtepSet(segs)
  {
    assert segs[..i + 1] == segs[..i] + [segs[i]];
    assert segs[i] in segs && forall s :: s in segs[..i] ==> s in segs;
  }

  /** u says of a host what its VTEP v does. */
  predicate IsUnderlay(u: Underlay, v: Vtep) {
    && u.host == v.host && u.nic == v.underlayNic && u.mac == v.underlayMac && u.ip == v.underlayIp
    && u.address == v.underlayAddress
  }

  /** Succeeds exactly when the VTEPs agree, and then tabulates them. */
  method VtepUnderlays(segs: seq<Segment>) returns (r: Result<Underlays>)
    ensures r.Ok? <==> Agree(VtepSet(segs))
    ensures r.Ok? ==> IsTable(r.value, VtepSet(segs))
    ensures r.Ok? ==> forall v :: v in VtepSet(segs) ==> v.host in r.value && IsUnderlay(r.value[v.host], v)
  {
    var underlays: Underlays := map[];
    for i := 0 to |segs|
      invariant IsTable(underlays, VtepSet(segs[..i])) && Agree(VtepSet(segs[..i]))
    {
      MoreVteps(segs, i);
      var next := TabulateSegment(segs[i].vteps, underlays, VtepSet(segs[..i]));
      if next.Die? {
        if Agree(VtepSet(segs)) { AgreeSubset(VtepSet(segs[..i + 1]), VtepSet(segs)); }
        return Die;
      }
      underlays := next.value;
    }
    assert segs[..|segs|] == segs;
    return Ok(underlays);
  }

  lemma AgreeSubset(a: set<Vtep>, b: set<Vtep>)
    requires a <= b && Agree(b)
    ensures Agree(a)
  {
  }

  lemma Disagreement(all: set<Vtep>, done: set<Vtep>, v: Vtep)
    requires done <= all && v in all
    requires exists w :: w in done && w.host == v.host && UnderlayOf(w) != UnderlayOf(v)
    ensures !Agree(all)
  {
  }

  /** The order segments are declared in does not matter: same verdict, same table. */
  lemma OrderIndependent(segs: seq<Segment>, other: seq<Segment>, m: Underlays, m': Underlays)
    requires multiset(segs) == multiset(other)
    ensures Agree(VtepSet(segs)) <==> Agree(VtepSet(other))
    ensures IsTable(m, VtepSet(segs)) && IsTable(m', VtepSet(other)) ==> m == m'
  {
    forall s ensures s in segs <==> s in other {
      assert s in segs <==> s in multiset(segs);
      assert s in other <==> s in multiset(other);
    }
    assert VtepSet(segs) == VtepSet(other);
    if IsTable(m, VtepSet(segs)) && IsTable(m', VtepSet(other)) {
      forall h | h in m ensures m[h] == m'[h] {
        var v :| v in VtepSet(segs) && v.host == h;
      }
    }
  }

  /** On a checked topology the only possible disagreement is a host that names two different underlay NICs. */
  lemma AgreeIffOneNic(hosts: Hosts, raw: Declared, segs: seq<Segment>)
    requires ValidSegments(hosts, raw) && Lowered(hosts, raw, segs)
    ensures Agree(VtepSet(segs)) <==>
            forall v, w :: v in AllVteps(raw) && w in AllVteps(raw) && v.host == w.host ==>
              v.underlayNic == w.underlayNic
  {
    var vteps := VtepSet(segs);
    if Agree(vteps) {
      forall v, w | v in AllVteps(raw) && w in AllVteps(raw) && v.host == w.host
        ensures v.underlayNic == w.underlayNic
      {
        var v' := LoweredFrom(hosts, raw, segs, v);
        var w' := LoweredFrom(hosts, raw, segs, w);
        assert UnderlayOf(v') == UnderlayOf(w');
      }
    }
    if forall v, w :: v in AllVteps(raw) && w in AllVteps(raw) && v.host == w.host ==> v.underlayNic == w.underlayNic {
      forall v, w | v in vteps && w in vteps && v.host == w.host ensures UnderlayOf(v) == UnderlayOf(w) {
        var v' := DeclaredFor(hosts, raw, segs, v);
        var w' := DeclaredFor(hosts, raw, segs, w);
        assert v'.underlayNic == w'.underlayNic;
      }
    }
  }

  lemma LoweredFrom(hosts: Hosts, raw: Declared, segs: seq<Segment>, v: RawVtep) returns (out: Vtep)
    requires Lowered(hosts, raw, segs) && v in AllVteps(raw)
    ensures out in VtepSet(segs) && LoweredVtep(hosts, v, out)
  {
    AllVtepsMember(raw, v);
    var p :| p in raw && v in p.1.vteps;
    var i :| 0 <= i < |raw| && raw[i] == p;
    var j :| 0 <= j < |raw[i].1.vteps| && raw[i].1.vteps[j] == v;
    assert LoweredSegment(hosts, raw[i].0, raw[i].1, segs[i]);
    out := segs[i].vteps[j];
    assert LoweredVtep(hosts, raw[i].1.vteps[j], out);
    assert segs[i] in segs && out in segs[i].vteps;
  }

  lemma DeclaredFor(hosts: Hosts, raw: Declared, segs: seq<Segment>, out: Vtep) returns (v: RawVtep)
    requires Lowered(hosts, raw, segs) && out in VtepSet(segs)
    ensures v in AllVteps(raw) && LoweredVtep(hosts, v, out)
  {
    var s :| s in segs && out in s.vteps;
    var i :| 0 <= i < |segs| && segs[i] == s;
    var j :| 0 <= j < |s.vteps| && s.vteps[j] == out;
    assert LoweredSegment(hosts, raw[i].0, raw[i].1, s);
    v := raw[i].1.vteps[j];
    assert LoweredVtep(hosts, v, s.vteps[j]);
    assert raw[i] in raw && v in raw[i].1.vteps;
    AllVtepsMember(raw, v);
  }

  // ---------- the requested control plane ----------

  datatype RawControl = NoControl
                      | Control(kind: Option<string>, asn: Option<int>, peering: Option<string>,
                                reflectors: seq<string>)

  datatype Plan = Static | Evpn(asn: int, mesh: bool, reflectors: seq<string>)

  function Or<T>(o: Option<T>, default: T): T { if o.Some? then o.value else default }

  function ValidateControlPlane(segs: seq<Segment>, c: RawControl): Result<Plan> {
    if c.NoControl? then Ok(Static)
    else if Or(c.kind, "static") == "static" then Ok(Static)
    else if c.kind != Some("evpn") || segs == [] then Die
    else
      var asn, peering := Or(c.asn, 65000), Or(c.peering, "full_mesh");
      if !(1 <= asn <= 4294967295) || (peering != "full_mesh" && peering != "route_reflector") then Die
      else if (peering == "route_reflector") != (c.reflectors != []) then Die
      else if (exists r :: r in c.reflectors && r !in HostsOf(VtepSet(segs))) || !Distinct(c.reflectors) then Die
      else Ok(Evpn(asn, peering == "full_mesh", c.reflectors))
  }

  /** The roles a plan assigns. */
  function PlaneOf(plan: Plan, hosts: set<string>): Plane
    requires plan.Evpn?
  {
    Plane(hosts, Elements(plan.reflectors), plan.mesh)
  }

  /** Every accepted EVPN request assigns valid roles: reflectors are VTEPs, and there are some exactly when the
      peering is not a full mesh. */
  lemma AcceptedPlanIsValid(segs: seq<Segment>, c: RawControl)
    requires ValidateControlPlane(segs, c).Ok? && ValidateControlPlane(segs, c).value.Evpn?
    ensures PlaneOf(ValidateControlPlane(segs, c).value, HostsOf(VtepSet(segs))).Valid()
    ensures Distinct(ValidateControlPlane(segs, c).value.reflectors)
  {
    if c.reflectors != [] {
      assert c.reflectors[0] in Elements(c.reflectors);
    }
  }

  predicate IsVtepHost(segs: seq<Segment>, h: string) { exists s, v :: s in segs && v in s.vteps && v.host == h }

  /** The request c, on these segments, asks for an EVPN control plane of this AS, peering and reflectors. */
  ghost predicate Requests(segs: seq<Segment>, c: RawControl, asn: int, mesh: bool, reflectors: seq<string>) {
    && c.Control? && c.kind == Some("evpn") && segs != []
    && (c.asn == Some(asn) || (c.asn == None && asn == 65000)) && 1 <= asn <= 4294967295
    && (if mesh then c.peering == None || c.peering == Some("full_mesh") else c.peering == Some("route_reflector"))
    && c.reflectors == reflectors && (mesh <==> reflectors == [])
    && (forall i, j :: 0 <= i < j < |reflectors| ==> reflectors[i] != reflectors[j])
    && forall r :: r in reflectors ==> IsVtepHost(segs, r)
  }

  lemma VtepHostsExactly(segs: seq<Segment>, h: string)
    ensures h in HostsOf(VtepSet(segs)) <==> IsVtepHost(segs, h)
  {
    if h in HostsOf(VtepSet(segs)) {
      var v :| v in VtepSet(segs) && v.host == h;
      var s :| s in segs && v in s.vteps;
    }
    if IsVtepHost(segs, h) {
      var s, v :| s in segs && v in s.vteps && v.host == h;
      assert v in VtepSet(segs);
    }
  }

  /** The check yields a plan exactly when the request asks for it, with every reflector in its place; the static plane
      exactly without a request or for no type or type static; and dies on everything else. */
  lemma PlanExactly(segs: seq<Segment>, c: RawControl, asn: int, mesh: bool, reflectors: seq<string>)
    ensures ValidateControlPlane(segs, c) == Ok(Evpn(asn, mesh, reflectors)) <==>
            Requests(segs, c, asn, mesh, reflectors)
    ensures ValidateControlPlane(segs, c) == Ok(Static) <==> c.NoControl? || c.kind == None || c.kind == Some("static")
  {
    forall h ensures h in HostsOf(VtepSet(segs)) <==> IsVtepHost(segs, h) {
      VtepHostsExactly(segs, h);
    }
  }

  /** The roles an accepted request assigns: VTEP hosts are the routers, the declared reflectors are the reflectors, and
      without any it is a full mesh. */
  lemma RolesExactly(segs: seq<Segment>, c: RawControl, asn: int, mesh: bool, reflectors: seq<string>, h: string)
    requires Requests(segs, c, asn, mesh, reflectors)
    ensures ValidateControlPlane(segs, c).Ok? && ValidateControlPlane(segs, c).value.Evpn?
    ensures var pl := PlaneOf(ValidateControlPlane(segs, c).value, HostsOf(VtepSet(segs)));
            && (h in pl.routers <==> IsVtepHost(segs, h)) && (h in pl.reflectors <==> h in c.reflectors)
            && (pl.mesh <==> c.peering != Some("route_reflector"))
  {
    PlanExactly(segs, c, asn, mesh, reflectors);
    VtepHostsExactly(segs, h);
  }

  // ---------- neighbour lists ----------

  datatype Peer = Peer(host: string, address: string, client: bool)

  datatype HostPlane = HostPlane(underlay: Underlay, routerId: string, reflector: bool, peers: seq<Peer>)

  type Resolved = map<string, HostPlane>

  function PeerSet(pl: Plane, h: string): set<string> {
    set p | p in pl.routers && pl.Adjacent(h, p)
  }

  function PeerEntry(pl: Plane, table: Underlays, h: string, p: string): Peer
    requires p in table
  {
    Peer(p, table[p].address, h in pl.reflectors && p !in pl.reflectors)
  }

  function NamesOf(peers: seq<Peer>): (r: seq<string>)
    ensures |r| == |peers| && forall i :: 0 <= i < |peers| ==> r[i] == peers[i].host
  {
    seq(|peers|, i requires 0 <= i < |peers| => peers[i].host)
  }

  /** The list of h: exactly its neighbours, strictly sorted, each with its own address and client flag. */
  predicate PeersFor(pl: Plane, table: Underlays, h: string, peers: seq<Peer>) {
    && Sorted(NamesOf(peers)) && Elements(NamesOf(peers)) == PeerSet(pl, h)
    && forall i :: 0 <= i < |peers| ==> peers[i].host in table && peers[i] == PeerEntry(pl, table, h, peers[i].host)
  }

  predicate PlaneFor(pl: Plane, table: Underlays, h: string, hp: HostPlane) {
    && h in table && hp.underlay == table[h] && hp.routerId == table[h].address && hp.reflector == (h in pl.reflectors)
    && PeersFor(pl, table, h, hp.peers)
  }

  predicate AllFor(pl: Plane, table: Underlays, out: Resolved) {
    forall h :: h in out ==> PlaneFor(pl, table, h, out[h])
  }

  predicate IsResolved(pl: Plane, table: Underlays, out: Resolved) {
    out.Keys == pl.routers && AllFor(pl, table, out)
  }

  /** [peer for peer in hosts if peer != host] on the sorted host list. */
  function Others(hosts: seq<string>, h: string): (r: seq<string>)
    requires Sorted(hosts)
    ensures Elements(r) == Elements(hosts) - {h} && Sorted(r)
  {
    if hosts == [] then []
    else
      var rest := Others(hosts[1..], h);
      assert forall x :: x in rest <==> x in Elements(rest);
      assert forall x :: x in rest ==> x in hosts[1..];
      if hosts[0] == h then HeadIsLeast(hosts); rest
      else
        assert forall x :: x in rest ==> Less(hosts[0], x);
        [hosts[0]] + rest
  }

  /** The neighbour names of a host, in the order they are generated. */
  function PeerHosts(pl: Plane, h: string): seq<string> {
    if pl.mesh || h in pl.reflectors then Others(SortedOf(pl.routers), h) else SortedOf(pl.reflectors)
  }

  lemma PeerHostsSorted(pl: Plane, h: string)
    requires pl.Valid() && h in pl.routers
    ensures Sorted(PeerHosts(pl, h)) && Elements(PeerHosts(pl, h)) == PeerSet(pl, h)
    ensures forall p :: p in PeerHosts(pl, h) <==> p in PeerSet(pl, h)
  {
    var names := PeerHosts(pl, h);
    assert Elements(names) == PeerSet(pl, h);
    assert forall p :: p in names <==> p in Elements(names);
  }

  method PeersOf(pl: Plane, table: Underlays, h: string) returns (hp: HostPlane)
    requires pl.Valid() && pl.routers == table.Keys && h in pl.routers
    ensures PlaneFor(pl, table, h, hp)
  {
    PeerHostsSorted(pl, h);
    var peers := PeerEntries(pl, table, h, PeerHosts(pl, h));
    hp := HostPlane(table[h], table[h].address, h in pl.reflectors, peers);
  }

  method PeerEntries(pl: Plane, table: Underlays, h: string, names: seq<string>) returns (peers: seq<Peer>)
    requires forall p :: p in names ==> p in table
    ensures NamesOf(peers) == names
    ensures forall i :: 0 <= i < |peers| ==>
              peers[i].host in table && peers[i] == PeerEntry(pl, table, h, peers[i].host)
  {
    peers := [];
    for k := 0 to |names|
      invariant |peers| == k
      invariant forall i :: 0 <= i < k ==> names[i] in table && peers[i] == PeerEntry(pl, table, h, names[i])
    {
      peers := peers + [PeerEntry(pl, table, h, names[k])];
    }
  }

  /** Lowering an accepted EVPN plan fails only when the underlays disagree, and otherwise gives every VTEP host its
      sorted neighbour list with addresses and client flags. */
  method ResolveControlPlane(plan: Plan, segs: seq<Segment>) returns (r: Result<Resolved>, ghost table: Underlays)
    requires plan.Evpn? && PlaneOf(plan, HostsOf(VtepSet(segs))).Valid()
    ensures r.Ok? <==> Agree(VtepSet(segs))
    ensures r.Ok? ==> IsTable(table, VtepSet(segs)) && IsResolved(PlaneOf(plan, HostsOf(VtepSet(segs))), table, r.value)
  {
    var underlays := VtepUnderlays(segs);
    if underlays.Die? {
      return Die, map[];
    }
    var hosts := ResolveHosts(PlaneOf(plan, underlays.value.Keys), underlays.value, SortedOf(underlays.value.Keys));
    return Ok(hosts), underlays.value;
  }

  lemma AddHost(pl: Plane, table: Underlays, out: Resolved, h: string, hp: HostPlane)
    requires AllFor(pl, table, out) && PlaneFor(pl, table, h, hp)
    ensures AllFor(pl, table, out[h := hp])
  {
  }

  method ResolveHosts(pl: Plane, table: Underlays, vtepHosts: seq<string>) returns (hosts: Resolved)
    requires pl.Valid() && pl.routers == table.Keys == Elements(vtepHosts)
    ensures IsResolved(pl, table, hosts)
  {
    hosts := map[];
    for k := 0 to |vtepHosts|
      invariant hosts.Keys == Elements(vtepHosts[..k])
      invariant AllFor(pl, table, hosts)
    {
      var h := vtepHosts[k];
      assert h in Elements(vtepHosts);
      var hp := PeersOf(pl, table, h);
      AddHost(pl, table, hosts, h, hp);
      hosts := hosts[h := hp];
      assert vtepHosts[..k + 1] == vtepHosts[..k] + [h];
    }
    assert vtepHosts[..|vtepHosts|] == vtepHosts;
  }
}
