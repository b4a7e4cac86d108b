/** What FRR makes of a printed configuration file, line after line
    (ansible/roles/frr-evpn/tasks/main.yml). */
module FrrLoad {
  import opened Text
  import opened Topology
  import opened ControlPlane
  import opened FrrConfig

  /** The block a line is read in. */
  datatype Block = Top | Router | Family

  datatype Session = Session(remoteAs: int, source: Option<string>, active: bool, client: bool)

  /** What is configured so far: host name, AS and router ID, whether sessions carry IPv4 unicast by default, whether
      local VNIs are advertised, and the neighbours. */
  datatype Bgp = Bgp(block: Block, hostname: string, asn: Option<int>, routerId: Option<string>, unicast: bool,
                     vnis: bool, sessions: map<string, Session>)

  const EMPTY := Bgp(Top, "", None, None, true, false, map[])

  /** One line. A line outside its block, and a setting for a neighbour that has no AS yet, are refused; texts that
      concern neither BGP nor the blocks are skipped. */
  function Take(b: Bgp, l: Line): Result<Bgp> {
    match l
    case RouterBgp(n) => if b.asn.Some? && b.asn != Some(n) then Die else Ok(b.(block := Router, asn := Some(n)))
    case RouterId(a) => if b.block.Router? then Ok(b.(routerId := Some(a))) else Die
    case RemoteAs(a, n) =>
      if !b.block.Router? then Die
      else
        var known := if a in b.sessions then b.sessions[a] else Session(n, None, false, false);
        Ok(b.(sessions := b.sessions[a := known.(remoteAs := n)]))
    case UpdateSource(a, u) =>
      if !b.block.Router? || a !in b.sessions then Die
      else Ok(b.(sessions := b.sessions[a := b.sessions[a].(source := Some(u))]))
    case Activate(a) =>
      if !b.block.Family? || a !in b.sessions then Die
      else Ok(b.(sessions := b.sessions[a := b.sessions[a].(active := true)]))
    case ReflectorClient(a) =>
      if !b.block.Family? || a !in b.sessions then Die
      else Ok(b.(sessions := b.sessions[a := b.sessions[a].(client := true)]))
    case Fixed(text) => TakeText(b, text)
  }

  function TakeText(b: Bgp, text: string): Result<Bgp> {
    if text == " no bgp default ipv4-unicast" then (if b.block.Router? then Ok(b.(unicast := false)) else Die)
    else if text == " address-family l2vpn evpn" then (if b.block.Router? then Ok(b.(block := Family)) else Die)
    else if text == "  advertise-all-vni" then (if b.block.Family? then Ok(b.(vnis := true)) else Die)
    else if text == " exit-address-family" then (if b.block.Family? then Ok(b.(block := Router)) else Die)
    else if text == "line vty" then Ok(b.(block := Top))
    else if "hostname " <= text then Ok(b.(hostname := text[9..]))
    else Ok(b)
  }

  function Load(b: Bgp, lines: seq<Line>): Result<Bgp>
    decreases lines
  {
    if lines == [] then Ok(b)
    else
      match Take(b, lines[0])
      case Die => Die
      case Ok(next) => Load(next, lines[1..])
  }

  lemma {:induction false} LoadConcat(b: Bgp, p: seq<Line>, q: seq<Line>)
    ensures Load(b, p + q) == match Load(b, p) case Die => Die case Ok(next) => Load(next, q)
    decreases p
  {
    if p == [] {
      assert p + q == q;
    } else {
      assert (p + q)[1..] == p[1..] + q;
      var next := Take(b, p[0]);
      if next.Ok? { LoadConcat(next.value, p[1..], q); }
    }
  }

  lemma LoadOne(b: Bgp, l: Line)
    ensures Load(b, [l]) == Take(b, l)
  {
    assert [l][1..] == [];
  }

  lemma LoadTwo(b: Bgp, l: Line, m: Line)
    ensures Load(b, [l, m]) == match Take(b, l) case Die => Die case Ok(next) => Take(next, m)
  {
    assert [l, m][1..] == [m];
    if Take(b, l).Ok? { LoadOne(Take(b, l).value, m); }
  }

  /** What the two loops are to configure: every listed address, and no other, as an iBGP neighbour reached from
      the own address. */
  ghost predicate Configured(peers: seq<Peer>, asn: int, source: string, sessions: map<string, Session>) {
    && (forall a :: a in sessions <==> Addresses(peers, a))
    && forall a :: a in sessions ==> sessions[a].remoteAs == asn && sessions[a].source == Some(source)
  }

  lemma {:induction false} NeighboursLoaded(b: Bgp, peers: seq<Peer>, asn: int, source: string)
    requires b.block.Router? && b.sessions == map[]
    ensures var r := Load(b, NeighbourLines(peers, asn, source));
            && r.Ok? && r.value == b.(sessions := r.value.sessions)
            && Configured(peers, asn, source, r.value.sessions)
            && forall a :: a in r.value.sessions ==> !r.value.sessions[a].active && !r.value.sessions[a].client
  {
    if peers != [] {
      var rest, e := peers[..|peers| - 1], peers[|peers| - 1];
      assert peers == rest + [e];
      NeighboursLoaded(b, rest, asn, source);
      var before := Load(b, NeighbourLines(rest, asn, source)).value;
      LoadConcat(b, NeighbourLines(rest, asn, source), [RemoteAs(e.address, asn), UpdateSource(e.address, source)]);
      LoadTwo(before, RemoteAs(e.address, asn), UpdateSource(e.address, source));
      forall a ensures Addresses(peers, a) <==> Addresses(rest, a) || e.address == a {
        OneMore(rest, e, a);
      }
    }
  }

  function Marked(s: Session, e: Peer): Session { s.(active := true, client := s.client || e.client) }

  lemma TakeActivate(b: Bgp, a: string)
    requires b.block.Family? && a in b.sessions
    ensures Take(b, Activate(a)) == Ok(b.(sessions := b.sessions[a := b.sessions[a].(active := true)]))
    ensures Take(b, ReflectorClient(a)) == Ok(b.(sessions := b.sessions[a := b.sessions[a].(client := true)]))
  {
  }

  function PeerLines(e: Peer): seq<Line> {
    if e.client then [Activate(e.address), ReflectorClient(e.address)] else [Activate(e.address)]
  }

  lemma PeerLoaded(b: Bgp, e: Peer)
    requires b.block.Family? && e.address in b.sessions
    ensures Load(b, PeerLines(e)) == Ok(b.(sessions := b.sessions[e.address := Marked(b.sessions[e.address], e)]))
  {
    var next := b.(sessions := b.sessions[e.address := b.sessions[e.address].(active := true)]);
    TakeActivate(b, e.address);
    TakeActivate(next, e.address);
    LoadOne(b, Activate(e.address));
    LoadTwo(b, Activate(e.address), ReflectorClient(e.address));
    assert b.sessions[e.address := next.sessions[e.address]][e.address := Marked(b.sessions[e.address], e)] ==
           b.sessions[e.address := Marked(b.sessions[e.address], e)];
  }

  ghost predicate AllMarked(peers: seq<Peer>, before: map<string, Session>, after: map<string, Session>) {
    && after.Keys == before.Keys
    && forall a :: a in before ==>
         after[a] == before[a].(active := before[a].active || Addresses(peers, a),
                                client := before[a].client || ClientAddress(peers, a))
  }

  lemma MarkedMore(rest: seq<Peer>, e: Peer, before: map<string, Session>, after: map<string, Session>)
    requires AllMarked(rest, before, after) && e.address in after
    ensures AllMarked(rest + [e], before, after[e.address := Marked(after[e.address], e)])
  {
    forall a
      ensures Addresses(rest + [e], a) <==> Addresses(rest, a) || e.address == a
      ensures ClientAddress(rest + [e], a) <==> ClientAddress(rest, a) || (e.address == a && e.client)
    {
      OneMore(rest, e, a);
    }
  }

  lemma {:induction false} FamilyLoaded(b: Bgp, peers: seq<Peer>)
    requires b.block.Family? && forall e :: e in peers ==> e.address in b.sessions
    ensures var r := Load(b, FamilyLines(peers));
            && r.Ok? && r.value == b.(sessions := r.value.sessions)
            && AllMarked(peers, b.sessions, r.value.sessions)
  {
    if peers != [] {
      var rest, e := peers[..|peers| - 1], peers[|peers| - 1];
      assert peers == rest + [e] && e in peers && forall x :: x in rest ==> x in peers;
      FamilyLoaded(b, rest);
      var before := Load(b, FamilyLines(rest)).value;
      assert FamilyLines(peers) == FamilyLines(rest) + PeerLines(e);
      LoadConcat(b, FamilyLines(rest), PeerLines(e));
      PeerLoaded(before, e);
      MarkedMore(rest, e, b.sessions, before.sessions);
    }
  }

  /** FRR accepts the printed file, in the order it is printed, and is then configured as the resolved control plane
      asks: the AS, the host's router ID, no IPv4 unicast, all VNIs advertised, and exactly the listed addresses as
      active iBGP neighbours reached from the own underlay address, just those listed as clients marked as clients. */
  lemma LoadedExactly(host: string, asn: int, hp: HostPlane)
    ensures var r := Load(EMPTY, FrrLines(host, asn, hp));
            && r.Ok? && r.value.block.Top? && r.value.hostname == host
            && r.value.asn == Some(asn) && r.value.routerId == Some(hp.routerId) && !r.value.unicast && r.value.vnis
            && (forall a :: a in r.value.sessions <==> exists e :: e in hp.peers && e.address == a)
            && forall a :: a in r.value.sessions ==>
                 r.value.sessions[a] == Session(asn, Some(hp.underlay.address), true,
                                                exists e :: e in hp.peers && e.address == a && e.client)
  {
    var source := hp.underlay.address;
    var a, n, f := Opening(host, asn, hp), NeighbourLines(hp.peers, asn, source), FamilyLines(hp.peers);
    LoadConcat(EMPTY, a + n + FAMILY + f, CLOSING);
    LoadConcat(EMPTY, a + n + FAMILY, f);
    LoadConcat(EMPTY, a + n, FAMILY);
    LoadConcat(EMPTY, a, n);
    OpeningLoaded(host, asn, hp);
    var begun := Load(EMPTY, a).value;
    NeighboursLoaded(begun, hp.peers, asn, source);
    var neighbours := Load(begun, n).value;
    FamilyOpened(neighbours);
    forall e | e in hp.peers ensures e.address in neighbours.sessions {
      assert Addresses(hp.peers, e.address);
    }
    FamilyLoaded(neighbours.(block := Family), hp.peers);
    ClosingLoaded(Load(neighbours.(block := Family), f).value);
  }

  lemma OpeningLoaded(host: string, asn: int, hp: HostPlane)
    ensures Load(EMPTY, Opening(host, asn, hp)) ==
            Ok(Bgp(Router, host, Some(asn), Some(hp.routerId), false, false, map[]))
  {
    var l := Opening(host, asn, hp);
    var named := EMPTY.(hostname := host);
    var b := named.(block := Router, asn := Some(asn));
    assert l == ([l[0], l[1]] + [l[2], l[3]]) + ([l[4], l[5]] + [l[6]]);
    LoadConcat(EMPTY, [l[0], l[1]] + [l[2], l[3]], [l[4], l[5]] + [l[6]]);
    LoadConcat(EMPTY, [l[0], l[1]], [l[2], l[3]]);
    Skipped(EMPTY, "frr defaults traditional");
    Hostname(EMPTY, host);
    LoadTwo(EMPTY, l[0], l[1]);
    Skipped(named, "service integrated-vtysh-config");
    Skipped(named, "!");
    LoadTwo(named, l[2], l[3]);
    LoadConcat(named, [l[4], l[5]], [l[6]]);
    LoadTwo(named, l[4], l[5]);
    LoadOne(b.(routerId := Some(hp.routerId)), l[6]);
  }

  lemma Skipped(b: Bgp, text: string)
    requires text != [] && text[0] != ' ' && text[0] != 'l' && text[0] != 'h'
    ensures Take(b, Fixed(text)) == Ok(b)
  {
    assert "hostname "[0] == 'h' && "line vty"[0] == 'l';
  }

  lemma Hostname(b: Bgp, host: string)
    ensures Take(b, Fixed("hostname " + host)) == Ok(b.(hostname := host))
  {
    var text := "hostname " + host;
    assert text[0] == 'h' && text[9..] == host;
  }

  lemma FamilyOpened(b: Bgp)
    requires b.block.Router?
    ensures Load(b, FAMILY) == Ok(b.(block := Family))
  {
    LoadTwo(b, FAMILY[0], FAMILY[1]);
  }

  lemma ClosingLoaded(b: Bgp)
    requires b.block.Family?
    ensures Load(b, CLOSING) == Ok(b.(block := Top, vnis := true))
  {
    var l, c := CLOSING, b.(vnis := true);
    assert l == ([l[0], l[1]] + [l[2], l[3]]) + [l[4], l[5]];
    LoadConcat(b, [l[0], l[1]] + [l[2], l[3]], [l[4], l[5]]);
    LoadConcat(b, [l[0], l[1]], [l[2], l[3]]);
    LoadTwo(b, l[0], l[1]);
    LoadTwo(c.(block := Router), l[2], l[3]);
    LoadTwo(c.(block := Top), l[4], l[5]);
  }

  // ---------- from the request to the loaded configurations ----------

  /** u is to be a neighbour of x: another VTEP host, in a full mesh or with a reflector among the two. */
  predicate AreNeighbours(mesh: bool, reflectors: seq<string>, x: string, u: Vtep) {
    u.host != x && (mesh || x in reflectors || u.host in reflectors)
  }

  /** For an accepted request, the file printed for the host of a VTEP v configures the requested AS; v's own address as
      router ID and as source of every session; as neighbours exactly the addresses of the VTEPs on other hosts that v's
      host is to have a session with; and as clients, on a reflector only, those of VTEPs that are none. */
  lemma HostConfigured(segs: seq<Segment>, c: RawControl, asn: int, mesh: bool, reflectors: seq<string>,
                       table: Underlays, out: Resolved, v: Vtep)
    requires Requests(segs, c, asn, mesh, reflectors) && v in VtepSet(segs) && IsTable(table, VtepSet(segs))
    requires IsResolved(PlaneOf(Evpn(asn, mesh, reflectors), HostsOf(VtepSet(segs))), table, out)
    ensures v.host in out
    ensures var r := Load(EMPTY, FrrLines(v.host, asn, out[v.host]));
            && r.Ok? && r.value.asn == Some(asn) && r.value.routerId == Some(v.underlayAddress)
            && (forall a :: a in r.value.sessions <==>
                  exists u :: u in VtepSet(segs) && AreNeighbours(mesh, reflectors, v.host, u)
                              && u.underlayAddress == a)
            && forall a :: a in r.value.sessions ==>
                 && r.value.sessions[a].source == Some(v.underlayAddress) && r.value.sessions[a].active
                 && (r.value.sessions[a].client <==>
                       exists u :: u in VtepSet(segs) && AreNeighbours(mesh, reflectors, v.host, u)
                                   && u.underlayAddress == a && v.host in reflectors && u.host !in reflectors)
  {
    var pl := PlaneOf(Evpn(asn, mesh, reflectors), HostsOf(VtepSet(segs)));
    PlanExactly(segs, c, asn, mesh, reflectors);
    AcceptedPlanIsValid(segs, c);
    ResolvedGraph(pl, table, out, v.host);
    LoadedExactly(v.host, asn, out[v.host]);
    forall u | u in VtepSet(segs) && AreNeighbours(mesh, reflectors, v.host, u)
      ensures exists e :: e in out[v.host].peers && IsEntryFor(e, reflectors, v.host, u)
    {
      EntryOf(segs, asn, mesh, reflectors, table, out[v.host], v.host, u);
    }
    forall e | e in out[v.host].peers
      ensures exists u :: u in VtepSet(segs) && AreNeighbours(mesh, reflectors, v.host, u)
                          && IsEntryFor(e, reflectors, v.host, u)
    {
      var u := VtepOf(segs, asn, mesh, reflectors, table, out[v.host], v.host, e);
    }
  }

  /** The list entry of host x for the VTEP u. */
  predicate IsEntryFor(e: Peer, reflectors: seq<string>, x: string, u: Vtep) {
    e.host == u.host && e.address == u.underlayAddress && (e.client <==> x in reflectors && u.host !in reflectors)
  }

  lemma EntryOf(segs: seq<Segment>, asn: int, mesh: bool, reflectors: seq<string>, table: Underlays, hp: HostPlane,
                x: string, u: Vtep)
    requires IsTable(table, VtepSet(segs)) && x in HostsOf(VtepSet(segs)) && u in VtepSet(segs)
    requires ListsGraph(PlaneOf(Evpn(asn, mesh, reflectors), HostsOf(VtepSet(segs))), table, x, hp)
    requires AreNeighbours(mesh, reflectors, x, u)
    ensures exists e :: e in hp.peers && IsEntryFor(e, reflectors, x, u)
  {
    var pl := PlaneOf(Evpn(asn, mesh, reflectors), HostsOf(VtepSet(segs)));
    assert pl.Adjacent(x, u.host) && Lists(hp, u.host);
    var e :| e in hp.peers && e.host == u.host;
    assert e == PeerEntry(pl, table, x, u.host);
  }

  lemma VtepOf(segs: seq<Segment>, asn: int, mesh: bool, reflectors: seq<string>, table: Underlays, hp: HostPlane,
               x: string, e: Peer) returns (u: Vtep)
    requires IsTable(table, VtepSet(segs)) && x in HostsOf(VtepSet(segs)) && e in hp.peers
    requires ListsGraph(PlaneOf(Evpn(asn, mesh, reflectors), HostsOf(VtepSet(segs))), table, x, hp)
    ensures u in VtepSet(segs) && AreNeighbours(mesh, reflectors, x, u) && IsEntryFor(e, reflectors, x, u)
  {
    var pl := PlaneOf(Evpn(asn, mesh, reflectors), HostsOf(VtepSet(segs)));
    assert pl.Adjacent(x, e.host) && e == PeerEntry(pl, table, x, e.host);
    u :| u in VtepSet(segs) && u.host == e.host;
  }
}
