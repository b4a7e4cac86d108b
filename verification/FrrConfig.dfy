/** The generated neighbour lists, the FRR configuration printed from them (ansible/roles/frr-evpn/tasks/main.yml),
    and the network that configuration brings up. */
module FrrConfig {
  import opened Text
  import opened Topology
  import opened Examples
  import opened ControlPlane
  import opened ReflectorPlane
  import P = Propagation

  // ---------- the neighbour lists as a graph ----------

  predicate Lists(hp: HostPlane, p: string) {
    exists e :: e in hp.peers && e.host == p
  }

  lemma ListsExactly(pl: Plane, table: Underlays, h: string, hp: HostPlane, p: string)
    requires pl.Valid() && h in pl.routers && PlaneFor(pl, table, h, hp)
    ensures Lists(hp, p) <==> pl.Adjacent(h, p)
    ensures forall e :: e in hp.peers ==>
              pl.Adjacent(h, e.host) && e.host in table && e == PeerEntry(pl, table, h, e.host)
  {
    var names := NamesOf(hp.peers);
    assert forall x :: x in names <==> x in PeerSet(pl, h) by {
      assert forall x :: x in names <==> x in Elements(names);
    }
    if pl.Adjacent(h, p) {
      assert p in PeerSet(pl, h);
      var i :| 0 <= i < |names| && names[i] == p;
      assert hp.peers[i] in hp.peers && hp.peers[i].host == p;
    }
    forall e | e in hp.peers
      ensures pl.Adjacent(h, e.host) && e.host in table && e == PeerEntry(pl, table, h, e.host)
    {
      var i :| 0 <= i < |hp.peers| && hp.peers[i] == e;
      assert names[i] in names;
    }
  }

  /** The list of h, as a set: exactly its neighbours, each with its own address and client flag. */
  ghost predicate ListsGraph(pl: Plane, table: Underlays, h: string, hp: HostPlane) {
    && (forall p :: Lists(hp, p) <==> pl.Adjacent(h, p))
    && forall e :: e in hp.peers ==> pl.Adjacent(h, e.host) && e.host in table && e == PeerEntry(pl, table, h, e.host)
  }

  lemma ResolvedGraph(pl: Plane, table: Underlays, out: Resolved, h: string)
    requires pl.Valid() && IsResolved(pl, table, out) && h in out
    ensures ListsGraph(pl, table, h, out[h])
  {
    forall p ensures Lists(out[h], p) <==> pl.Adjacent(h, p) {
      ListsExactly(pl, table, h, out[h], p);
    }
    ListsExactly(pl, table, h, out[h], h);
  }

  /** Neighbour lists are strictly sorted and self-free; listing is mutual; and a session carries the client flag on
      exactly one side when it joins a reflector to a client, on no side otherwise. */
  lemma NeighbourLists(pl: Plane, table: Underlays, out: Resolved, x: string, y: string)
    requires pl.Valid() && IsResolved(pl, table, out) && x in out && y in out
    ensures forall i, j :: 0 <= i < j < |out[x].peers| ==> Less(out[x].peers[i].host, out[x].peers[j].host)
    ensures !Lists(out[x], x)
    ensures Lists(out[x], y) <==> Lists(out[y], x)
    ensures forall e, f :: e in out[x].peers && e.host == y && f in out[y].peers && f.host == x
              ==> !(e.client && f.client) && (e.client || f.client <==> !pl.SameRole(x, y))
  {
    ListsExactly(pl, table, x, out[x], x);
    ListsExactly(pl, table, x, out[x], y);
    ListsExactly(pl, table, y, out[y], x);
    if Lists(out[x], y) { assert pl.Adjacent(x, y); }
    var names := NamesOf(out[x].peers);
    assert forall i :: 0 <= i < |out[x].peers| ==> names[i] == out[x].peers[i].host;
  }

  /** Sum of the neighbour list lengths over a list of hosts. */
  function TotalPeers(out: Resolved, hosts: seq<string>): nat
    requires forall h :: h in hosts ==> h in out
  {
    if hosts == [] then 0
    else
      assert forall h :: h in hosts[1..] ==> h in hosts;
      |out[hosts[0]].peers| + TotalPeers(out, hosts[1..])
  }

  function CountReflectors(pl: Plane, hosts: seq<string>): nat {
    if hosts == [] then 0 else (if hosts[0] in pl.reflectors then 1 else 0) + CountReflectors(pl, hosts[1..])
  }

  lemma PeerCount(pl: Plane, table: Underlays, h: string, hp: HostPlane)
    requires pl.Valid() && h in pl.routers && PlaneFor(pl, table, h, hp)
    ensures |hp.peers| == if pl.mesh || h in pl.reflectors then |pl.routers| - 1 else |pl.reflectors|
  {
    var names := NamesOf(hp.peers);
    SortedDistinct(names);
    CountIsCardinality(pl, names);
    if pl.mesh || h in pl.reflectors {
      assert PeerSet(pl, h) == pl.routers - {h};
    } else {
      assert PeerSet(pl, h) == pl.reflectors;
    }
  }

  lemma PeerCounts(pl: Plane, table: Underlays, out: Resolved)
    requires pl.Valid() && IsResolved(pl, table, out)
    ensures forall h :: h in out ==>
              |out[h].peers| == if pl.mesh || h in pl.reflectors then |pl.routers| - 1 else |pl.reflectors|
  {
    forall h | h in out
      ensures |out[h].peers| == if pl.mesh || h in pl.reflectors then |pl.routers| - 1 else |pl.reflectors|
    {
      PeerCount(pl, table, h, out[h]);
    }
  }

  lemma {:induction false} TotalOfTwoKinds(pl: Plane, out: Resolved, hosts: seq<string>, a: nat, b: nat)
    requires forall h :: h in hosts ==> h in out && |out[h].peers| == if h in pl.reflectors then a else b
    ensures TotalPeers(out, hosts) == CountReflectors(pl, hosts) * a + (|hosts| - CountReflectors(pl, hosts)) * b
  {
    if hosts != [] {
      var c, l := CountReflectors(pl, hosts[1..]), |hosts| - 1;
      assert forall h :: h in hosts[1..] ==> h in hosts;
      TotalOfTwoKinds(pl, out, hosts[1..], a, b);
      Distribute(c, a);
      Distribute(l - c, b);
    }
  }

  lemma Distribute(x: int, y: int)
    ensures (x + 1) * y == x * y + y
  {
  }

  lemma {:induction false} CountIsCardinality(pl: Plane, hosts: seq<string>)
    requires Distinct(hosts)
    ensures CountReflectors(pl, hosts) == |Elements(hosts) * pl.reflectors|
    ensures |hosts| == |Elements(hosts)|
  {
    if hosts != [] {
      var h, rest := hosts[0], Elements(hosts[1..]);
      CountIsCardinality(pl, hosts[1..]);
      assert h !in rest && Elements(hosts) == rest + {h};
      AddOne(rest, h, pl.reflectors);
    }
  }

  lemma AddOne(s: set<string>, h: string, r: set<string>)
    requires h !in s
    ensures |s + {h}| == |s| + 1
    ensures |(s + {h}) * r| == |s * r| + (if h in r then 1 else 0)
  {
    if h in r {
      assert (s + {h}) * r == s * r + {h};
    } else {
      assert (s + {h}) * r == s * r;
    }
  }

  /** n(n-1) list entries in a full mesh of n routers; 2k(n-k) + k(k-1) with k reflectors among n. */
  lemma TotalListLength(pl: Plane, table: Underlays, out: Resolved, hosts: seq<string>)
    requires pl.Valid() && IsResolved(pl, table, out) && Distinct(hosts) && Elements(hosts) == pl.routers
    requires forall h :: h in hosts ==> h in out
    ensures var n, k := |pl.routers|, |pl.reflectors|;
            TotalPeers(out, hosts) == if pl.mesh then n * (n - 1) else 2 * k * (n - k) + k * (k - 1)
  {
    PeerCounts(pl, table, out);
    TotalFromCounts(pl, out, hosts);
  }

  lemma TotalFromCounts(pl: Plane, out: Resolved, hosts: seq<string>)
    requires pl.Valid() && Distinct(hosts) && Elements(hosts) == pl.routers
    requires forall h :: h in hosts ==> h in out
    requires forall h :: h in out ==>
               |out[h].peers| == if pl.mesh || h in pl.reflectors then |pl.routers| - 1 else |pl.reflectors|
    ensures var n, k := |pl.routers|, |pl.reflectors|;
            TotalPeers(out, hosts) == if pl.mesh then n * (n - 1) else 2 * k * (n - k) + k * (k - 1)
  {
    var n, k := |pl.routers|, |pl.reflectors|;
    CountIsCardinality(pl, hosts);
    assert pl.routers * pl.reflectors == pl.reflectors;
    if hosts == [] {
      P.SmallerSet(pl.reflectors, pl.routers);
    } else if pl.mesh {
      TotalOfTwoKinds(pl, out, hosts, n - 1, n - 1);
    } else {
      TotalOfTwoKinds(pl, out, hosts, n - 1, k);
      Polynomial(n, k);
    }
  }

  lemma Polynomial(n: int, k: int)
    ensures k * (n - 1) + (n - k) * k == 2 * k * (n - k) + k * (k - 1)
  {
  }

  // ---------- the printed configuration ----------

  datatype Line = RemoteAs(address: string, asn: int)
                | UpdateSource(address: string, source: string)
                | Activate(address: string)
                | ReflectorClient(address: string)
                | RouterBgp(asn: int)
                | RouterId(address: string)
                | Fixed(text: string)

  predicate Peers(lines: seq<Line>, asn: int, address: string) {
    RemoteAs(address, asn) in lines && Activate(address) in lines
  }

  predicate Addresses(peers: seq<Peer>, address: string) {
    exists e :: e in peers && e.address == address
  }

  predicate ClientAddress(peers: seq<Peer>, address: string) {
    exists e :: e in peers && e.address == address && e.client
  }

  function NeighbourLines(peers: seq<Peer>, asn: int, source: string): seq<Line> {
    if peers == [] then []
    else
      var e := peers[|peers| - 1];
      NeighbourLines(peers[..|peers| - 1], asn, source) + [RemoteAs(e.address, asn), UpdateSource(e.address, source)]
  }

  function FamilyLines(peers: seq<Peer>): seq<Line> {
    if peers == [] then []
    else
      var e := peers[|peers| - 1];
      var flag := if e.client then [ReflectorClient(e.address)] else [];
      FamilyLines(peers[..|peers| - 1]) + [Activate(e.address)] + flag
  }

  lemma {:induction false} LinesMean(peers: seq<Peer>, asn: int, source: string, a: string)
    ensures forall l :: l in NeighbourLines(peers, asn, source) ==>
              (l.RemoteAs? && l.asn == asn) || (l.UpdateSource? && l.source == source)
    ensures forall l :: l in FamilyLines(peers) ==> l.Activate? || l.ReflectorClient?
    ensures RemoteAs(a, asn) in NeighbourLines(peers, asn, source) <==> Addresses(peers, a)
    ensures UpdateSource(a, source) in NeighbourLines(peers, asn, source) <==> Addresses(peers, a)
    ensures Activate(a) in FamilyLines(peers) <==> Addresses(peers, a)
    ensures ReflectorClient(a) in FamilyLines(peers) <==> ClientAddress(peers, a)
  {
    if peers != [] {
      var rest, e := peers[..|peers| - 1], peers[|peers| - 1];
      assert peers == rest + [e];
      LinesMean(rest, asn, source, a);
      OneMore(rest, e, a);
    }
  }

  lemma OneMore(peers: seq<Peer>, e: Peer, a: string)
    ensures Addresses(peers + [e], a) <==> Addresses(peers, a) || e.address == a
    ensures ClientAddress(peers + [e], a) <==> ClientAddress(peers, a) || (e.address == a && e.client)
  {
    assert e in peers + [e] && forall x :: x in peers ==> x in peers + [e];
  }

  function Opening(host: string, asn: int, hp: HostPlane): seq<Line> {
    [Fixed("frr defaults traditional"), Fixed("hostname " + host), Fixed("service integrated-vtysh-config"), Fixed("!"),
     RouterBgp(asn), RouterId(hp.routerId), Fixed(" no bgp default ipv4-unicast")]
  }

  const FAMILY: seq<Line> := [Fixed(" !"), Fixed(" address-family l2vpn evpn")]

  const CLOSING: seq<Line> := [Fixed("  advertise-all-vni"), Fixed(" exit-address-family"), Fixed("!"),
                               Fixed("line vty"), Fixed("!"), Fixed("")]

  function FrrLines(host: string, asn: int, hp: HostPlane): seq<Line> {
    Opening(host, asn, hp) + NeighbourLines(hp.peers, asn, hp.underlay.address)
    + FAMILY + FamilyLines(hp.peers) + CLOSING
  }

  /** The role's script for one host. */
  method RenderFrr(host: string, asn: int, hp: HostPlane) returns (lines: seq<Line>)
    ensures lines == FrrLines(host, asn, hp)
  {
    lines := Opening(host, asn, hp);
    ghost var head := lines;
    for k := 0 to |hp.peers|
      invariant lines == head + NeighbourLines(hp.peers[..k], asn, hp.underlay.address)
    {
      var e := hp.peers[k];
      assert hp.peers[..k + 1][..k] == hp.peers[..k];
      lines := lines + [RemoteAs(e.address, asn), UpdateSource(e.address, hp.underlay.address)];
    }
    assert hp.peers[..|hp.peers|] == hp.peers;
    lines := lines + FAMILY;
    head := lines;
    for k := 0 to |hp.peers|
      invariant lines == head + FamilyLines(hp.peers[..k])
    {
      var e := hp.peers[k];
      assert hp.peers[..k + 1][..k] == hp.peers[..k];
      lines := lines + [Activate(e.address)];
      if e.client {
        lines := lines + [ReflectorClient(e.address)];
      }
    }
    assert hp.peers[..|hp.peers|] == hp.peers;
    lines := lines + CLOSING;
  }

  /** The lines a configuration should have, fixed texts aside. */
  predicate Expected(asn: int, hp: HostPlane, l: Line) {
    match l
    case RouterBgp(n) => n == asn
    case RouterId(a) => a == hp.routerId
    case RemoteAs(a, n) => Addresses(hp.peers, a) && n == asn
    case UpdateSource(a, u) => Addresses(hp.peers, a) && u == hp.underlay.address
    case Activate(a) => Addresses(hp.peers, a)
    case ReflectorClient(a) => ClientAddress(hp.peers, a)
    case Fixed(_) => true
  }

  /** What a printed configuration means: BGP in the given AS under the host's own router ID; exactly the listed
      addresses are activated iBGP neighbours, reached from the host's own underlay address, and no others are
      configured; and exactly those listed as clients are marked so. */
  ghost predicate Prints(lines: seq<Line>, asn: int, hp: HostPlane) {
    && (forall l: Line :: !l.Fixed? ==> (l in lines <==> Expected(asn, hp, l)))
    && (forall a :: Peers(lines, asn, a) <==> Addresses(hp.peers, a))
    && (forall a :: ReflectorClient(a) in lines <==> ClientAddress(hp.peers, a))
  }

  lemma FrrLinesPrint(host: string, asn: int, hp: HostPlane)
    ensures Prints(FrrLines(host, asn, hp), asn, hp)
  {
    var lines := FrrLines(host, asn, hp);
    forall l: Line | !l.Fixed? ensures l in lines <==> Expected(asn, hp, l) {
      LineSplit(host, asn, hp, l);
      LineExpected(host, asn, hp, l);
    }
    forall a
      ensures Peers(lines, asn, a) <==> Addresses(hp.peers, a)
      ensures ReflectorClient(a) in lines <==> ClientAddress(hp.peers, a)
    {
      assert RemoteAs(a, asn) in lines <==> Expected(asn, hp, RemoteAs(a, asn));
      assert Activate(a) in lines <==> Expected(asn, hp, Activate(a));
      assert ReflectorClient(a) in lines <==> Expected(asn, hp, ReflectorClient(a));
    }
  }

  predicate InParts(host: string, asn: int, hp: HostPlane, l: Line) {
    || l in Opening(host, asn, hp) || l in NeighbourLines(hp.peers, asn, hp.underlay.address)
    || l in FAMILY || l in FamilyLines(hp.peers) || l in CLOSING
  }

  lemma LineSplit(host: string, asn: int, hp: HostPlane, l: Line)
    ensures l in FrrLines(host, asn, hp) <==> InParts(host, asn, hp, l)
  {
    var a, b, c := Opening(host, asn, hp), NeighbourLines(hp.peers, asn, hp.underlay.address), FamilyLines(hp.peers);
    InFive(a, b, FAMILY, c, CLOSING, l);
  }

  lemma InFive<T>(a: seq<T>, b: seq<T>, c: seq<T>, d: seq<T>, e: seq<T>, x: T)
    ensures x in a + b + c + d + e <==> x in a || x in b || x in c || x in d || x in e
  {
  }

  lemma OpeningExactly(host: string, asn: int, hp: HostPlane, l: Line)
    requires !l.Fixed?
    ensures l in Opening(host, asn, hp) <==> l == RouterBgp(asn) || l == RouterId(hp.routerId)
  {
    assert Opening(host, asn, hp)[4] == RouterBgp(asn) && Opening(host, asn, hp)[5] == RouterId(hp.routerId);
  }

  lemma OthersFixed(l: Line)
    requires !l.Fixed?
    ensures l !in FAMILY && l !in CLOSING
  {
  }

  lemma BodyExpected(asn: int, hp: HostPlane, l: Line, address: string)
    requires l.RemoteAs? || l.UpdateSource? || l.Activate? || l.ReflectorClient?
    requires l.address == address
    ensures l in NeighbourLines(hp.peers, asn, hp.underlay.address) || l in FamilyLines(hp.peers) <==>
            Expected(asn, hp, l)
  {
    LinesMean(hp.peers, asn, hp.underlay.address, address);
  }

  lemma LineExpected(host: string, asn: int, hp: HostPlane, l: Line)
    requires !l.Fixed?
    ensures InParts(host, asn, hp, l) <==> Expected(asn, hp, l)
  {
    OpeningExactly(host, asn, hp, l);
    OthersFixed(l);
    if l.RouterBgp? || l.RouterId? {
      LinesMean(hp.peers, asn, hp.underlay.address, "");
    } else {
      BodyExpected(asn, hp, l, l.address);
    }
  }

  // ---------- the network it brings up ----------

  /** Which VTEP a host reaches when it connects to an address. */
  type Delivery = (string, string) -> string

  /** A packet for an address goes to some VTEP that has it, and never leaves a host that has it itself. Where several
      other hosts have the address, any of them may answer. */
  ghost predicate Delivers(table: Underlays, who: Delivery) {
    forall x, y :: x in table && y in table ==>
      var z := who(x, table[y].address);
      && z in table && table[z].address == table[y].address
      && (table[x].address == table[y].address ==> z == x)
  }

  /** FRR knows neighbours by address only: a host has the neighbour y when an address configured on it leads to y. */
  function FrrRow(lines: seq<Line>, asn: int, table: Underlays, x: string, who: Delivery): map<string, bool> {
    map y | y in table && Peers(lines, asn, table[y].address) && who(x, table[y].address) == y ::
      ReflectorClient(table[y].address) in lines
  }

  function FrrConf(configs: map<string, seq<Line>>, asn: int, table: Underlays, who: Delivery): P.Conf {
    map x | x in configs :: FrrRow(configs[x], asn, table, x, who)
  }

  ghost predicate AllPrint(configs: map<string, seq<Line>>, asn: int, out: Resolved) {
    forall h :: h in configs ==> h in out && Prints(configs[h], asn, out[h])
  }

  /** The whole compilation of an accepted EVPN plan, the role run once per VTEP host: the configurations it leaves are
      those the lemmas below speak of. */
  method CompileFrr(plan: Plan, segs: seq<Segment>)
    returns (r: Result<map<string, seq<Line>>>, ghost pl: Plane, ghost table: Underlays, ghost out: Resolved)
    requires plan.Evpn? && PlaneOf(plan, HostsOf(VtepSet(segs))).Valid()
    ensures r.Ok? <==> Agree(VtepSet(segs))
    ensures r.Ok? ==> pl == PlaneOf(plan, HostsOf(VtepSet(segs))) && pl.Valid() && IsTable(table, VtepSet(segs))
    ensures r.Ok? ==> IsResolved(pl, table, out) && r.value.Keys == table.Keys == pl.routers
    ensures r.Ok? ==> AllPrint(r.value, plan.asn, out)
  {
    pl, out := PlaneOf(plan, HostsOf(VtepSet(segs))), map[];
    var resolved;
    resolved, table := ResolveControlPlane(plan, segs);
    if resolved.Die? {
      return Die, pl, table, out;
    }
    out := resolved.value;
    var configs := RenderAll(plan.asn, resolved.value, SortedOf(resolved.value.Keys));
    return Ok(configs), pl, table, out;
  }

  method RenderAll(asn: int, planes: Resolved, hosts: seq<string>) returns (configs: map<string, seq<Line>>)
    requires Elements(hosts) == planes.Keys
    ensures configs.Keys == planes.Keys && AllPrint(configs, asn, planes)
  {
    configs := map[];
    for k := 0 to |hosts|
      invariant configs.Keys == Elements(hosts[..k])
      invariant AllPrint(configs, asn, planes)
    {
      assert hosts[k] in Elements(hosts);
      var lines := RenderFrr(hosts[k], asn, planes[hosts[k]]);
      FrrLinesPrint(hosts[k], asn, planes[hosts[k]]);
      configs := configs[hosts[k] := lines];
      assert hosts[..k + 1] == hosts[..k] + [hosts[k]];
    }
    assert hosts[..|hosts|] == hosts;
  }

  /** No two VTEP hosts have the same underlay address. The checking pass does not look at this. */
  predicate AddressesDistinct(table: Underlays) {
    forall x, y :: x in table && y in table && table[x].address == table[y].address ==> x == y
  }

  /** Addresses tell the listed peers of x apart, from each other and from x itself: FRR then has one neighbour for
      every listed peer. */
  ghost predicate TellsPeers(table: Underlays, x: string, peers: seq<Peer>)
    requires x in table
  {
    && (forall e, f :: e in peers && f in peers && e.address == f.address ==> e == f)
    && forall e :: e in peers ==> e.address != table[x].address
  }

  lemma DistinctTellsPeers(pl: Plane, table: Underlays, hp: HostPlane, x: string)
    requires pl.routers == table.Keys && x in table && ListsGraph(pl, table, x, hp) && AddressesDistinct(table)
    ensures TellsPeers(table, x, hp.peers)
  {
  }

  /** In a valid plane any two routers that share an address are neighbours or share a neighbour. */
  lemma SharedAddressMeets(pl: Plane, x: string, y: string) returns (r: string)
    requires pl.Valid() && x in pl.routers && y in pl.routers && x != y
    ensures r == x || pl.Adjacent(r, x)
    ensures pl.Adjacent(r, y) && r in pl.routers
  {
    if pl.Adjacent(x, y) {
      r := x;
    } else {
      r :| r in pl.reflectors;
    }
  }

  /** Every host tells its listed peers apart if and only if no two VTEP hosts share an address, whatever the
      peering. */
  lemma TellsPeersExactly(pl: Plane, table: Underlays, out: Resolved)
    requires pl.Valid() && pl.routers == table.Keys && IsResolved(pl, table, out)
    ensures (forall x :: x in table ==> TellsPeers(table, x, out[x].peers)) <==> AddressesDistinct(table)
  {
    forall x | x in table ensures ListsGraph(pl, table, x, out[x]) {
      ResolvedGraph(pl, table, out, x);
    }
    if AddressesDistinct(table) {
      forall x | x in table ensures TellsPeers(table, x, out[x].peers) {
        DistinctTellsPeers(pl, table, out[x], x);
      }
    } else {
      var x, y :| x in table && y in table && table[x].address == table[y].address && x != y;
      var r := SharedAddressMeets(pl, x, y);
      assert Lists(out[r], y) && (r != x ==> Lists(out[r], x));
      assert !TellsPeers(table, r, out[r].peers);
    }
  }

  /** The printed configurations bring up exactly the generated graph, the sessions and client flags the compiler meant,
      if and only if no two VTEP hosts share an underlay address; if two do, no way of delivering packets helps. */
  lemma ConfiguredNetwork(pl: Plane, table: Underlays, out: Resolved, asn: int, configs: map<string, seq<Line>>,
                          who: Delivery)
    requires pl.Valid() && pl.routers == table.Keys == configs.Keys && IsResolved(pl, table, out)
    requires AllPrint(configs, asn, out) && Delivers(table, who)
    ensures FrrConf(configs, asn, table, who) == pl.Conf() <==> AddressesDistinct(table)
  {
    if AddressesDistinct(table) {
      forall x | x in configs ensures FrrRow(configs[x], asn, table, x, who) == pl.Row(x) {
        ResolvedGraph(pl, table, out, x);
        ConfiguredRow(pl, table, x, out[x], asn, configs[x], who);
      }
      ConfOfRows(pl, table, asn, configs, who);
    } else {
      var x, y :| x in table && y in table && table[x].address == table[y].address && x != y;
      SharedConf(pl, table, out, asn, configs, who, x, y);
    }
  }

  lemma SharedConf(pl: Plane, table: Underlays, out: Resolved, asn: int, configs: map<string, seq<Line>>,
                   who: Delivery, x: string, y: string)
    requires pl.Valid() && pl.routers == table.Keys == configs.Keys && IsResolved(pl, table, out)
    requires AllPrint(configs, asn, out) && Delivers(table, who)
    requires x in table && y in table && table[x].address == table[y].address && x != y
    ensures FrrConf(configs, asn, table, who) != pl.Conf()
  {
    var r := SharedAddressMeets(pl, x, y);
    ResolvedGraph(pl, table, out, r);
    SharedRow(pl, table, r, x, y, out[r], asn, configs[r], who);
    assert FrrConf(configs, asn, table, who)[r] != pl.Conf()[r];
  }

  lemma ConfOfRows(pl: Plane, table: Underlays, asn: int, configs: map<string, seq<Line>>, who: Delivery)
    requires pl.routers == table.Keys == configs.Keys
    requires forall x :: x in configs ==> FrrRow(configs[x], asn, table, x, who) == pl.Row(x)
    ensures FrrConf(configs, asn, table, who) == pl.Conf()
  {
  }

  /** A host that is to have sessions with two owners of one address, or with another owner of its own, has not. */
  lemma SharedRow(pl: Plane, table: Underlays, r: string, x: string, y: string, hp: HostPlane, asn: int,
                  lines: seq<Line>, who: Delivery)
    requires pl.Valid() && pl.routers == table.Keys && r in table && x in table && y in table && x != y
    requires ListsGraph(pl, table, r, hp) && Prints(lines, asn, hp) && Delivers(table, who)
    requires table[x].address == table[y].address && (r == x || pl.Adjacent(r, x)) && pl.Adjacent(r, y)
    ensures FrrRow(lines, asn, table, r, who) != pl.Row(r)
  {
    var row := FrrRow(lines, asn, table, r, who);
    assert who(r, table[x].address) == who(r, table[y].address);
    assert y in pl.Row(r) && (r != x ==> x in pl.Row(r));
    if r == x {
      assert who(r, table[y].address) == r;
      assert y !in row;
    } else {
      assert !(x in row && y in row);
    }
  }

  lemma ConfiguredRow(pl: Plane, table: Underlays, x: string, hp: HostPlane, asn: int, lines: seq<Line>, who: Delivery)
    requires pl.Valid() && pl.routers == table.Keys && x in pl.routers && ListsGraph(pl, table, x, hp)
    requires Prints(lines, asn, hp) && AddressesDistinct(table) && Delivers(table, who)
    ensures FrrRow(lines, asn, table, x, who) == pl.Row(x)
  {
    var a, b := FrrRow(lines, asn, table, x, who), pl.Row(x);
    forall y | y in table ensures y in a <==> y in b ensures y in a && y in b ==> a[y] == b[y] {
      NeighbourConfigured(pl, table, x, y, hp, asn, lines);
      assert who(x, table[y].address) == y;
    }
    assert a.Keys == b.Keys;
  }

  lemma NeighbourConfigured(pl: Plane, table: Underlays, x: string, y: string, hp: HostPlane, asn: int,
                            lines: seq<Line>)
    requires pl.Valid() && pl.routers == table.Keys && x in pl.routers && y in pl.routers
    requires ListsGraph(pl, table, x, hp) && Prints(lines, asn, hp) && AddressesDistinct(table)
    ensures Peers(lines, asn, table[y].address) <==> pl.Adjacent(x, y)
    ensures ReflectorClient(table[y].address) in lines <==>
            pl.Adjacent(x, y) && x in pl.reflectors && y !in pl.reflectors
  {
    forall e | e in hp.peers && e.address == table[y].address ensures e.host == y {
      assert e == PeerEntry(pl, table, x, e.host);
    }
    if pl.Adjacent(x, y) {
      assert Lists(hp, y);
      var e :| e in hp.peers && e.host == y;
      assert e.address == table[y].address;
    }
  }

  /** A host has its own address configured as a neighbour exactly when one of its neighbours shares it. */
  lemma SelfPeeringExactly(pl: Plane, table: Underlays, hp: HostPlane, x: string, asn: int, lines: seq<Line>)
    requires pl.Valid() && pl.routers == table.Keys && x in pl.routers && ListsGraph(pl, table, x, hp)
    requires Prints(lines, asn, hp)
    ensures Peers(lines, asn, table[x].address) <==>
            exists y :: pl.Adjacent(x, y) && table[y].address == table[x].address
  {
    if y :| pl.Adjacent(x, y) && table[y].address == table[x].address {
      assert Lists(hp, y);
      var e :| e in hp.peers && e.host == y;
      assert e.address == table[x].address;
    }
  }

  /** The checking pass accepts two VTEP hosts with one underlay address: here a topology with a table that has it. */
  lemma SharedAddressAccepted() returns (hosts: Hosts, raw: Declared, segs: seq<Segment>, table: Underlays)
    ensures ValidSegments(hosts, raw) && Lowered(hosts, raw, segs)
    ensures Agree(VtepSet(segs)) && IsTable(table, VtepSet(segs)) && !AddressesDistinct(table)
  {
    hosts := TWO_HOSTS;
    raw := [("t", RawPair(1, "1", "1", []))];
    segs := [PairOf("t", 1, "1", "1", [])];
    OneAccepted("t", 1, "1", "1", []);
    var v, w := segs[0].vteps[0], segs[0].vteps[1];
    table := map["a" := UnderlayOf(v), "b" := UnderlayOf(w)];
    ExampleTable(segs, v, w, table);
  }

  lemma ExampleTable(segs: seq<Segment>, v: Vtep, w: Vtep, table: Underlays)
    requires |segs| == 1 && segs[0].vteps == [v, w] && v.host != w.host && v.underlayAddress == w.underlayAddress
    requires table == map[v.host := UnderlayOf(v), w.host := UnderlayOf(w)]
    ensures Agree(VtepSet(segs)) && IsTable(table, VtepSet(segs)) && !AddressesDistinct(table)
  {
    assert segs[0] in segs && v in segs[0].vteps && w in segs[0].vteps;
    assert VtepSet(segs) == {v, w};
    assert HostsOf({v, w}) == {v.host, w.host};
    assert v.host in table && w.host in table;
  }

  // ---------- the bgp_peer_shutdown fault ----------

  /** The executor's scan of the local host's neighbour list for the peer's address. */
  function PeerAddress(peers: seq<Peer>, peer: string): (r: Result<string>)
    ensures r.Die? ==> forall e :: e in peers ==> e.host != peer
    ensures r.Ok? ==> exists e :: e in peers && e.host == peer && e.address == r.value
  {
    if peers == [] then Die
    else if peers[0].host == peer then Ok(peers[0].address)
    else PeerAddress(peers[1..], peer)
  }

  /** The fault can be injected exactly between VTEPs that have a session; two reflector clients have none. */
  lemma PeerAddressExactly(pl: Plane, table: Underlays, out: Resolved, x: string, y: string)
    requires pl.Valid() && IsResolved(pl, table, out) && x in out && y in table
    ensures PeerAddress(out[x].peers, y) == if pl.Adjacent(x, y) then Ok(table[y].address) else Die
  {
    ListsExactly(pl, table, x, out[x], y);
  }

  lemma PeerAddressAdjacent(pl: Plane, table: Underlays, out: Resolved, x: string, y: string)
    requires pl.Valid() && pl.routers == table.Keys && IsResolved(pl, table, out)
    requires x in out && PeerAddress(out[x].peers, y).Ok?
    ensures pl.Adjacent(x, y) && PeerAddress(out[x].peers, y).value == table[y].address
  {
    ListsExactly(pl, table, x, out[x], y);
    PeerAddressExactly(pl, table, out, x, y);
  }

  /** The running network, when the neighbours in shut (host, neighbour address) are administratively shut. */
  function NetOf(configs: map<string, seq<Line>>, asn: int, table: Underlays, who: Delivery,
                 shut: set<(string, string)>): P.Net {
    P.Net(FrrConf(configs, asn, table, who), ShutPairs(table, who, shut), {})
  }

  function ShutPairs(table: Underlays, who: Delivery, shut: set<(string, string)>): set<(string, string)> {
    set x, y | x in table && y in table && (x, table[y].address) in shut && who(x, table[y].address) == y :: (x, y)
  }

  /** Shutting one neighbour by address takes down that one session of the generated graph and nothing else if and only
      if no two VTEP hosts share an address. */
  lemma ShutdownNetwork(pl: Plane, table: Underlays, out: Resolved, asn: int, configs: map<string, seq<Line>>,
                        who: Delivery, x: string, y: string)
    requires pl.Valid() && pl.routers == table.Keys == configs.Keys && IsResolved(pl, table, out)
    requires AllPrint(configs, asn, out) && Delivers(table, who) && x in table && y in table
    ensures NetOf(configs, asn, table, who, {(x, table[y].address)}) == Cut(pl, x, y) <==> AddressesDistinct(table)
  {
    ConfiguredNetwork(pl, table, out, asn, configs, who);
    if AddressesDistinct(table) {
      OneShut(table, who, {(x, table[y].address)}, x, y);
    }
  }

  /** What else is shut on hosts that are no VTEPs does not matter. */
  lemma OneShut(table: Underlays, who: Delivery, shut: set<(string, string)>, x: string, y: string)
    requires x in table && y in table && AddressesDistinct(table) && Delivers(table, who)
    requires (x, table[y].address) in shut
    requires forall p :: p in shut && p.0 in table ==> p == (x, table[y].address)
    ensures ShutPairs(table, who, shut) == {(x, y)}
  {
    assert who(x, table[y].address) == y;
    assert (x, y) in ShutPairs(table, who, shut);
    forall p | p in ShutPairs(table, who, shut) ensures p == (x, y) {
      assert p.0 in table && p.1 in table && (p.0, table[p.1].address) in shut;
    }
  }

  /** From the declared topology to what VTEPs learn: when the fault between the VTEPs x and y can be injected, and
      nothing else is shut on a VTEP, the two stop learning each other's routes, in both directions, exactly when they
      have the same role or the reflector among them is the only one. */
  lemma ShutdownImpact(pl: Plane, table: Underlays, out: Resolved, asn: int, configs: map<string, seq<Line>>,
                       who: Delivery, shut: set<(string, string)>, x: string, y: string)
    requires pl.Valid() && pl.routers == table.Keys == configs.Keys && IsResolved(pl, table, out)
    requires AllPrint(configs, asn, out) && Delivers(table, who) && AddressesDistinct(table)
    requires x in table && y in table && PeerAddress(out[x].peers, y).Ok?
    requires (x, PeerAddress(out[x].peers, y).value) in shut
    requires forall p :: p in shut && p.0 in table ==> p == (x, PeerAddress(out[x].peers, y).value)
    ensures var net := NetOf(configs, asn, table, who, shut);
            var cut := pl.SameRole(x, y) || pl.reflectors == {x} || pl.reflectors == {y};
            (P.Reach(net, x, y) <==> !cut) && (P.Reach(net, y, x) <==> !cut)
  {
    PeerAddressAdjacent(pl, table, out, x, y);
    ConfiguredNetwork(pl, table, out, asn, configs, who);
    OneShut(table, who, shut, x, y);
    assert NetOf(configs, asn, table, who, shut) == Cut(pl, x, y);
    CutBothWays(pl, x, y);
  }

  lemma CutBothWays(pl: Plane, x: string, y: string)
    requires pl.Valid() && pl.Adjacent(x, y)
    ensures var cut := pl.SameRole(x, y) || pl.reflectors == {x} || pl.reflectors == {y};
            (P.Reach(Cut(pl, x, y), x, y) <==> !cut) && (P.Reach(Cut(pl, x, y), y, x) <==> !cut)
  {
    if pl.SameRole(x, y) {
      CutSameRole(pl, x, y, x, y);
      CutSameRole(pl, x, y, y, x);
    } else if x in pl.reflectors {
      CutClient(pl, x, y, x, y);
      CutClient(pl, x, y, y, x);
    } else {
      CutEitherEnd(pl, x, y, x, y);
      CutEitherEnd(pl, x, y, y, x);
      CutClient(pl, y, x, x, y);
      CutClient(pl, y, x, y, x);
    }
  }

  /** With nothing shut on any VTEP, every session's ends learn each other's routes. */
  lemma NothingShut(pl: Plane, table: Underlays, out: Resolved, asn: int, configs: map<string, seq<Line>>,
                    who: Delivery, shut: set<(string, string)>, x: string, y: string)
    requires pl.Valid() && pl.routers == table.Keys == configs.Keys && IsResolved(pl, table, out)
    requires AllPrint(configs, asn, out) && Delivers(table, who) && AddressesDistinct(table) && pl.Adjacent(x, y)
    requires forall p :: p in shut ==> p.0 !in table
    ensures P.Reach(NetOf(configs, asn, table, who, shut), x, y) && P.Reach(NetOf(configs, asn, table, who, shut), y, x)
  {
    ConfiguredNetwork(pl, table, out, asn, configs, who);
    var net := NetOf(configs, asn, table, who, shut);
    assert net.shut == {};
    SessionReaches(pl, net, x, y);
    SessionReaches(pl, net, y, x);
  }

  lemma SessionReaches(pl: Plane, net: P.Net, x: string, y: string)
    requires Generated(pl, net) && net.shut == {} && net.down == {} && pl.Adjacent(x, y)
    ensures P.Reach(net, x, y)
  {
    ReachExactly(pl, net, x, y);
    GeneratedFacts(pl, net, x, y);
  }
}
