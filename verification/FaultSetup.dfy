/** What the plays make of a testbed (ansible/site.yml, ansible/roles/vxlan-test/tasks/main.yml,
    ansible/roles/pulsaros-vxlan/tasks/main.yml), and how the fault executor turns a declared fault into an injection
    (tests/test_fault_injection.py). */
module FaultSetup {
  import opened Text
  import opened Topology
  import opened FaultChecks
  import opened FaultState
  import S = RunState
  import P = Ports
  import C = ControlPlane
  import F = FrrConfig

  /** Interface names by (host, MAC), as the hosts report them. */
  type Ifaces = map<(string, string), string>

  predicate PlainIfaces(ifaces: Ifaces) { forall k :: k in ifaces ==> '.' !in ifaces[k] }

  // ---------- client LANs ----------

  /** One member on its host: addresses flushed, the declared one set, link up; a trunk member on its VLAN interface. */
  function ConfigureMember(links: map<Dev, Link>, ifaces: Ifaces, m: Member): Result<map<Dev, Link>> {
    if (m.host, m.mac) !in ifaces then Die
    else
      var dev := ifaces[(m.host, m.mac)];
      if m.mode != "trunk" then
        Ok(SetUp(AddAddr(Flush(links, (m.host, dev)), (m.host, dev), m.ip), (m.host, dev), true))
      else if !m.vlan.Vlan? then Die
      else
        var base, sub := (m.host, dev), (m.host, SubIf(dev, m.vlan.id));
        Ok(SetUp(SetUp(AddAddr(Flush(AddVlanLink(links, base, sub), sub), sub, m.ip), base, true), sub, true))
  }

  function ConfigureMembers(links: map<Dev, Link>, ifaces: Ifaces, h: string, ms: seq<Member>): Result<map<Dev, Link>>
    decreases ms
  {
    if ms == [] then Ok(links)
    else if ms[0].host != h then ConfigureMembers(links, ifaces, h, ms[1..])
    else
      match ConfigureMember(links, ifaces, ms[0])
      case Die => Die
      case Ok(next) => ConfigureMembers(next, ifaces, h, ms[1..])
  }

  function AllMembers(segs: seq<Segment>): seq<Member> {
    if segs == [] then [] else segs[0].members + AllMembers(segs[1..])
  }

  // ---------- VTEPs ----------

  /** Linux devices under static or EVPN control, or ports left to the DPDK dataplane. */
  datatype Mode = LinuxStatic | LinuxEvpn | Dpdk

  /** A fresh VXLAN device floods to every peer under static control, and to none under EVPN. */
  function Flood(s: Segment, h: string, mode: Mode): Fdb {
    if mode.LinuxStatic? then AppendPeers(multiset{}, P.Addresses(P.PeersOf(s.vteps, h))) else multiset{}
  }

  function WithoutKey(fdb: map<Dev, Fdb>, k: Dev): map<Dev, Fdb> { fdb - {k} }

  function RaiseLocal(links: map<Dev, Link>, ifaces: Ifaces, h: string, nics: seq<Nic>): Result<map<Dev, Link>>
    decreases nics
  {
    if nics == [] then Ok(links)
    else if (h, nics[0].mac) !in ifaces then Die
    else
      var d := (h, ifaces[(h, nics[0].mac)]);
      RaiseLocal(SetUp(Flush(links, d), d, true), ifaces, h, nics[1..])
  }

  function ConfigureVtep(w: World, ifaces: Ifaces, h: string, s: Segment, mode: Mode): Result<World> {
    var local := P.FirstOn(s.vteps, h);
    if local.None? then Ok(w)
    else if (h, local.value.underlayMac) !in ifaces then Die
    else
      var under := (h, ifaces[(h, local.value.underlayMac)]);
      var addressed := if mode.Dpdk? then Flush(w.links, under) else AddAddr(w.links, under, local.value.underlayIp);
      var links := RaiseLocal(SetUp(addressed, under, true), ifaces, h, local.value.localNics);
      if links.Die? then Die
      else Ok(w.(links := links.value,
                 fdb := if mode.Dpdk? then WithoutKey(w.fdb, (h, s.vxlan))
                        else w.fdb[(h, s.vxlan) := Flood(s, h, mode)]))
  }

  function ConfigureVteps(w: World, ifaces: Ifaces, h: string, segs: seq<Segment>, mode: Mode): Result<World>
    decreases segs
  {
    if segs == [] then Ok(w)
    else
      match ConfigureVtep(w, ifaces, h, segs[0], mode)
      case Die => Die
      case Ok(next) => ConfigureVteps(next, ifaces, h, segs[1..], mode)
  }

  /** The role's whole script on one host: clients first, then VTEPs. */
  function RoleOn(w: World, ifaces: Ifaces, h: string, segs: seq<Segment>, mode: Mode): Result<World> {
    match ConfigureMembers(w.links, ifaces, h, AllMembers(segs))
    case Die => Die
    case Ok(links) => ConfigureVteps(w.(links := links), ifaces, h, segs, mode)
  }

  function RoleOnAll(w: World, ifaces: Ifaces, hs: seq<string>, segs: seq<Segment>, mode: Mode): Result<World>
    decreases hs
  {
    if hs == [] then Ok(w)
    else
      match RoleOn(w, ifaces, hs[0], segs, mode)
      case Die => Die
      case Ok(next) => RoleOnAll(next, ifaces, hs[1..], segs, mode)
  }

  function VtepHosts(segs: seq<Segment>): set<string> { C.HostsOf(C.VtepSet(segs)) }

  /** FRR restarted on some hosts. */
  function FrrRestarted(w: World, hs: set<string>): World { w.(shut := set p | p in w.shut && p.0 !in hs) }

  // ---------- the DPDK play ----------

  /** A VTEP host's hardware: its management MACs, and the PCI function behind each MAC the kernel or a saved map
      knows. */
  datatype Board = Board(management: set<string>, pciOf: map<string, string>)

  /** What the plays find: interface names, hardware, all hosts, and the hosts of the vteps group. */
  datatype Site = Site(ifaces: Ifaces, boards: map<string, Board>, all: seq<string>, vteps: seq<string>)

  /** dev is base itself or a VLAN interface on top of it. */
  predicate OnTopOf(base: string, dev: string) { dev == base || base + "." <= dev }

  predicate TakenFor(ifaces: Ifaces, h: string, macs: set<string>, dev: string) {
    exists k :: k in ifaces && k.0 == h && P.ToLower(k.1) in macs && OnTopOf(ifaces[k], dev)
  }

  /** Interfaces whose PCI function is bound to the user-space driver leave the kernel, with everything on top of
      them. */
  function Unbound(links: map<Dev, Link>, ifaces: Ifaces, h: string, macs: set<string>): map<Dev, Link> {
    map d | d in links && !(d.0 == h && TakenFor(ifaces, h, macs, d.1)) :: links[d]
  }

  /** Binding and rendering both get through on a host. */
  predicate Binds(site: Site, h: string, segs: seq<Segment>) {
    && h in site.boards && P.WithAccess(segs, h) != []
    && var used := P.UsedMacs(segs, h);
       used != {} && site.boards[h].management * used == {} && used <= site.boards[h].pciOf.Keys
  }

  function BindAll(w: World, site: Site, hs: seq<string>, segs: seq<Segment>): Result<World>
    decreases hs
  {
    if hs == [] then Ok(w)
    else if !Binds(site, hs[0], segs) then Die
    else BindAll(w.(links := Unbound(w.links, site.ifaces, hs[0], P.UsedMacs(segs, hs[0]))), site, hs[1..], segs)
  }

  /** The plays in order: the role on all hosts, then on the hosts of the vteps group the DPDK role, or FRR under
      EVPN. */
  function Deploy(w: World, site: Site, segs: seq<Segment>, mode: Mode): Result<World> {
    match RoleOnAll(w, site.ifaces, site.all, segs, mode)
    case Die => Die
    case Ok(done) =>
      match mode
      case LinuxStatic => Ok(done)
      case LinuxEvpn => Ok(FrrRestarted(done, Elements(site.vteps)))
      case Dpdk => BindAll(done, site, site.vteps, segs)
  }

  /** The machines the plays run on. */
  class Testbed {
    var w: World

    method ConfigureClients(ifaces: Ifaces, h: string, segs: seq<Segment>) returns (ok: bool)
      modifies this
      ensures ok ==> ConfigureMembers(old(w).links, ifaces, h, AllMembers(segs)) == Ok(w.links)
      ensures !ok ==> ConfigureMembers(old(w).links, ifaces, h, AllMembers(segs)) == Die
      ensures w == old(w).(links := w.links)
    {
      assert segs[0..] == segs;
      for k := 0 to |segs|
        invariant w == old(w).(links := w.links)
        invariant ConfigureMembers(old(w).links, ifaces, h, AllMembers(segs)) ==
                  ConfigureMembers(w.links, ifaces, h, AllMembers(segs[k..]))
      {
        var ms := segs[k].members;
        assert segs[k..][1..] == segs[k + 1..];
        assert ms[0..] == ms;
        for j := 0 to |ms|
          invariant w == old(w).(links := w.links)
          invariant ConfigureMembers(old(w).links, ifaces, h, AllMembers(segs)) ==
                    ConfigureMembers(w.links, ifaces, h, ms[j..] + AllMembers(segs[k + 1..]))
        {
          assert (ms[j..] + AllMembers(segs[k + 1..]))[1..] == ms[j + 1..] + AllMembers(segs[k + 1..]);
          if ms[j].host == h {
            var next := ConfigureMember(w.links, ifaces, ms[j]);
            if next.Die? {
              return false;
            }
            w := w.(links := next.value);
          }
        }
        assert ms[|ms|..] + AllMembers(segs[k + 1..]) == AllMembers(segs[k + 1..]);
      }
      return true;
    }

    /** Peers and local VTEP are found by one scan; the flood entries are appended one by one to a fresh device. */
    method ConfigureVtepOn(ifaces: Ifaces, h: string, s: Segment, mode: Mode) returns (ok: bool)
      requires P.OneVtepPerHost(s.vteps)
      modifies this
      ensures ConfigureVtep(old(w), ifaces, h, s, mode) == if ok then Ok(w) else Die
    {
      var local, peers := P.Split(s.vteps, h);
      if local.None? {
        return true;
      }
      if (h, local.value.underlayMac) !in ifaces {
        return false;
      }
      var under := (h, ifaces[(h, local.value.underlayMac)]);
      var addressed := if mode.Dpdk? then Flush(w.links, under) else AddAddr(w.links, under, local.value.underlayIp);
      var links := RaiseEach(SetUp(addressed, under, true), ifaces, h, local.value.localNics);
      if links.Die? {
        return false;
      }
      if mode.Dpdk? {
        w := w.(links := links.value, fdb := WithoutKey(w.fdb, (h, s.vxlan)));
      } else {
        var fdb: Fdb := multiset{};
        if mode.LinuxStatic? {
          fdb := FloodTo(P.Addresses(peers));
        }
        w := w.(links := links.value, fdb := w.fdb[(h, s.vxlan) := fdb]);
      }
      return true;
    }

    method ConfigureVtepsOn(ifaces: Ifaces, h: string, segs: seq<Segment>, mode: Mode) returns (ok: bool)
      requires forall s :: s in segs ==> P.OneVtepPerHost(s.vteps)
      modifies this
      ensures ConfigureVteps(old(w), ifaces, h, segs, mode) == if ok then Ok(w) else Die
    {
      assert segs[0..] == segs;
      for k := 0 to |segs|
        invariant ConfigureVteps(old(w), ifaces, h, segs, mode) == ConfigureVteps(w, ifaces, h, segs[k..], mode)
      {
        assert segs[k..][1..] == segs[k + 1..] && segs[k] in segs;
        ok := ConfigureVtepOn(ifaces, h, segs[k], mode);
        if !ok {
          return;
        }
      }
      return true;
    }

    /** The plays, host after host. */
    method RunPlays(site: Site, ghost hosts: Hosts, ghost raw: Declared, segs: seq<Segment>, mode: Mode)
      returns (ok: bool)
      requires ValidSegments(hosts, raw) && Lowered(hosts, raw, segs)
      modifies this
      ensures Deploy(old(w), site, segs, mode) == if ok then Ok(w) else Die
    {
      P.LoweredNamed(hosts, raw, segs, "");
      ok := RunRole(site.ifaces, site.all, segs, mode);
      if !ok {
        return;
      }
      match mode
      case LinuxStatic =>
      case LinuxEvpn => RestartFrrOn(site.vteps);
      case Dpdk => ok := BindHosts(site, hosts, raw, segs);
    }

    method RunRole(ifaces: Ifaces, hs: seq<string>, segs: seq<Segment>, mode: Mode) returns (ok: bool)
      requires forall s :: s in segs ==> P.OneVtepPerHost(s.vteps)
      modifies this
      ensures RoleOnAll(old(w), ifaces, hs, segs, mode) == if ok then Ok(w) else Die
    {
      assert hs[0..] == hs;
      for k := 0 to |hs|
        invariant RoleOnAll(old(w), ifaces, hs, segs, mode) == RoleOnAll(w, ifaces, hs[k..], segs, mode)
      {
        assert hs[k..][1..] == hs[k + 1..];
        ghost var before := w;
        ok := ConfigureClients(ifaces, hs[k], segs);
        if !ok {
          return;
        }
        assert w == before.(links := w.links);
        ok := ConfigureVtepsOn(ifaces, hs[k], segs, mode);
        if !ok {
          return;
        }
      }
      return true;
    }

    /** The DPDK role on the hosts of the group: bind, then render. */
    method BindHosts(site: Site, ghost hosts: Hosts, ghost raw: Declared, segs: seq<Segment>) returns (ok: bool)
      requires ValidSegments(hosts, raw) && Lowered(hosts, raw, segs)
      modifies this
      ensures BindAll(old(w), site, site.vteps, segs) == if ok then Ok(w) else Die
    {
      var hs := site.vteps;
      assert hs[0..] == hs;
      for k := 0 to |hs|
        invariant BindAll(old(w), site, hs, segs) == BindAll(w, site, hs[k..], segs)
      {
        assert hs[k..][1..] == hs[k + 1..];
        if hs[k] !in site.boards {
          return false;
        }
        P.LoweredNamed(hosts, raw, segs, hs[k]);
        var board := site.boards[hs[k]];
        var bound := P.Bind(segs, hs[k], board.management, board.pciOf);
        if bound.Die? {
          return false;
        }
        assert bound.value.Keys == P.UsedMacs(segs, hs[k]);
        Unbind(site.ifaces, hs[k], SortedOf(bound.value.Keys));
        var config := P.RenderConfig(segs, hs[k], bound.value, P.NicNames(hosts, hs[k]));
        if config.Die? {
          return false;
        }
      }
      return true;
    }

    /** One bound MAC after the other. */
    method Unbind(ifaces: Ifaces, h: string, macs: seq<string>)
      modifies this
      ensures w == old(w).(links := Unbound(old(w).links, ifaces, h, Elements(macs)))
    {
      assert Unbound(w.links, ifaces, h, {}) == w.links;
      for k := 0 to |macs|
        invariant w == old(w).(links := Unbound(old(w).links, ifaces, h, Elements(macs[..k])))
      {
        assert Elements(macs[..k + 1]) == Elements(macs[..k]) + {macs[k]} by {
          assert macs[..k + 1] == macs[..k] + [macs[k]];
        }
        UnboundMore(old(w).links, ifaces, h, Elements(macs[..k]), macs[k]);
        w := w.(links := Unbound(w.links, ifaces, h, {macs[k]}));
      }
      assert macs[..|macs|] == macs;
    }

    method RestartFrrOn(hs: seq<string>)
      modifies this
      ensures w == FrrRestarted(old(w), Elements(hs))
    {
      for k := 0 to |hs|
        invariant w == FrrRestarted(old(w), Elements(hs[..k]))
      {
        assert hs[..k + 1] == hs[..k] + [hs[k]];
        w := w.(shut := ForgetShut(w.shut, hs[k]));
        assert w.shut == FrrRestarted(old(w), Elements(hs[..k + 1])).shut;
      }
      assert hs[..|hs|] == hs;
    }
  }

  lemma UnboundMore(links: map<Dev, Link>, ifaces: Ifaces, h: string, macs: set<string>, mac: string)
    ensures Unbound(Unbound(links, ifaces, h, macs), ifaces, h, {mac}) == Unbound(links, ifaces, h, macs + {mac})
  {
    forall dev
      ensures TakenFor(ifaces, h, macs + {mac}, dev) <==>
              TakenFor(ifaces, h, macs, dev) || TakenFor(ifaces, h, {mac}, dev)
    {}
  }

  method RaiseEach(links: map<Dev, Link>, ifaces: Ifaces, h: string, nics: seq<Nic>) returns (r: Result<map<Dev, Link>>)
    ensures r == RaiseLocal(links, ifaces, h, nics)
  {
    var raised := links;
    assert nics[0..] == nics;
    for k := 0 to |nics|
      invariant RaiseLocal(links, ifaces, h, nics) == RaiseLocal(raised, ifaces, h, nics[k..])
    {
      assert nics[k..][1..] == nics[k + 1..];
      if (h, nics[k].mac) !in ifaces {
        return Die;
      }
      var d := (h, ifaces[(h, nics[k].mac)]);
      raised := SetUp(Flush(raised, d), d, true);
    }
    return Ok(raised);
  }

  method FloodTo(addresses: seq<string>) returns (fdb: Fdb)
    ensures fdb == AppendPeers(multiset{}, addresses)
  {
    fdb := multiset{};
    assert addresses[0..] == addresses;
    for k := 0 to |addresses|
      invariant AppendPeers(multiset{}, addresses) == AppendPeers(fdb, addresses[k..])
    {
      fdb := fdb + multiset{(ZERO_MAC, addresses[k])};
      assert addresses[k..][1..] == addresses[k + 1..];
    }
  }

  // ---------- from a declared fault to an injection ----------

  /** What the executor reads: resolved topology with its management addresses, control plane, interface names the hosts
      report now, VM IDs. */
  datatype Env = Env(hosts: Hosts, segs: seq<Segment>, plane: C.Resolved, ifaces: Ifaces, dpdk: bool,
                     vmids: map<string, int>, file: S.TopoFile)

  /** The first VTEP with a local NIC on the given network. */
  function AttachedTo(vteps: seq<Vtep>, network: string): (r: Option<Vtep>)
    ensures r.Some? ==> r.value in vteps && exists n :: n in r.value.localNics && n.network == network
    ensures r.None? ==> forall v, n :: v in vteps && n in v.localNics ==> n.network != network
  {
    if vteps == [] then None
    else if exists n :: n in vteps[0].localNics && n.network == network then Some(vteps[0])
    else AttachedTo(vteps[1..], network)
  }

  function AttachedVtep(env: Env, s: Segment, m: Member): Option<Vtep> {
    var nic := NicOf(env.hosts, m.host, m.nic);
    if nic.None? then None else AttachedTo(s.vteps, nic.value.network)
  }

  /** [vtep address for vtep in vteps if vtep host != host]. */
  function OtherAddresses(vteps: seq<Vtep>, h: string): seq<string> {
    if vteps == [] then []
    else (if vteps[0].host != h then [vteps[0].underlayAddress] else []) + OtherAddresses(vteps[1..], h)
  }

  function NicIndex(nics: seq<Nic>, name: string): (r: Option<nat>)
    ensures r.Some? ==> r.value < |nics|
  {
    if nics == [] then None
    else if nics[0].name == name then Some(0)
    else var rest := NicIndex(nics[1..], name); if rest.None? then None else Some(rest.value + 1)
  }

  function ActionOf(env: Env, f: Fault): Result<Action> {
    var found := FaultPair(env.segs, f);
    if found.Die? then Die
    else
      var s := FindSegment(env.segs, f.segment).value;
      var (source, destination) := found.value;
      match f.kind
      case MtuMismatch =>
        if (source.host, source.mac) !in env.ifaces then Die
        else if source.mode != "trunk" then Ok(LowerMtu(source.host, env.ifaces[(source.host, source.mac)]))
        else if !source.vlan.Vlan? then Die
        else Ok(LowerMtu(source.host, SubIf(env.ifaces[(source.host, source.mac)], source.vlan.id)))
      case VlanMismatch =>
        var wrong := WrongVlan(f, source);
        if wrong.Die? || (source.host, source.mac) !in env.ifaces then Die
        else Ok(MoveVlan(source.host, env.ifaces[(source.host, source.mac)], source.vlan.id, wrong.value, source.ip))
      case _ =>
        var near, far := AttachedVtep(env, s, source), AttachedVtep(env, s, destination);
        if near.None? then Die
        else VtepAction(env, f.kind, s, near.value, far, destination.mac)
  }

  function VtepAction(env: Env, kind: FaultKind, s: Segment, near: Vtep, far: Option<Vtep>, mac: string)
    : Result<Action>
  {
    match kind
    case RemoveFdbPeer =>
      if far.None? then Die else Ok(RemoveFdb(near.host, s.vxlan, OtherAddresses(s.vteps, near.host), mac))
    case BounceUnderlay =>
      if !env.dpdk then
        (if (near.host, near.underlayMac) in env.ifaces
         then Ok(LinkDown(near.host, env.ifaces[(near.host, near.underlayMac)])) else Die)
      else
        (if near.host !in env.hosts || near.host !in env.vmids then Die
         else
           var index := NicIndex(env.hosts[near.host], near.underlayNic);
           if index.None? then Die else Ok(NicLinkDown(env.vmids[near.host], "net" + Dec(index.value))))
    case BgpPeerShutdown =>
      if far.None? || near.host !in env.plane then Die
      else
        var address := F.PeerAddress(env.plane[near.host].peers, far.value.host);
        if address.Die? then Die else Ok(ShutPeer(near.host, address.value))
    case FrrRestart => Ok(RestartFrr(near.host))
    case _ => Die
  }

  // ---------- three computations of a VTEP's peers ----------

  /** The scan for other hosts and the comprehension over other hosts find the same addresses in the same order. */
  lemma {:induction false} ScanAgrees(vteps: seq<Vtep>, h: string)
    ensures OtherAddresses(vteps, h) == P.Addresses(P.PeersOf(vteps, h))
  {
    if vteps != [] {
      var last, rest := vteps[|vteps| - 1], vteps[..|vteps| - 1];
      assert vteps == rest + [last];
      ScanAgrees(rest, h);
      OtherSnoc(rest, last, h);
      PeersSnoc(rest, last, h);
    }
  }

  lemma PeersSnoc(vteps: seq<Vtep>, v: Vtep, h: string)
    ensures P.Addresses(P.PeersOf(vteps + [v], h)) ==
            P.Addresses(P.PeersOf(vteps, h)) + (if v.host != h then [v.underlayAddress] else [])
  {
    assert (vteps + [v])[..|vteps|] == vteps;
    AddressesSnoc(P.PeersOf(vteps, h), v);
  }

  lemma AddressesSnoc(vteps: seq<Vtep>, v: Vtep)
    ensures P.Addresses(vteps + [v]) == P.Addresses(vteps) + [v.underlayAddress]
    ensures P.Addresses(vteps + []) == P.Addresses(vteps)
  {
    assert (vteps + [v])[..|vteps|] == vteps;
    assert vteps + [] == vteps;
  }

  lemma {:induction false} OtherSnoc(vteps: seq<Vtep>, v: Vtep, h: string)
    ensures OtherAddresses(vteps + [v], h) ==
            OtherAddresses(vteps, h) + (if v.host != h then [v.underlayAddress] else [])
  {
    if vteps == [] {
      assert vteps + [v] == [v];
    } else {
      assert (vteps + [v])[1..] == vteps[1..] + [v];
      OtherSnoc(vteps[1..], v, h);
    }
  }

  /** The peers rendered for the DPDK dataplane, the flood entries of the Linux device and the peers whose entries the
      fault removes are the same addresses, with the same multiplicity, and the device has no other entries. */
  lemma PeersAgree(s: Segment, h: string, x: P.VxSegment)
    requires P.RendersSegment(s, h, x)
    ensures x.peers == OtherAddresses(s.vteps, h)
    ensures forall e: (string, string) ::
              Flood(s, h, LinuxStatic)[e] == if e.0 == ZERO_MAC then multiset(x.peers)[e.1] else 0
  {
    ScanAgrees(s.vteps, h);
    forall e: (string, string)
      ensures Flood(s, h, LinuxStatic)[e] == if e.0 == ZERO_MAC then multiset(x.peers)[e.1] else 0
    {
      AppendCount(multiset{}, x.peers, e);
    }
  }

  /** Peering is mutual: of two VTEPs on different hosts each floods to the other. */
  lemma PeeringMutual(s: Segment, v: Vtep, u: Vtep)
    requires v in s.vteps && u in s.vteps
    ensures v in P.PeersOf(s.vteps, u.host) <==> u in P.PeersOf(s.vteps, v.host)
    ensures v.host != u.host ==> v.underlayAddress in OtherAddresses(s.vteps, u.host)
  {
    ScanAgrees(s.vteps, u.host);
    if v.host != u.host {
      AddressOf(P.PeersOf(s.vteps, u.host), v);
    }
  }

  lemma {:induction false} AddressOf(vteps: seq<Vtep>, v: Vtep)
    requires v in vteps
    ensures v.underlayAddress in P.Addresses(vteps)
  {
    if v != vteps[|vteps| - 1] {
      AddressOf(vteps[..|vteps| - 1], v);
    }
  }
}
