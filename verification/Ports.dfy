/** The two passes that derive a VTEP's DPDK ports from the same segments: the binder, keyed by MAC, and the config
    renderer, keyed by port name (ansible/roles/pulsaros-vxlan/tasks/main.yml). */
module Ports {
  import opened Text
  import opened Topology

  function ToLower(s: string): string {
    if s == [] then [] else [if 'A' <= s[0] <= 'Z' then s[0] - 'A' + 'a' else s[0]] + ToLower(s[1..])
  }

  /** Capital letters become small ones and nothing else changes. */
  lemma {:induction false} LowerExactly(s: string)
    ensures |ToLower(s)| == |s|
    ensures forall i :: 0 <= i < |s| ==>
              if 'A' <= s[i] <= 'Z' then ToLower(s)[i] as int == s[i] as int + 32 else ToLower(s)[i] == s[i]
    ensures (forall c :: c in s ==> !('A' <= c <= 'Z')) ==> ToLower(s) == s
  {
    if s != [] {
      LowerExactly(s[1..]);
      assert s == [s[0]] + s[1..];
      assert s[0] in s && forall c :: c in s[1..] ==> c in s;
    }
  }

  // ---------- which VTEP is local ----------

  /** next(...): the first VTEP on the host. */
  function FirstOn(vteps: seq<Vtep>, h: string): (r: Option<Vtep>)
    ensures r.Some? ==> r.value in vteps && r.value.host == h
    ensures r.None? ==> forall v :: v in vteps ==> v.host != h
  {
    if vteps == [] then None else if vteps[0].host == h then Some(vteps[0]) else FirstOn(vteps[1..], h)
  }

  function PeersOf(vteps: seq<Vtep>, h: string): (r: seq<Vtep>)
    ensures forall v :: v in r <==> v in vteps && v.host != h
  {
    if vteps == [] then []
    else
      var last := vteps[|vteps| - 1];
      assert forall v :: v in vteps <==> v in vteps[..|vteps| - 1] || v == last;
      PeersOf(vteps[..|vteps| - 1], h) + (if last.host != h then [last] else [])
  }

  predicate OneVtepPerHost(vteps: seq<Vtep>) {
    forall i, j :: 0 <= i < j < |vteps| ==> vteps[i].host != vteps[j].host
  }

  lemma OnlyOne(vteps: seq<Vtep>, v: Vtep, w: Vtep)
    requires OneVtepPerHost(vteps) && v in vteps && w in vteps && v.host == w.host
    ensures v == w
  {
  }

  /** The renderer's and the Linux role's scan: the last match is local, everything else is a peer. */
  method Split(vteps: seq<Vtep>, h: string) returns (local: Option<Vtep>, peers: seq<Vtep>)
    ensures peers == PeersOf(vteps, h)
    ensures local.Some? ==> local.value in vteps && local.value.host == h
    ensures local.None? ==> forall v :: v in vteps ==> v.host != h
    ensures OneVtepPerHost(vteps) ==> local == FirstOn(vteps, h)
  {
    local, peers := None, [];
    for k := 0 to |vteps|
      invariant peers == PeersOf(vteps[..k], h)
      invariant local.Some? ==> local.value in vteps && local.value.host == h
      invariant local.None? ==> forall v :: v in vteps[..k] ==> v.host != h
    {
      assert vteps[..k + 1][..k] == vteps[..k];
      if vteps[k].host == h {
        local := Some(vteps[k]);
      } else {
        peers := peers + [vteps[k]];
      }
    }
    assert vteps[..|vteps|] == vteps;
    if OneVtepPerHost(vteps) && local.Some? {
      OnlyOne(vteps, local.value, FirstOn(vteps, h).value);
    }
  }

  // ---------- the MACs a host uses ----------

  function MacsOf(v: Vtep): set<string> {
    {ToLower(v.underlayMac)} + NicMacSet(v.localNics)
  }

  function NicMacSet(nics: seq<Nic>): set<string> {
    set n | n in nics :: ToLower(n.mac)
  }

  function LocalMacs(s: Segment, h: string): set<string> {
    var local := FirstOn(s.vteps, h);
    if local.Some? then MacsOf(local.value) else {}
  }

  function UsedMacs(segs: seq<Segment>, h: string): set<string> {
    if segs == [] then {} else UsedMacs(segs[..|segs| - 1], h) + LocalMacs(segs[|segs| - 1], h)
  }

  /** A host uses, in lower case, exactly the MACs of its VTEPs' underlay and local NICs. */
  lemma {:induction false} UsedExactly(segs: seq<Segment>, h: string, mac: string)
    requires forall s :: s in segs ==> OneVtepPerHost(s.vteps)
    ensures mac in UsedMacs(segs, h) <==> exists s :: s in segs && Owns(s, h, mac)
  {
    if segs != [] {
      var last, rest := segs[|segs| - 1], segs[..|segs| - 1];
      assert forall s :: s in segs <==> s in rest || s == last;
      UsedExactly(rest, h, mac);
      LocalExactly(last, h, mac);
    }
  }

  lemma LocalExactly(s: Segment, h: string, mac: string)
    requires OneVtepPerHost(s.vteps)
    ensures mac in LocalMacs(s, h) <==> Owns(s, h, mac)
  {
    forall v | v in s.vteps && v.host == h ensures FirstOn(s.vteps, h) == Some(v) {
      OnlyOne(s.vteps, v, FirstOn(s.vteps, h).value);
    }
  }

  /** One of the host's NICs that the segment's VTEP there uses has this MAC. */
  predicate Owns(s: Segment, h: string, mac: string) {
    exists v :: v in s.vteps && v.host == h && HasMac(v, mac)
  }

  predicate HasMac(v: Vtep, mac: string) {
    mac == ToLower(v.underlayMac) || exists n :: n in v.localNics && mac == ToLower(n.mac)
  }

  /** The host has an access port in the segment. */
  predicate HasAccess(s: Segment, h: string) {
    FirstOn(s.vteps, h).Some? && FirstOn(s.vteps, h).value.localNics != []
  }

  // ---------- pass one: binding ----------

  method CollectFrom(v: Vtep, before: set<string>) returns (targets: set<string>)
    ensures targets == before + MacsOf(v)
  {
    targets := before + {ToLower(v.underlayMac)};
    ghost var start := targets;
    for j := 0 to |v.localNics|
      invariant targets == start + NicMacSet(v.localNics[..j])
    {
      OneMoreNic(v.localNics, j);
      targets := targets + {ToLower(v.localNics[j].mac)};
    }
    assert v.localNics[..|v.localNics|] == v.localNics;
  }

  /** Targets keyed by MAC: every MAC the host uses, once. */
  method CollectTargets(segs: seq<Segment>, h: string) returns (targets: set<string>)
    ensures targets == UsedMacs(segs, h)
  {
    targets := {};
    for k := 0 to |segs|
      invariant targets == UsedMacs(segs[..k], h)
    {
      assert segs[..k + 1][..k] == segs[..k];
      var local := FirstOn(segs[k].vteps, h);
      if local.Some? {
        targets := CollectFrom(local.value, targets);
      }
    }
    assert segs[..|segs|] == segs;
  }

  /** Binds the targets to PCI functions; pciOf is what the kernel or the saved map knows. Dies when there is no target,
      when a management NIC is among them, or when one has no PCI function. */
  method Bind(segs: seq<Segment>, h: string, management: set<string>, pciOf: map<string, string>)
    returns (r: Result<map<string, string>>)
    ensures r.Ok? <==>
            UsedMacs(segs, h) != {} && management * UsedMacs(segs, h) == {} && UsedMacs(segs, h) <= pciOf.Keys
    ensures r.Ok? ==> r.value == map m | m in UsedMacs(segs, h) :: pciOf[m]
  {
    var targets := CollectTargets(segs, h);
    if targets == {} || management * targets != {} || !(targets <= pciOf.Keys) {
      return Die;
    }
    return Ok(map m | m in targets :: pciOf[m]);
  }

  // ---------- pass two: rendering ----------

  datatype Port = Port(name: string, pci: string)

  datatype VxSegment = VxSegment(name: string, vni: int, underlayPort: string, accessPorts: seq<string>,
                                 peers: seq<string>)

  datatype Config = Config(ports: seq<Port>, segments: seq<VxSegment>)

  function Pcis(ports: seq<Port>): set<string> { set p | p in ports :: p.pci }

  function Names(ports: seq<Port>): set<string> { set p | p in ports :: p.name }

  /** Which MAC each NIC name of the host stands for. */
  type NicMacs = map<string, string>

  ghost predicate Named(nics: NicMacs, v: Vtep) {
    && v.underlayNic in nics && nics[v.underlayNic] == v.underlayMac
    && forall n :: n in v.localNics ==> n.name in nics && nics[n.name] == n.mac
  }

  ghost predicate AllNamed(nics: NicMacs, segs: seq<Segment>, h: string) {
    forall s, v :: s in segs && v in s.vteps && v.host == h ==> Named(nics, v)
  }

  ghost predicate PortFor(nics: NicMacs, pci: map<string, string>, p: Port) {
    exists n :: n in nics && ToLower(nics[n]) in pci && p.pci == pci[ToLower(nics[n])]
                && (p.name == "underlay-" + n || p.name == "access-" + n)
  }

  predicate NamesUnique(ports: seq<Port>) {
    forall i, j :: 0 <= i < j < |ports| ==> ports[i].name != ports[j].name
  }

  ghost predicate PortsFor(nics: NicMacs, pci: map<string, string>, ports: seq<Port>) {
    (forall p :: p in ports ==> PortFor(nics, pci, p)) && NamesUnique(ports)
  }

  /** A port name stands for one NIC, hence one MAC, hence one PCI function. */
  lemma SameNameSamePci(nics: NicMacs, pci: map<string, string>, p: Port, q: Port)
    requires PortFor(nics, pci, p) && PortFor(nics, pci, q) && p.name == q.name
    ensures p.pci == q.pci
  {
    var n :| n in nics && ToLower(nics[n]) in pci && p.pci == pci[ToLower(nics[n])]
             && (p.name == "underlay-" + n || p.name == "access-" + n);
    var m :| m in nics && ToLower(nics[m]) in pci && q.pci == pci[ToLower(nics[m])]
             && (q.name == "underlay-" + m || q.name == "access-" + m);
    assert ("underlay-" + n)[9..] == n && ("access-" + n)[7..] == n;
    assert ("underlay-" + m)[9..] == m && ("access-" + m)[7..] == m;
    assert ("underlay-" + n)[0] == 'u' && ("access-" + m)[0] == 'a';
    assert ("underlay-" + m)[0] == 'u' && ("access-" + n)[0] == 'a';
  }

  /** add_port: a second port of the same name is dropped, and nothing is lost by it. */
  method AddPort(ports: seq<Port>, port: Port, ghost nics: NicMacs, ghost pci: map<string, string>)
    returns (r: seq<Port>)
    requires PortsFor(nics, pci, ports) && PortFor(nics, pci, port)
    ensures PortsFor(nics, pci, r)
    ensures Names(r) == Names(ports) + {port.name} && Pcis(r) == Pcis(ports) + {port.pci}
  {
    if port.name in Names(ports) {
      ghost var p :| p in ports && p.name == port.name;
      SameNameSamePci(nics, pci, p, port);
      assert p.pci in Pcis(ports);
      return ports;
    }
    r := ports + [port];
    assert forall p :: p in r <==> p in ports || p == port;
  }

  function Addresses(vteps: seq<Vtep>): (r: seq<string>)
    ensures |r| == |vteps| && forall i :: 0 <= i < |r| ==> r[i] == vteps[i].underlayAddress
  {
    if vteps == [] then [] else Addresses(vteps[..|vteps| - 1]) + [vteps[|vteps| - 1].underlayAddress]
  }

  function Image(pci: map<string, string>, macs: set<string>): set<string>
    requires macs <= pci.Keys
  {
    set m | m in macs :: pci[m]
  }

  lemma ImageUnion(pci: map<string, string>, a: set<string>, b: set<string>)
    requires a <= pci.Keys && b <= pci.Keys
    ensures Image(pci, a + b) == Image(pci, a) + Image(pci, b)
  {
  }

  function AccessNames(nics: seq<Nic>): (r: seq<string>)
    ensures |r| == |nics|
  {
    if nics == [] then [] else AccessNames(nics[..|nics| - 1]) + ["access-" + nics[|nics| - 1].name]
  }

  lemma {:induction false} AccessNameAt(nics: seq<Nic>, i: nat)
    requires i < |nics|
    ensures AccessNames(nics)[i] == "access-" + nics[i].name
  {
    if i < |nics| - 1 { AccessNameAt(nics[..|nics| - 1], i); }
  }

  method AddAccessPorts(ports: seq<Port>, local: seq<Nic>, pci: map<string, string>, ghost nics: NicMacs)
    returns (r: Result<(seq<Port>, seq<string>)>)
    requires PortsFor(nics, pci, ports) && forall n :: n in local ==> n.name in nics && nics[n.name] == n.mac
    ensures r.Ok? <==> NicMacSet(local) <= pci.Keys
    ensures r.Ok? ==> PortsFor(nics, pci, r.value.0) && Pcis(r.value.0) == Pcis(ports) + Image(pci, NicMacSet(local))
    ensures r.Ok? ==> Names(r.value.0) == Names(ports) + Elements(AccessNames(local))
    ensures r.Ok? ==> r.value.1 == AccessNames(local)
  {
    var out := ports;
    var access: seq<string> := [];
    for k := 0 to |local|
      invariant NicMacSet(local[..k]) <= pci.Keys
      invariant PortsFor(nics, pci, out)
      invariant Pcis(out) == Pcis(ports) + Image(pci, NicMacSet(local[..k]))
      invariant access == AccessNames(local[..k])
      invariant Names(out) == Names(ports) + Elements(access)
    {
      var n := local[k];
      var mac := ToLower(n.mac);
      OneMoreNic(local, k);
      if mac !in pci {
        return Die;
      }
      PortOfNic(nics, pci, n);
      var port := Port("access-" + n.name, pci[mac]);
      out := AddPort(out, port, nics, pci);
      ImageStep(pci, NicMacSet(local[..k]), mac);
      assert Elements(access + [port.name]) == Elements(access) + {port.name};
      access := access + [port.name];
    }
    assert local[..|local|] == local;
    return Ok((out, access));
  }

  lemma OneMoreNic(local: seq<Nic>, k: nat)
    requires k < |local|
    ensures NicMacSet(local[..k + 1]) == NicMacSet(local[..k]) + {ToLower(local[k].mac)}
    ensures ToLower(local[k].mac) in NicMacSet(local) && local[k] in local
    ensures AccessNames(local[..k + 1]) == AccessNames(local[..k]) + ["access-" + local[k].name]
  {
    assert local[..k + 1] == local[..k] + [local[k]];
    assert local[..k + 1][..k] == local[..k];
  }

  lemma PortOfNic(nics: NicMacs, pci: map<string, string>, n: Nic)
    requires n.name in nics && nics[n.name] == n.mac && ToLower(n.mac) in pci
    ensures PortFor(nics, pci, Port("access-" + n.name, pci[ToLower(n.mac)]))
  {
  }

  lemma ImageStep(pci: map<string, string>, macs: set<string>, mac: string)
    requires macs <= pci.Keys && mac in pci
    ensures Image(pci, macs + {mac}) == Image(pci, macs) + {pci[mac]}
  {
  }

  /** The ports of one local VTEP: all of its MACs' PCI functions are covered and its port names are known. */
  method AddVtepPorts(ports: seq<Port>, v: Vtep, pci: map<string, string>, ghost nics: NicMacs)
    returns (r: Result<(seq<Port>, seq<string>)>)
    requires PortsFor(nics, pci, ports) && Named(nics, v)
    ensures r.Ok? <==> MacsOf(v) <= pci.Keys
    ensures r.Ok? ==> PortsFor(nics, pci, r.value.0) && Pcis(r.value.0) == Pcis(ports) + Image(pci, MacsOf(v))
    ensures r.Ok? ==> Names(ports) <= Names(r.value.0) && "underlay-" + v.underlayNic in Names(r.value.0)
    ensures r.Ok? ==> r.value.1 == AccessNames(v.localNics) && Elements(r.value.1) <= Names(r.value.0)
  {
    var under := ToLower(v.underlayMac);
    if under !in pci {
      return Die;
    }
    assert PortFor(nics, pci, Port("underlay-" + v.underlayNic, pci[under]));
    var out := AddPort(ports, Port("underlay-" + v.underlayNic, pci[under]), nics, pci);
    r := AddAccessPorts(out, v.localNics, pci, nics);
    if r.Ok? {
      ImageStep(pci, NicMacSet(v.localNics), under);
      assert MacsOf(v) == NicMacSet(v.localNics) + {under};
    }
  }

  predicate RefersToPorts(s: VxSegment, names: set<string>) {
    s.underlayPort in names && forall a :: a in s.accessPorts ==> a in names
  }

  /** A rendered segment: the host's underlay port, its access ports in order, and the addresses of every other VTEP of
      that segment. */
  predicate RendersSegment(s: Segment, h: string, x: VxSegment) {
    && x.name == s.name && x.vni == s.vni
    && HasAccess(s, h)
    && x.underlayPort == "underlay-" + FirstOn(s.vteps, h).value.underlayNic
    && x.accessPorts == AccessNames(FirstOn(s.vteps, h).value.localNics)
    && x.peers == Addresses(PeersOf(s.vteps, h))
  }

  /** The segments in which the host has an access port, in order. */
  function WithAccess(segs: seq<Segment>, h: string): (r: seq<Segment>)
    ensures forall s :: s in r <==> s in segs && exists v :: v in s.vteps && v.host == h && HasAccess(s, h)
  {
    if segs == [] then []
    else
      var last := segs[|segs| - 1];
      assert forall s :: s in segs <==> s in segs[..|segs| - 1] || s == last;
      WithAccess(segs[..|segs| - 1], h) + (if HasAccess(last, h) then [last] else [])
  }

  /** Exactly those segments are rendered, each naming rendered ports only. */
  predicate SegmentsOk(expected: seq<Segment>, h: string, out: seq<VxSegment>, names: set<string>) {
    && |out| == |expected|
    && forall i :: 0 <= i < |out| ==> RendersSegment(expected[i], h, out[i]) && RefersToPorts(out[i], names)
  }

  lemma AddSegment(expected: seq<Segment>, h: string, out: seq<VxSegment>, names: set<string>, more: set<string>,
                   s: Segment, x: Option<VxSegment>)
    requires SegmentsOk(expected, h, out, names) && names <= more
    requires x.Some? <==> HasAccess(s, h)
    requires x.Some? ==> RendersSegment(s, h, x.value) && RefersToPorts(x.value, more)
    ensures SegmentsOk(expected + (if HasAccess(s, h) then [s] else []), h,
                       out + (if x.Some? then [x.value] else []), more)
  {
  }

  method RenderOne(s: Segment, h: string, pci: map<string, string>, ports: seq<Port>, ghost nics: NicMacs)
    returns (r: Result<(seq<Port>, Option<VxSegment>)>)
    requires OneVtepPerHost(s.vteps) && PortsFor(nics, pci, ports)
    requires forall v :: v in s.vteps && v.host == h ==> Named(nics, v)
    ensures r.Ok? <==> LocalMacs(s, h) <= pci.Keys
    ensures r.Ok? ==> PortsFor(nics, pci, r.value.0) && Pcis(r.value.0) == Pcis(ports) + Image(pci, LocalMacs(s, h))
    ensures r.Ok? ==> Names(ports) <= Names(r.value.0) && (r.value.1.Some? <==> HasAccess(s, h))
    ensures r.Ok? && r.value.1.Some? ==>
              RendersSegment(s, h, r.value.1.value) && RefersToPorts(r.value.1.value, Names(r.value.0))
  {
    var local, peers := Split(s.vteps, h);
    if local.None? {
      return Ok((ports, None));
    }
    var added := AddVtepPorts(ports, local.value, pci, nics);
    if added.Die? {
      return Die;
    }
    var access := added.value.1;
    if access == [] {
      return Ok((added.value.0, None));
    }
    assert forall a :: a in access ==> a in Elements(access);
    return Ok((added.value.0,
               Some(VxSegment(s.name, s.vni, "underlay-" + local.value.underlayNic, access, Addresses(peers)))));
  }

  method RenderEach(segs: seq<Segment>, h: string, pci: map<string, string>, ghost nics: NicMacs)
    returns (r: Result<seq<Port>>, out: seq<VxSegment>)
    requires AllNamed(nics, segs, h) && forall s :: s in segs ==> OneVtepPerHost(s.vteps)
    ensures r.Ok? <==> UsedMacs(segs, h) <= pci.Keys
    ensures r.Ok? ==> Pcis(r.value) == Image(pci, UsedMacs(segs, h)) && NamesUnique(r.value)
    ensures r.Ok? ==> SegmentsOk(WithAccess(segs, h), h, out, Names(r.value))
  {
    var ports: seq<Port> := [];
    out := [];
    for k := 0 to |segs|
      invariant UsedMacs(segs[..k], h) <= pci.Keys && Pcis(ports) == Image(pci, UsedMacs(segs[..k], h))
      invariant PortsFor(nics, pci, ports)
      invariant SegmentsOk(WithAccess(segs[..k], h), h, out, Names(ports))
    {
      OneMoreSegment(segs, h, k);
      var one := RenderOne(segs[k], h, pci, ports, nics);
      if one.Die? {
        UsedGrows(segs, h, k + 1);
        return Die, out;
      }
      ImageUnion(pci, UsedMacs(segs[..k], h), LocalMacs(segs[k], h));
      AddSegment(WithAccess(segs[..k], h), h, out, Names(ports), Names(one.value.0), segs[k], one.value.1);
      ports := one.value.0;
      out := out + (if one.value.1.Some? then [one.value.1.value] else []);
    }
    assert segs[..|segs|] == segs;
    return Ok(ports), out;
  }

  lemma OneMoreSegment(segs: seq<Segment>, h: string, k: nat)
    requires k < |segs|
    ensures segs[k] in segs
    ensures UsedMacs(segs[..k + 1], h) == UsedMacs(segs[..k], h) + LocalMacs(segs[k], h)
    ensures WithAccess(segs[..k + 1], h) == WithAccess(segs[..k], h) + (if HasAccess(segs[k], h) then [segs[k]] else [])
  {
    assert segs[..k + 1][..k] == segs[..k];
  }

  /** Pass two. It misses a mapping only for a MAC pass one did not bind, and it dies otherwise only when the host has
      no access port anywhere; the PCI functions it renders are exactly those of the MACs the host uses, although it
      drops repeated port names rather than repeated MACs. */
  method RenderConfig(segs: seq<Segment>, h: string, pci: map<string, string>, ghost nics: NicMacs)
    returns (r: Result<Config>)
    requires AllNamed(nics, segs, h) && forall s :: s in segs ==> OneVtepPerHost(s.vteps)
    ensures r.Ok? ==> UsedMacs(segs, h) <= pci.Keys && Pcis(r.value.ports) == Image(pci, UsedMacs(segs, h))
    ensures r.Ok? ==> SegmentsOk(WithAccess(segs, h), h, r.value.segments, Names(r.value.ports))
    ensures r.Ok? ==> NamesUnique(r.value.ports)
    ensures r.Ok? <==> UsedMacs(segs, h) <= pci.Keys && WithAccess(segs, h) != []
  {
    var ports, out := RenderEach(segs, h, pci, nics);
    if ports.Die? {
      return Die;
    }
    if out != [] {
      assert RefersToPorts(out[0], Names(ports.value));
    }
    if ports.value == [] || out == [] {
      return Die;
    }
    return Ok(Config(ports.value, out));
  }

  lemma {:induction false} UsedGrows(segs: seq<Segment>, h: string, k: nat)
    requires k <= |segs|
    ensures UsedMacs(segs[..k], h) <= UsedMacs(segs, h)
    decreases |segs|
  {
    if k < |segs| {
      UsedGrows(segs[..|segs| - 1], h, k);
      assert segs[..|segs| - 1][..k] == segs[..k];
    } else {
      assert segs[..k] == segs;
    }
  }

  // ---------- both passes on a checked topology ----------

  function NicNames(hosts: Hosts, h: string): NicMacs {
    if h !in hosts then map[]
    else
      var names := set x | x in hosts[h] :: x.name;
      map n | n in names && NicOf(hosts, h, n).Some? :: NicOf(hosts, h, n).value.mac
  }

  lemma LoweredVtepNamed(hosts: Hosts, raw: RawVtep, v: Vtep)
    requires LoweredVtep(hosts, raw, v)
    ensures Named(NicNames(hosts, v.host), v)
  {
    forall n | n in v.localNics ensures NicOf(hosts, v.host, n.name) == Some(n) && n in hosts[v.host] {
      var i :| 0 <= i < |v.localNics| && v.localNics[i] == n;
      assert NicOf(hosts, raw.host, raw.localNics[i]) == Some(v.localNics[i]);
    }
  }

  lemma LoweredNamed(hosts: Hosts, raw: Declared, segs: seq<Segment>, h: string)
    requires ValidSegments(hosts, raw) && Lowered(hosts, raw, segs)
    ensures AllNamed(NicNames(hosts, h), segs, h)
    ensures forall s :: s in segs ==> OneVtepPerHost(s.vteps)
  {
    forall s, v | s in segs && v in s.vteps && v.host == h ensures Named(NicNames(hosts, h), v) {
      var i :| 0 <= i < |segs| && segs[i] == s;
      assert LoweredSegment(hosts, raw[i].0, raw[i].1, s);
      var j :| 0 <= j < |s.vteps| && s.vteps[j] == v;
      assert LoweredVtep(hosts, raw[i].1.vteps[j], s.vteps[j]);
      LoweredVtepNamed(hosts, raw[i].1.vteps[j], v);
    }
    forall s | s in segs ensures OneVtepPerHost(s.vteps) {
      var i :| 0 <= i < |segs| && segs[i] == s;
      OneVtepLowered(hosts, raw, segs, i);
    }
  }

  lemma OneVtepLowered(hosts: Hosts, raw: Declared, segs: seq<Segment>, i: nat)
    requires ValidSegments(hosts, raw) && Lowered(hosts, raw, segs) && i < |segs|
    ensures OneVtepPerHost(segs[i].vteps)
  {
    assert SegmentOk(hosts, raw[i].0, raw[i].1) && LoweredSegment(hosts, raw[i].0, raw[i].1, segs[i]);
    forall a, b | 0 <= a < b < |segs[i].vteps| ensures segs[i].vteps[a].host != segs[i].vteps[b].host {
      assert LoweredVtep(hosts, raw[i].1.vteps[a], segs[i].vteps[a]);
      assert LoweredVtep(hosts, raw[i].1.vteps[b], segs[i].vteps[b]);
    }
  }

  /** Binder then renderer, on any checked topology. The binder maps each MAC the host uses, once, and dies only without
      targets, on a management NIC or on an unknown PCI function; whatever it mapped is exactly what the renderer
      configures, under unique port names, and once binding succeeded rendering fails only for a host without access
      ports. */
  method DerivePorts(hosts: Hosts, raw: Declared, segs: seq<Segment>, h: string, management: set<string>,
                     pciOf: map<string, string>)
    returns (bound: Result<map<string, string>>, r: Result<Config>)
    requires ValidSegments(hosts, raw) && Lowered(hosts, raw, segs)
    ensures bound.Ok? <==>
            UsedMacs(segs, h) != {} && management * UsedMacs(segs, h) == {} && UsedMacs(segs, h) <= pciOf.Keys
    ensures bound.Ok? ==> bound.value == map m | m in UsedMacs(segs, h) :: pciOf[m]
    ensures r.Ok? <==> bound.Ok? && WithAccess(segs, h) != []
    ensures r.Ok? ==> Pcis(r.value.ports) == bound.value.Values && NamesUnique(r.value.ports)
    ensures r.Ok? ==> SegmentsOk(WithAccess(segs, h), h, r.value.segments, Names(r.value.ports))
  {
    LoweredNamed(hosts, raw, segs, h);
    bound := Bind(segs, h, management, pciOf);
    if bound.Die? {
      return bound, Die;
    }
    r := RenderConfig(segs, h, bound.value, NicNames(hosts, h));
    ValuesAreImage(pciOf, UsedMacs(segs, h), bound.value);
  }

  lemma ValuesAreImage(pci: map<string, string>, macs: set<string>, bound: map<string, string>)
    requires macs <= pci.Keys && bound == map m | m in macs :: pci[m]
    ensures bound.Values == Image(bound, macs)
  {
    forall x ensures x in bound.Values <==> x in Image(bound, macs) {
      if x in bound.Values {
        var m :| m in bound.Keys && bound[m] == x;
      }
      if x in Image(bound, macs) {
        var m :| m in macs && bound[m] == x;
        assert m in bound.Keys;
      }
    }
  }
}
