/** Rendering networks and hosts for one run (scripts/render-topology.py): which declarations are accepted and that
    everything generated from them is distinct. */
module Render {
  import opened Text
  import opened Identifiers
  import T = Topology
  import opened Cluster

  datatype RawNic = RawNic(name: string, network: string, macOffset: int, management: bool)

  datatype RawHost = RawHost(name: string, vmidOffset: int, nics: seq<RawNic>, sized: bool)

  datatype RawNetwork = RawNetwork(name: string, mode: string, prefix: string, innerVlan: int,
                                   legacyOffset: Option<int>)

  datatype Settings = Settings(run: nat, qinq: bool, mgmtBridge: string, testBridge: string,
                               vlanBase: int, vlanCount: int)

  // ---------- accepted declarations ----------

  predicate NetworkOk(n: RawNetwork) {
    IsName(n.name) && (n.mode == "access" || n.mode == "trunk") && IsPrefix(n.prefix)
  }

  /** A NIC on no declared network must be flagged as the management NIC and say so. */
  predicate NicOk(networks: map<string, string>, nic: RawNic) {
    nic.network in networks || (nic.network == "management" && nic.management)
  }

  predicate HostOk(networks: map<string, string>, h: RawHost) {
    && IsName(h.name)
    && (forall nic :: nic in h.nics ==> NicOk(networks, nic))
    && forall i, j :: 0 <= i < j < |h.nics| ==> h.nics[i].name != h.nics[j].name
  }

  function AllOffsets(hosts: seq<RawHost>): seq<int> {
    if hosts == [] then []
    else AllOffsets(hosts[..|hosts| - 1]) + Offsets(hosts[|hosts| - 1].nics)
  }

  function Offsets(nics: seq<RawNic>): seq<int> {
    if nics == [] then [] else Offsets(nics[..|nics| - 1]) + [nics[|nics| - 1].macOffset]
  }

  function BridgeOf(s: Settings, n: RawNetwork): string {
    if s.qinq then Vnet(n.prefix, s.run)
    else
      var offset := if n.legacyOffset.Some? then n.legacyOffset.value else n.innerVlan;
      s.testBridge + ",tag=" + DecInt(BridgeTag(s.run, offset))
  }

  function BridgesOf(s: Settings): RawNetwork -> string { n => BridgeOf(s, n) }

  /** The bridge of every declared network, by network name. */
  function Bridges(bridge: RawNetwork -> string, networks: seq<RawNetwork>): map<string, string> {
    if networks == [] then map[]
    else
      var last := networks[|networks| - 1];
      Bridges(bridge, networks[..|networks| - 1])[last.name := bridge(last)]
  }

  /** With distinct network names: exactly the declared networks, each with its own bridge. */
  lemma {:induction false} BridgesExactly(bridge: RawNetwork -> string, networks: seq<RawNetwork>)
    requires KeysDistinct([], networks)
    ensures forall k :: k in Bridges(bridge, networks) <==> exists n :: n in networks && n.name == k
    ensures forall n :: n in networks ==> Bridges(bridge, networks)[n.name] == bridge(n)
  {
    if networks != [] {
      var last, rest := networks[|networks| - 1], networks[..|networks| - 1];
      BridgesExactly(bridge, rest);
      assert forall n :: n in networks <==> n in rest || n == last;
    }
  }

  /** Dictionary keys are distinct, so host and network names are. */
  predicate KeysDistinct(hosts: seq<RawHost>, networks: seq<RawNetwork>) {
    && (forall i, j :: 0 <= i < j < |hosts| ==> hosts[i].name != hosts[j].name)
    && (forall i, j :: 0 <= i < j < |networks| ==> networks[i].name != networks[j].name)
  }

  predicate NetworksOk(networks: seq<RawNetwork>) {
    && networks != [] && (forall n :: n in networks ==> NetworkOk(n))
    && forall i, j :: 0 <= i < j < |networks| ==> networks[i].prefix != networks[j].prefix
  }

  predicate AllHostsOk(networks: map<string, string>, hosts: seq<RawHost>) {
    forall i :: 0 <= i < |hosts| ==> HostOk(networks, hosts[i])
  }

  predicate HostsOk(networks: map<string, string>, hosts: seq<RawHost>) {
    && hosts != [] && AllHostsOk(networks, hosts)
    && (forall i, j :: 0 <= i < j < |hosts| ==> hosts[i].vmidOffset != hosts[j].vmidOffset)
    && Distinct(AllOffsets(hosts))
  }

  // ---------- what is generated ----------

  function NetValue(mac: string, bridge: string): string { "virtio=" + mac + ",bridge=" + bridge + ",firewall=0" }

  function BridgeFor(mgmt: string, bridges: map<string, string>, nic: RawNic): string {
    if nic.management || nic.network !in bridges then mgmt else bridges[nic.network]
  }

  /** How a run numbers its NICs. */
  type Macs = int -> string

  function MacsOf(run: nat): Macs { offset => MacFor(run, offset) }

  predicate RenderedNics(mac: Macs, mgmt: string, bridges: map<string, string>, raw: seq<RawNic>, nics: seq<T.Nic>,
                         nets: seq<string>)
  {
    && |nics| == |nets| == |raw|
    && forall i :: 0 <= i < |raw| ==>
         && nics[i] == T.Nic(raw[i].name, raw[i].network, mac(raw[i].macOffset))
         && nets[i] == NetValue(nics[i].mac, BridgeFor(mgmt, bridges, raw[i]))
  }

  predicate RenderedHost(mac: Macs, mgmt: string, bridges: map<string, string>, raw: RawHost, spec: HostSpec,
                         nics: seq<T.Nic>)
  {
    && spec.name == raw.name && spec.offset == raw.vmidOffset && spec.sized == raw.sized
    && RenderedNics(mac, mgmt, bridges, raw.nics, nics, spec.nets)
  }

  function NetSpecs(networks: seq<RawNetwork>): (r: seq<NetSpec>)
    ensures |r| == |networks|
    ensures forall i :: 0 <= i < |r| ==> r[i].prefix == networks[i].prefix && r[i].innerVlan == networks[i].innerVlan
  {
    seq(|networks|, i requires 0 <= i < |networks| => NetSpec(networks[i].prefix, networks[i].innerVlan))
  }

  datatype Output = Output(topo: Topo, hosts: T.Hosts)

  predicate RenderedHosts(mac: Macs, mgmt: string, bridges: map<string, string>, raw: seq<RawHost>,
                          specs: seq<HostSpec>, hosts: T.Hosts)
  {
    && |specs| == |raw|
    && (forall h :: h in hosts ==> exists i :: 0 <= i < |raw| && raw[i].name == h)
    && forall i :: 0 <= i < |raw| ==>
         raw[i].name in hosts && RenderedHost(mac, mgmt, bridges, raw[i], specs[i], hosts[raw[i].name])
  }

  // ---------- the renderer ----------

  /** The checks on one network. */
  method ValidateNetwork(n: RawNetwork) returns (ok: bool)
    ensures ok <==> NetworkOk(n)
  {
    if !IsName(n.name) || (n.mode != "access" && n.mode != "trunk") {
      return false;
    }
    if |n.prefix| != 1 && |n.prefix| != 2 {
      return false;
    }
    return 'a' <= n.prefix[0] <= 'z' && (|n.prefix| == 2 ==> IsNameChar(n.prefix[1]));
  }

  method RenderNetworks(bridge: RawNetwork -> string, networks: seq<RawNetwork>)
    returns (r: Result<map<string, string>>, specs: seq<NetSpec>)
    ensures r.Ok? <==> NetworksOk(networks)
    ensures r.Ok? ==> r.value == Bridges(bridge, networks) && specs == NetSpecs(networks)
  {
    specs := [];
    var prefixes := seq(|networks|, i requires 0 <= i < |networks| => networks[i].prefix);
    var unique := T.ValidateUnique(prefixes);
    forall i, j | 0 <= i < j < |networks|
      ensures prefixes[i] == prefixes[j] <==> networks[i].prefix == networks[j].prefix {}
    if networks == [] || !unique {
      return Die, specs;
    }
    var bridges: map<string, string> := map[];
    for k := 0 to |networks|
      invariant bridges == Bridges(bridge, networks[..k])
      invariant forall n :: n in networks[..k] ==> NetworkOk(n)
      invariant |specs| == k
      invariant forall i :: 0 <= i < k ==> specs[i] == NetSpec(networks[i].prefix, networks[i].innerVlan)
    {
      var n := networks[k];
      assert n in networks;
      var ok := ValidateNetwork(n);
      if !ok {
        return Die, specs;
      }
      assert networks[..k + 1][..k] == networks[..k] && networks[..k + 1] == networks[..k] + [n];
      bridges := bridges[n.name := bridge(n)];
      specs := specs + [NetSpec(n.prefix, n.innerVlan)];
    }
    assert networks[..|networks|] == networks;
    return Ok(bridges), specs;
  }

  method RenderNics(mac: Macs, mgmt: string, bridges: map<string, string>, raw: seq<RawNic>)
    returns (r: Result<(seq<T.Nic>, seq<string>)>, offsets: seq<int>)
    ensures r.Ok? <==> forall i :: 0 <= i < |raw| ==> NicOk(bridges, raw[i])
    ensures r.Ok? ==> RenderedNics(mac, mgmt, bridges, raw, r.value.0, r.value.1) && offsets == Offsets(raw)
  {
    offsets := [];
    var nics: seq<T.Nic> := [];
    var nets: seq<string> := [];
    for k := 0 to |raw|
      invariant forall i :: 0 <= i < k ==> NicOk(bridges, raw[i])
      invariant offsets == Offsets(raw[..k])
      invariant |nics| == |nets| == k
      invariant forall i :: 0 <= i < k ==> nics[i] == T.Nic(raw[i].name, raw[i].network, mac(raw[i].macOffset))
      invariant forall i :: 0 <= i < k ==> nets[i] == NetValue(nics[i].mac, BridgeFor(mgmt, bridges, raw[i]))
    {
      var nic := raw[k];
      if nic.network != "management" && nic.network !in bridges {
        return Die, offsets;
      }
      assert raw[..k + 1][..k] == raw[..k];
      offsets := offsets + [nic.macOffset];
      if !nic.management && nic.network !in bridges {
        return Die, offsets;
      }
      var bridge := if nic.management then mgmt else bridges[nic.network];
      nics := nics + [T.Nic(nic.name, nic.network, mac(nic.macOffset))];
      nets := nets + ["virtio=" + mac(nic.macOffset) + ",bridge=" + bridge + ",firewall=0"];
    }
    assert raw[..|raw|] == raw;
    return Ok((nics, nets)), offsets;
  }

  method RenderHost(mac: Macs, mgmt: string, bridges: map<string, string>, h: RawHost)
    returns (r: Result<(HostSpec, seq<T.Nic>)>, offsets: seq<int>)
    ensures r.Ok? <==> HostOk(bridges, h)
    ensures r.Ok? ==> RenderedHost(mac, mgmt, bridges, h, r.value.0, r.value.1) && offsets == Offsets(h.nics)
  {
    offsets := [];
    if !IsName(h.name) {
      return Die, offsets;
    }
    var nics;
    nics, offsets := RenderNics(mac, mgmt, bridges, h.nics);
    if nics.Die? {
      return Die, offsets;
    }
    var names := seq(|h.nics|, i requires 0 <= i < |h.nics| => h.nics[i].name);
    var unique := T.ValidateUnique(names);
    forall i, j | 0 <= i < j < |h.nics| ensures names[i] == names[j] <==> h.nics[i].name == h.nics[j].name {}
    if !unique {
      return Die, offsets;
    }
    return Ok((HostSpec(h.name, h.vmidOffset, nics.value.1, h.sized), nics.value.0)), offsets;
  }

  method RenderEach(mac: Macs, mgmt: string, bridges: map<string, string>, hosts: seq<RawHost>)
    returns (r: Result<(seq<HostSpec>, T.Hosts)>, offsets: seq<int>)
    requires KeysDistinct(hosts, [])
    ensures r.Ok? <==> AllHostsOk(bridges, hosts)
    ensures r.Ok? ==> RenderedHosts(mac, mgmt, bridges, hosts, r.value.0, r.value.1) && offsets == AllOffsets(hosts)
  {
    var specs: seq<HostSpec> := [];
    var out: T.Hosts := map[];
    offsets := [];
    for k := 0 to |hosts|
      invariant AllHostsOk(bridges, hosts[..k])
      invariant offsets == AllOffsets(hosts[..k])
      invariant RenderedHosts(mac, mgmt, bridges, hosts[..k], specs, out)
    {
      var one, more := RenderHost(mac, mgmt, bridges, hosts[k]);
      if one.Die? {
        return Die, offsets;
      }
      NextHost(bridges, hosts, k);
      AddHost(mac, mgmt, bridges, hosts[..k], specs, out, hosts[k], one.value.0, one.value.1);
      specs := specs + [one.value.0];
      out := out[hosts[k].name := one.value.1];
      offsets := offsets + more;
    }
    assert hosts[..|hosts|] == hosts;
    return Ok((specs, out)), offsets;
  }

  lemma NextHost(bridges: map<string, string>, hosts: seq<RawHost>, k: nat)
    requires k < |hosts| && KeysDistinct(hosts, []) && AllHostsOk(bridges, hosts[..k]) && HostOk(bridges, hosts[k])
    ensures AllHostsOk(bridges, hosts[..k + 1])
    ensures hosts[..k + 1] == hosts[..k] + [hosts[k]]
    ensures AllOffsets(hosts[..k + 1]) == AllOffsets(hosts[..k]) + Offsets(hosts[k].nics)
    ensures forall i :: 0 <= i < k ==> hosts[..k][i].name != hosts[k].name
  {
    assert hosts[..k + 1][..k] == hosts[..k];
  }

  method RenderHosts(mac: Macs, mgmt: string, bridges: map<string, string>, hosts: seq<RawHost>)
    returns (r: Result<(seq<HostSpec>, T.Hosts)>)
    requires KeysDistinct(hosts, [])
    ensures r.Ok? <==> HostsOk(bridges, hosts)
    ensures r.Ok? ==> RenderedHosts(mac, mgmt, bridges, hosts, r.value.0, r.value.1)
  {
    var vmidOffsets := seq(|hosts|, i requires 0 <= i < |hosts| => hosts[i].vmidOffset);
    var unique := T.ValidateUnique(vmidOffsets);
    forall i, j | 0 <= i < j < |hosts|
      ensures vmidOffsets[i] == vmidOffsets[j] <==> hosts[i].vmidOffset == hosts[j].vmidOffset {}
    if hosts == [] || !unique {
      return Die;
    }
    var each, offsets := RenderEach(mac, mgmt, bridges, hosts);
    if each.Die? {
      return Die;
    }
    unique := T.ValidateUnique(offsets);
    return if unique then each else Die;
  }

  lemma AddHost(mac: Macs, mgmt: string, bridges: map<string, string>, done: seq<RawHost>, specs: seq<HostSpec>,
                out: T.Hosts, h: RawHost, spec: HostSpec, nics: seq<T.Nic>)
    requires RenderedHosts(mac, mgmt, bridges, done, specs, out) && RenderedHost(mac, mgmt, bridges, h, spec, nics)
    requires forall i :: 0 <= i < |done| ==> done[i].name != h.name
    ensures RenderedHosts(mac, mgmt, bridges, done + [h], specs + [spec], out[h.name := nics])
  {
    var all, after := done + [h], out[h.name := nics];
    forall x | x in after ensures exists i :: 0 <= i < |all| && all[i].name == x {
      if x == h.name {
        assert all[|done|].name == x;
      } else {
        var i :| 0 <= i < |done| && done[i].name == x;
        assert all[i].name == x;
      }
    }
  }

  /** The declarations the renderer accepts. */
  predicate Accepted(s: Settings, networks: seq<RawNetwork>, hosts: seq<RawHost>) {
    s.vlanCount > 0 && NetworksOk(networks) && HostsOk(Bridges(BridgesOf(s), networks), hosts)
  }

  /** What the renderer makes of them. */
  predicate RendersTo(s: Settings, networks: seq<RawNetwork>, hosts: seq<RawHost>, out: Output) {
    && s.vlanCount > 0
    && out.topo == Topo(s.run, s.qinq, out.topo.hosts, NetSpecs(networks),
                        ServiceVlan(s.run, s.vlanBase, s.vlanCount))
    && RenderedHosts(MacsOf(s.run), s.mgmtBridge, Bridges(BridgesOf(s), networks), hosts, out.topo.hosts, out.hosts)
  }

  /** The renderer accepts exactly the valid declarations, and its output is what create, destroy and the segment passes
      rely on. */
  method RenderTopo(s: Settings, networks: seq<RawNetwork>, hosts: seq<RawHost>) returns (r: Result<Output>)
    requires KeysDistinct(hosts, networks)
    ensures r.Ok? <==> Accepted(s, networks, hosts)
    ensures r.Ok? ==> RendersTo(s, networks, hosts, r.value)
    ensures r.Ok? ==> r.value.topo.Rendered() && forall h :: h in r.value.hosts ==> IsName(h)
  {
    if s.vlanCount <= 0 {
      return Die;
    }
    var nets, netSpecs := RenderNetworks(BridgesOf(s), networks);
    if nets.Die? {
      return Die;
    }
    var rendered := RenderHosts(MacsOf(s.run), s.mgmtBridge, nets.value, hosts);
    if rendered.Die? {
      return Die;
    }
    var tag := ServiceVlan(s.run, s.vlanBase, s.vlanCount);
    var out := Output(Topo(s.run, s.qinq, rendered.value.0, netSpecs, tag), rendered.value.1);
    TopoRendered(s, networks, hosts, out);
    return Ok(out);
  }

  lemma TopoRendered(s: Settings, networks: seq<RawNetwork>, raw: seq<RawHost>, out: Output)
    requires KeysDistinct(raw, networks) && Accepted(s, networks, raw) && RendersTo(s, networks, raw, out)
    ensures out.topo.Rendered()
    ensures forall h :: h in out.hosts ==> IsName(h)
  {
    var bridges := Bridges(BridgesOf(s), networks);
    forall i | 0 <= i < |raw|
      ensures out.topo.hosts[i].name == raw[i].name && out.topo.hosts[i].offset == raw[i].vmidOffset
      ensures IsName(raw[i].name)
    {
      assert RenderedHost(MacsOf(s.run), s.mgmtBridge, bridges, raw[i], out.topo.hosts[i], out.hosts[raw[i].name]);
      assert HostOk(bridges, raw[i]);
    }
    forall i | 0 <= i < |networks|
      ensures out.topo.networks[i].prefix == networks[i].prefix && IsPrefix(networks[i].prefix)
    {
      assert networks[i] in networks && NetworkOk(networks[i]);
    }
  }

  /** The run's numbers and every host's and network's own, as the lifecycle scripts find them in the output. */
  lemma TopoExactly(s: Settings, networks: seq<RawNetwork>, raw: seq<RawHost>, out: Output)
    requires RendersTo(s, networks, raw, out)
    ensures var t := out.topo;
            && t.run == s.run && t.qinq == s.qinq && t.serviceVlan == s.vlanBase + s.run % s.vlanCount
            && |t.networks| == |networks| && |t.hosts| == |raw|
            && (forall i :: 0 <= i < |networks| ==>
                  t.networks[i].prefix == networks[i].prefix && t.networks[i].innerVlan == networks[i].innerVlan)
            && forall i :: 0 <= i < |raw| ==>
                 && t.hosts[i].name == raw[i].name && t.hosts[i].sized == raw[i].sized
                 && |t.hosts[i].nets| == |raw[i].nics|
                 && t.VmidOf(t.hosts[i]) == 200000 + s.run % 50000 + raw[i].vmidOffset
  {
    forall i | 0 <= i < |raw|
      ensures out.topo.hosts[i].name == raw[i].name && out.topo.hosts[i].sized == raw[i].sized
      ensures |out.topo.hosts[i].nets| == |raw[i].nics| && out.topo.hosts[i].offset == raw[i].vmidOffset
    {
      assert RenderedHost(MacsOf(s.run), s.mgmtBridge, Bridges(BridgesOf(s), networks), raw[i], out.topo.hosts[i],
                          out.hosts[raw[i].name]);
    }
  }

  // ---------- the bridge of every NIC ----------

  /** The bridge a network is to have: under QinQ its prefix and the last six digits of the run ID, otherwise the test
      bridge with a tag counted from 3000. */
  predicate IsBridgeOf(s: Settings, n: RawNetwork, bridge: string) {
    if s.qinq then
      && |bridge| == |n.prefix| + 6 && n.prefix <= bridge
      && (forall c :: c in bridge[|n.prefix|..] ==> IsDigit(c))
      && Value(bridge[|n.prefix|..], Decimal) == s.run % 1000000
    else
      && (n.legacyOffset.Some? ==>
            bridge == s.testBridge + ",tag=" + DecInt(3000 + s.run % 500 + n.legacyOffset.value))
      && (n.legacyOffset.None? ==> bridge == s.testBridge + ",tag=" + DecInt(3000 + s.run % 500 + n.innerVlan))
  }

  lemma BridgeExactly(s: Settings, n: RawNetwork)
    ensures IsBridgeOf(s, n, BridgeOf(s, n))
  {
    if s.qinq {
      SuffixFacts(s.run);
      assert BridgeOf(s, n)[|n.prefix|..] == RunSuffix(s.run);
    }
  }

  /** NIC j of host i is set to its own MAC and the given bridge. */
  predicate IsSetTo(raw: seq<RawHost>, out: Output, i: nat, j: nat, bridge: string) {
    && i < |raw| == |out.topo.hosts| && raw[i].name in out.hosts
    && j < |raw[i].nics| == |out.topo.hosts[i].nets| == |out.hosts[raw[i].name]|
    && out.topo.hosts[i].nets[j] ==
       "virtio=" + out.hosts[raw[i].name][j].mac + ",bridge=" + bridge + ",firewall=0"
  }

  /** A NIC is described under its declared name and network with the MAC of its own offset. It is set to the management
      bridge if it is flagged as management, and otherwise to the bridge of the one network it is declared on. */
  lemma NicExactly(s: Settings, networks: seq<RawNetwork>, raw: seq<RawHost>, out: Output, i: nat, j: nat)
    returns (bridge: string)
    requires KeysDistinct(raw, networks) && Accepted(s, networks, raw) && RendersTo(s, networks, raw, out)
    requires i < |raw| && j < |raw[i].nics|
    ensures IsSetTo(raw, out, i, j, bridge)
    ensures var nic, rendered := raw[i].nics[j], out.hosts[raw[i].name][j];
            && rendered.name == nic.name && rendered.network == nic.network
            && rendered.mac == MacFor(s.run, nic.macOffset)
            && (nic.management ==> bridge == s.mgmtBridge)
            && (!nic.management ==>
                  exists n :: n in networks && n.name == nic.network && bridge == BridgeOf(s, n)
                              && IsBridgeOf(s, n, bridge))
  {
    var bridges, nic := Bridges(BridgesOf(s), networks), raw[i].nics[j];
    assert RenderedHost(MacsOf(s.run), s.mgmtBridge, bridges, raw[i], out.topo.hosts[i], out.hosts[raw[i].name]);
    assert HostOk(bridges, raw[i]) && nic in raw[i].nics;
    bridge := BridgeFor(s.mgmtBridge, bridges, nic);
    assert out.topo.hosts[i].nets[j] == NetValue(out.hosts[raw[i].name][j].mac, bridge);
    if !nic.management {
      BridgesExactly(BridgesOf(s), networks);
      var n :| n in networks && n.name == nic.network;
      BridgeExactly(s, n);
    }
  }

  /** Two dataplane NICs of a QinQ run share a bridge if and only if they are declared on the same network. */
  lemma SameBridgeExactly(s: Settings, networks: seq<RawNetwork>, raw: seq<RawHost>, out: Output,
                          i: nat, j: nat, i': nat, j': nat) returns (bridge: string, bridge': string)
    requires KeysDistinct(raw, networks) && Accepted(s, networks, raw) && RendersTo(s, networks, raw, out) && s.qinq
    requires i < |raw| && j < |raw[i].nics| && i' < |raw| && j' < |raw[i'].nics|
    requires !raw[i].nics[j].management && !raw[i'].nics[j'].management
    ensures IsSetTo(raw, out, i, j, bridge) && IsSetTo(raw, out, i', j', bridge')
    ensures bridge == bridge' <==> raw[i].nics[j].network == raw[i'].nics[j'].network
  {
    bridge := NicExactly(s, networks, raw, out, i, j);
    bridge' := NicExactly(s, networks, raw, out, i', j');
    var n :| n in networks && n.name == raw[i].nics[j].network && bridge == BridgeOf(s, n);
    var n' :| n' in networks && n'.name == raw[i'].nics[j'].network && bridge' == BridgeOf(s, n');
    NetworksDiffer(networks, n, n');
    VnetRecovers(n.prefix, s.run, n'.prefix, s.run);
  }

  lemma NetworksDiffer(networks: seq<RawNetwork>, n: RawNetwork, n': RawNetwork)
    requires KeysDistinct([], networks) && NetworksOk(networks) && n in networks && n' in networks
    ensures n.name == n'.name <==> n.prefix == n'.prefix
  {
  }

  // ---------- distinctness ----------

  lemma {:induction false} OffsetIndex(hosts: seq<RawHost>, i: nat, j: nat) returns (at: nat)
    requires i < |hosts| && j < |hosts[i].nics|
    ensures at == |AllOffsets(hosts[..i])| + j && at < |AllOffsets(hosts)|
    ensures AllOffsets(hosts)[at] == hosts[i].nics[j].macOffset
    decreases |hosts|
  {
    var rest := hosts[..|hosts| - 1];
    if i < |rest| {
      at := OffsetIndex(rest, i, j);
      assert rest[..i] == hosts[..i];
    } else {
      at := |AllOffsets(rest)| + j;
      OffsetsAt(hosts[i].nics, j);
      assert rest == hosts[..i];
    }
  }

  lemma {:induction false} OffsetsAt(nics: seq<RawNic>, j: nat)
    requires j < |nics|
    ensures |Offsets(nics)| == |nics| && Offsets(nics)[j] == nics[j].macOffset
  {
    if |nics| > 1 {
      OffsetsAt(nics[..|nics| - 1], if j < |nics| - 1 then j else 0);
    }
  }

  lemma {:induction false} OffsetsBefore(hosts: seq<RawHost>, i: nat, i': nat)
    requires i < i' <= |hosts|
    ensures |AllOffsets(hosts[..i])| + |hosts[i].nics| <= |AllOffsets(hosts[..i'])|
    decreases i'
  {
    var p := hosts[..i'];
    assert p[..i' - 1] == hosts[..i' - 1];
    if i == i' - 1 {
      if hosts[i].nics != [] { OffsetsAt(hosts[i].nics, 0); }
    } else {
      OffsetsBefore(hosts, i, i' - 1);
    }
  }

  lemma OffsetsDiffer(hosts: seq<RawHost>, i: nat, j: nat, i': nat, j': nat)
    requires Distinct(AllOffsets(hosts))
    requires i < |hosts| && j < |hosts[i].nics| && i' < |hosts| && j' < |hosts[i'].nics| && (i, j) != (i', j')
    ensures hosts[i].nics[j].macOffset != hosts[i'].nics[j'].macOffset
  {
    var a := OffsetIndex(hosts, i, j);
    var b := OffsetIndex(hosts, i', j');
    if i < i' { OffsetsBefore(hosts, i, i'); } else if i' < i { OffsetsBefore(hosts, i', i); }
    assert a != b;
  }

  lemma {:induction false} OffsetPlace(hosts: seq<RawHost>, at: nat) returns (i: nat, j: nat)
    requires at < |AllOffsets(hosts)|
    ensures i < |hosts| && j < |hosts[i].nics| && at == |AllOffsets(hosts[..i])| + j
    ensures AllOffsets(hosts)[at] == hosts[i].nics[j].macOffset
    decreases |hosts|
  {
    var last, rest := |hosts| - 1, hosts[..|hosts| - 1];
    if at < |AllOffsets(rest)| {
      i, j := OffsetPlace(rest, at);
      assert rest[..i] == hosts[..i];
    } else {
      i, j := last, at - |AllOffsets(rest)|;
      assert hosts[..last] == rest;
      OffsetCount(hosts[last].nics);
      OffsetsAt(hosts[last].nics, j);
    }
  }

  lemma {:induction false} OffsetCount(nics: seq<RawNic>)
    ensures |Offsets(nics)| == |nics|
  {
    if nics != [] { OffsetCount(nics[..|nics| - 1]); }
  }

  /** Any two NICs, of one host or of two, have different offsets. */
  predicate OffsetsDistinct(hosts: seq<RawHost>) {
    forall i, j, i', j' | 0 <= i < |hosts| && 0 <= j < |hosts[i].nics| && 0 <= i' < |hosts|
                          && 0 <= j' < |hosts[i'].nics| && (i, j) != (i', j') ::
      hosts[i].nics[j].macOffset != hosts[i'].nics[j'].macOffset
  }

  /** The one list of MAC offsets is free of repeats exactly when all NICs' offsets differ. */
  lemma OffsetsExactly(hosts: seq<RawHost>)
    ensures Distinct(AllOffsets(hosts)) <==> OffsetsDistinct(hosts)
  {
    if Distinct(AllOffsets(hosts)) {
      forall i, j, i', j' | 0 <= i < |hosts| && 0 <= j < |hosts[i].nics| && 0 <= i' < |hosts|
                            && 0 <= j' < |hosts[i'].nics| && (i, j) != (i', j')
        ensures hosts[i].nics[j].macOffset != hosts[i'].nics[j'].macOffset
      {
        OffsetsDiffer(hosts, i, j, i', j');
      }
    }
    if OffsetsDistinct(hosts) {
      forall a, b | 0 <= a < b < |AllOffsets(hosts)| ensures AllOffsets(hosts)[a] != AllOffsets(hosts)[b] {
        var i, j := OffsetPlace(hosts, a);
        var i', j' := OffsetPlace(hosts, b);
      }
    }
  }

  /** A NIC says which network it is on: a declared one, or, flagged as management, "management". */
  predicate Placed(networks: seq<RawNetwork>, nic: RawNic) {
    (exists n :: n in networks && n.name == nic.network) || (nic.management && nic.network == "management")
  }

  predicate IsHost(networks: seq<RawNetwork>, h: RawHost) {
    && IsName(h.name) && (forall nic :: nic in h.nics ==> Placed(networks, nic))
    && forall i, j :: 0 <= i < j < |h.nics| ==> h.nics[i].name != h.nics[j].name
  }

  predicate IsNetwork(n: RawNetwork) {
    && IsName(n.name) && n.mode in {"access", "trunk"} && (|n.prefix| == 1 || |n.prefix| == 2)
    && 'a' <= n.prefix[0] <= 'z'
    && (|n.prefix| == 2 ==> 'a' <= n.prefix[1] <= 'z' || '0' <= n.prefix[1] <= '9')
  }

  /** What the renderer accepts, declaration by declaration: a range of outer tags, some networks and some hosts, each
      well formed, and no two networks with one prefix, no two hosts with one VMID offset and no two NICs with one MAC
      offset. */
  lemma AcceptedExactly(s: Settings, networks: seq<RawNetwork>, hosts: seq<RawHost>)
    requires KeysDistinct(hosts, networks)
    ensures Accepted(s, networks, hosts) <==>
            && s.vlanCount >= 1 && networks != [] && hosts != []
            && (forall n :: n in networks ==> IsNetwork(n)) && (forall h :: h in hosts ==> IsHost(networks, h))
            && (forall i, j :: 0 <= i < j < |networks| ==> networks[i].prefix != networks[j].prefix)
            && (forall i, j :: 0 <= i < j < |hosts| ==> hosts[i].vmidOffset != hosts[j].vmidOffset)
            && OffsetsDistinct(hosts)
  {
    var bridges := Bridges(BridgesOf(s), networks);
    BridgesExactly(BridgesOf(s), networks);
    OffsetsExactly(hosts);
    HostsExactly(bridges, networks, hosts);
    NetworksExactly(networks);
  }

  lemma HostsExactly(bridges: map<string, string>, networks: seq<RawNetwork>, hosts: seq<RawHost>)
    requires forall k :: k in bridges <==> exists n :: n in networks && n.name == k
    ensures AllHostsOk(bridges, hosts) <==> forall h :: h in hosts ==> IsHost(networks, h)
  {
    forall nic ensures NicOk(bridges, nic) <==> Placed(networks, nic) {}
    forall h ensures HostOk(bridges, h) <==> IsHost(networks, h) {}
  }

  lemma NetworksExactly(networks: seq<RawNetwork>)
    ensures (forall n :: n in networks ==> NetworkOk(n)) <==> forall n :: n in networks ==> IsNetwork(n)
  {
    forall n ensures NetworkOk(n) <==> IsNetwork(n) {}
  }

  predicate IsNic(out: Output, h: string, j: int) { h in out.hosts && 0 <= j < |out.hosts[h]| }

  /** No two NICs of a rendered run share a MAC, whichever hosts they are on. */
  lemma MacsDistinct(s: Settings, networks: seq<RawNetwork>, raw: seq<RawHost>, out: Output,
                     h: string, j: nat, h': string, j': nat)
    requires KeysDistinct(raw, networks) && Accepted(s, networks, raw) && RendersTo(s, networks, raw, out)
    requires IsNic(out, h, j) && IsNic(out, h', j') && (h, j) != (h', j')
    ensures out.hosts[h][j].mac != out.hosts[h'][j'].mac
  {
    var i :| 0 <= i < |raw| && raw[i].name == h;
    var i' :| 0 <= i' < |raw| && raw[i'].name == h';
    var bridges := Bridges(BridgesOf(s), networks);
    assert RenderedHost(MacsOf(s.run), s.mgmtBridge, bridges, raw[i], out.topo.hosts[i], out.hosts[h]);
    assert RenderedHost(MacsOf(s.run), s.mgmtBridge, bridges, raw[i'], out.topo.hosts[i'], out.hosts[h']);
    OffsetsDiffer(raw, i, j, i', j');
    MacRecovers(s.run, raw[i].nics[j].macOffset, s.run, raw[i'].nics[j'].macOffset);
  }

  /** No two hosts of a rendered run share a VMID or a VM name and no two networks a VNet, and every VNet passes the
      destroy guard. */
  lemma NamesDistinct(t: Topo)
    requires t.Rendered()
    ensures forall a, b :: 0 <= a < b < |t.hosts| ==> t.VmidOf(t.hosts[a]) != t.VmidOf(t.hosts[b])
    ensures forall a, b :: 0 <= a < b < |t.hosts| ==> t.NameOf(t.hosts[a]) != t.NameOf(t.hosts[b])
    ensures forall a, b :: 0 <= a < b < |t.networks| ==>
              Vnet(t.networks[a].prefix, t.run) != Vnet(t.networks[b].prefix, t.run)
    ensures forall n :: n in t.networks ==> IsGeneratedSdnName(Vnet(n.prefix, t.run)) && |Vnet(n.prefix, t.run)| <= 8
  {
    forall a, b | 0 <= a < b < |t.hosts| ensures t.NameOf(t.hosts[a]) != t.NameOf(t.hosts[b]) {
      VmNameRecovers(t.run, t.hosts[a].name, t.run, t.hosts[b].name);
    }
    forall a, b | 0 <= a < b < |t.networks|
      ensures Vnet(t.networks[a].prefix, t.run) != Vnet(t.networks[b].prefix, t.run)
    {
      VnetRecovers(t.networks[a].prefix, t.run, t.networks[b].prefix, t.run);
    }
    forall n | n in t.networks ensures IsGeneratedSdnName(Vnet(n.prefix, t.run)) && |Vnet(n.prefix, t.run)| <= 8 {
      VnetPassesGuard(n.prefix, t.run);
    }
  }

  /** Everything the renderer generates for a run is distinct: MACs across all hosts, VMIDs, VM names, VNets. */
  lemma EverythingDistinct(s: Settings, networks: seq<RawNetwork>, raw: seq<RawHost>, out: Output)
    requires KeysDistinct(raw, networks) && Accepted(s, networks, raw) && RendersTo(s, networks, raw, out)
    ensures forall h, j, h', j' :: IsNic(out, h, j) && IsNic(out, h', j') && (h, j) != (h', j') ==>
              out.hosts[h][j].mac != out.hosts[h'][j'].mac
    ensures var t := out.topo;
            && t.run == s.run && |t.networks| == |networks|
            && (forall a, b :: 0 <= a < b < |t.hosts| ==> t.VmidOf(t.hosts[a]) != t.VmidOf(t.hosts[b]))
            && (forall a, b :: 0 <= a < b < |t.hosts| ==> t.NameOf(t.hosts[a]) != t.NameOf(t.hosts[b]))
            && (forall a, b :: 0 <= a < b < |networks| ==>
                  Vnet(networks[a].prefix, s.run) != Vnet(networks[b].prefix, s.run))
            && (forall n :: n in networks ==> IsGeneratedSdnName(Vnet(n.prefix, s.run)) && |Vnet(n.prefix, s.run)| <= 8)
  {
    TopoRendered(s, networks, raw, out);
    NamesDistinct(out.topo);
    forall h, j, h', j' | IsNic(out, h, j) && IsNic(out, h', j') && (h, j) != (h', j')
      ensures out.hosts[h][j].mac != out.hosts[h'][j'].mac
    {
      MacsDistinct(s, networks, raw, out, h, j, h', j');
    }
    forall n | n in networks ensures IsGeneratedSdnName(Vnet(n.prefix, s.run)) && |Vnet(n.prefix, s.run)| <= 8 {
      var i :| 0 <= i < |networks| && networks[i] == n;
      assert out.topo.networks[i] in out.topo.networks;
    }
    forall a, b | 0 <= a < b < |networks| ensures Vnet(networks[a].prefix, s.run) != Vnet(networks[b].prefix, s.run) {
      assert out.topo.networks[a].prefix == networks[a].prefix && out.topo.networks[b].prefix == networks[b].prefix;
    }
  }
}
