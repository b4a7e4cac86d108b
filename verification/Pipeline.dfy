/** The whole of rendering in its order: networks and hosts, segments checked and lowered, control plane, faults
    (scripts/render-topology.py); and that its output is what the other parts rely on. */
module Pipeline {
  import opened Text
  import opened Identifiers
  import T = Topology
  import opened Cluster
  import opened Render
  import C = ControlPlane
  import F = FaultChecks
  import S = FaultState
  import opened FaultSetup
  import D = Deployment
  import P = Ports

  datatype Input = Input(settings: Settings, networks: seq<RawNetwork>, hosts: seq<RawHost>, declared: T.Declared,
                         control: C.RawControl, dpdk: bool, faults: seq<F.RawFault>)

  datatype Rendered = Rendered(out: Output, segs: seq<T.Segment>, plan: C.Plan, plane: C.Resolved,
                               faults: seq<F.RawFault>)

  /** Rendering for DPDK replaces the requested control plane. */
  function Requested(x: Input): C.RawControl {
    if x.dpdk then C.Control(Some("static"), None, None, []) else x.control
  }

  /** What the segments must allow for the rest of rendering to get through. */
  predicate RestOk(x: Input, segs: seq<T.Segment>) {
    && C.ValidateControlPlane(segs, Requested(x)).Ok?
    && (C.ValidateControlPlane(segs, Requested(x)).value.Evpn? ==> C.Agree(C.VtepSet(segs)))
    && F.FaultsOk(segs, C.ValidateControlPlane(segs, Requested(x)).value.Evpn?, x.faults)
  }

  ghost predicate HostsFrom(x: Input, out: Output) { RendersTo(x.settings, x.networks, x.hosts, out) }

  /** Rendering fails: the networks or hosts are not accepted, or what they render to does not support the segments, or
      the lowered segments do not allow the rest. */
  ghost predicate Unacceptable(x: Input) {
    || !Accepted(x.settings, x.networks, x.hosts)
    || exists out :: HostsFrom(x, out) && Unsupported(x, out)
  }

  ghost predicate Unsupported(x: Input, out: Output) {
    || !T.ValidSegments(out.hosts, x.declared)
    || exists segs :: T.Lowered(out.hosts, x.declared, segs) && !RestOk(x, segs)
  }

  /** Everything the other parts assume of a rendered topology. */
  ghost predicate Sound(x: Input, r: Rendered) {
    && Accepted(x.settings, x.networks, x.hosts) && HostsFrom(x, r.out) && r.out.topo.Rendered()
    && F.HostsNamed(r.out.hosts) && NoZeroMac(r.out.hosts)
    && T.ValidSegments(r.out.hosts, x.declared) && T.Lowered(r.out.hosts, x.declared, r.segs) && RestOk(x, r.segs)
    && C.ValidateControlPlane(r.segs, Requested(x)) == Ok(r.plan)
    && (r.plan.Evpn? ==> !x.dpdk && PlaneResolved(r))
    && r.faults == x.faults && F.FaultsOk(r.segs, r.plan.Evpn?, r.faults)
  }

  ghost predicate NoZeroMac(hosts: T.Hosts) {
    forall h, n :: T.NicOf(hosts, h, n).Some? ==> T.NicOf(hosts, h, n).value.mac != S.ZERO_MAC
  }

  ghost predicate PlaneResolved(r: Rendered)
    requires r.plan.Evpn?
  {
    var pl := C.PlaneOf(r.plan, C.HostsOf(C.VtepSet(r.segs)));
    pl.Valid() && exists table :: C.IsTable(table, C.VtepSet(r.segs)) && C.IsResolved(pl, table, r.plane)
  }

  lemma NicsNotZero(x: Input, out: Output)
    requires HostsFrom(x, out)
    ensures NoZeroMac(out.hosts)
  {
    forall h, n | T.NicOf(out.hosts, h, n).Some? ensures T.NicOf(out.hosts, h, n).value.mac != S.ZERO_MAC {
      OneNicNotZero(x, out, h, T.NicOf(out.hosts, h, n).value);
    }
  }

  lemma OneNicNotZero(x: Input, out: Output, h: string, nic: T.Nic)
    requires HostsFrom(x, out) && h in out.hosts && nic in out.hosts[h]
    ensures nic.mac != S.ZERO_MAC
  {
    var i :| 0 <= i < |x.hosts| && x.hosts[i].name == h;
    var j :| 0 <= j < |out.hosts[h]| && out.hosts[h][j] == nic;
    var bridges := Bridges(BridgesOf(x.settings), x.networks);
    assert RenderedHost(MacsOf(x.settings.run), x.settings.mgmtBridge, bridges, x.hosts[i], out.topo.hosts[i],
                        out.hosts[h]);
    S.GeneratedMacNotZero(x.settings.run, x.hosts[i].nics[j].macOffset);
  }

  /** The control plane, requested and resolved, and the faults, on lowered segments. */
  method RenderRest(x: Input, out: Output, segs: seq<T.Segment>) returns (r: Result<Rendered>)
    ensures r.Ok? <==> RestOk(x, segs)
    ensures r.Ok? ==> r.value.out == out && r.value.segs == segs && r.value.faults == x.faults
    ensures r.Ok? ==> C.ValidateControlPlane(segs, Requested(x)) == Ok(r.value.plan)
    ensures r.Ok? ==> (r.value.plan.Evpn? ==> !x.dpdk && PlaneResolved(r.value))
  {
    var plan := C.ValidateControlPlane(segs, Requested(x));
    if plan.Die? {
      return Die;
    }
    var plane: C.Resolved := map[];
    if plan.value.Evpn? {
      C.AcceptedPlanIsValid(segs, Requested(x));
      var resolved, table := C.ResolveControlPlane(plan.value, segs);
      if resolved.Die? {
        return Die;
      }
      plane := resolved.value;
      assert C.IsTable(table, C.VtepSet(segs));
    }
    var faults := F.ValidateFaults(segs, plan.value.Evpn?, x.faults);
    if faults.Die? {
      return Die;
    }
    return Ok(Rendered(out, segs, plan.value, plane, faults.value));
  }

  /** Rendering accepts exactly what its checks allow: once networks, hosts, segments, the requested control plane and
      the faults are accepted and underlays agree, no lookup fails; and its output is sound. */
  method RenderRun(x: Input) returns (r: Result<Rendered>)
    requires KeysDistinct(x.hosts, x.networks)
    ensures r.Ok? ==> Sound(x, r.value)
    ensures r.Die? ==> Unacceptable(x)
  {
    var out := RenderTopo(x.settings, x.networks, x.hosts);
    if out.Die? {
      return Die;
    }
    NicsNotZero(x, out.value);
    var segs := T.CheckAndLower(out.value.hosts, x.declared);
    if segs.Die? {
      assert HostsFrom(x, out.value) && Unsupported(x, out.value);
      return Die;
    }
    r := RenderRest(x, out.value, segs.value);
    if r.Die? {
      assert T.Lowered(out.value.hosts, x.declared, segs.value);
      assert HostsFrom(x, out.value) && Unsupported(x, out.value);
    }
  }

  // ---------- the two verdicts exclude each other ----------

  lemma SameHosts(x: Input, out: Output, other: Output)
    requires HostsFrom(x, out) && HostsFrom(x, other)
    ensures out.hosts == other.hosts
  {
    var bridges, mac, mgmt := Bridges(BridgesOf(x.settings), x.networks), MacsOf(x.settings.run), x.settings.mgmtBridge;
    forall h ensures h in out.hosts <==> h in other.hosts
             ensures h in out.hosts && h in other.hosts ==> out.hosts[h] == other.hosts[h] {
      if h in out.hosts || h in other.hosts {
        var i :| 0 <= i < |x.hosts| && x.hosts[i].name == h;
        assert RenderedHost(mac, mgmt, bridges, x.hosts[i], out.topo.hosts[i], out.hosts[h]);
        assert RenderedHost(mac, mgmt, bridges, x.hosts[i], other.topo.hosts[i], other.hosts[h]);
      }
    }
  }

  lemma SameVtep(hosts: T.Hosts, raw: T.RawVtep, a: T.Vtep, b: T.Vtep)
    requires T.LoweredVtep(hosts, raw, a) && T.LoweredVtep(hosts, raw, b)
    ensures a == b
  {
    forall i | 0 <= i < |a.localNics| ensures a.localNics[i] == b.localNics[i] {
      assert T.NicOf(hosts, raw.host, raw.localNics[i]) == Some(a.localNics[i]);
    }
  }

  lemma SameSegment(hosts: T.Hosts, name: string, raw: T.RawSegment, a: T.Segment, b: T.Segment)
    requires T.LoweredSegment(hosts, name, raw, a) && T.LoweredSegment(hosts, name, raw, b)
    ensures a == b
  {
    forall i | 0 <= i < |raw.vteps| ensures a.vteps[i] == b.vteps[i] {
      SameVtep(hosts, raw.vteps[i], a.vteps[i], b.vteps[i]);
    }
    forall i | 0 <= i < |raw.members| ensures a.members[i] == b.members[i] {
      assert T.LoweredMember(hosts, raw, raw.members[i], a.members[i]);
      assert T.LoweredMember(hosts, raw, raw.members[i], b.members[i]);
    }
    assert a.vteps == b.vteps && a.members == b.members;
  }

  /** Lowering is a function of the declarations. */
  lemma SameSegments(hosts: T.Hosts, raw: T.Declared, a: seq<T.Segment>, b: seq<T.Segment>)
    requires T.Lowered(hosts, raw, a) && T.Lowered(hosts, raw, b)
    ensures a == b
  {
    forall i | 0 <= i < |raw| ensures a[i] == b[i] {
      SameSegment(hosts, raw[i].0, raw[i].1, a[i], b[i]);
    }
  }

  /** No input is both unacceptable and soundly rendered, so RenderRun succeeds on exactly the acceptable inputs. */
  lemma SoundIsAcceptable(x: Input, r: Rendered)
    requires Sound(x, r)
    ensures !Unacceptable(x)
  {
    forall out | HostsFrom(x, out) ensures !Unsupported(x, out) {
      SameHosts(x, out, r.out);
      forall segs | T.Lowered(out.hosts, x.declared, segs) ensures RestOk(x, segs) {
        SameSegments(out.hosts, x.declared, segs, r.segs);
      }
    }
  }

  /** And then the later lookups succeed too: every fault survives reference resolution, both its endpoints are found,
      and every host's VTEPs have one name per NIC for the port derivations. */
  lemma SoundLookups(x: Input, r: Rendered, f: F.RawFault, lookup: string -> string, h: string)
    requires Sound(x, r) && f in r.faults
    ensures F.Read(f).Some?
    ensures var fault := F.Read(f).value;
            F.ResolveFault(lookup, fault) == fault && F.FaultPair(r.segs, fault).Ok?
    ensures P.AllNamed(P.NicNames(r.out.hosts, h), r.segs, h) && forall s :: s in r.segs ==> P.OneVtepPerHost(s.vteps)
  {
    assert F.Acceptable(r.segs, r.plan.Evpn?, f);
    F.AcceptedFaultResolves(r.out.hosts, x.declared, r.segs, r.plan.Evpn?, F.Read(f).value, lookup);
    P.LoweredNamed(r.out.hosts, x.declared, r.segs, h);
  }

  /** A soundly rendered topology is what deployment starts from, given only that the interfaces the hosts report exist
      and are no VLAN interfaces; and its faults are accepted there. */
  lemma SoundPrepared(x: Input, r: Rendered, env: Env, before: S.World, site: Site)
    requires Sound(x, r) && env.hosts == r.out.hosts && env.segs == r.segs
    requires PlainIfaces(site.ifaces) && D.IfacesExist(site.ifaces, before.links)
    ensures D.Prepared(env, x.declared, before, site)
    ensures forall f :: f in r.faults ==> F.Read(f).Some? && F.FaultOk(env.segs, r.plan.Evpn?, F.Read(f).value)
  {
    forall f | f in r.faults ensures F.Read(f).Some? && F.FaultOk(env.segs, r.plan.Evpn?, F.Read(f).value) {
      assert F.Acceptable(r.segs, r.plan.Evpn?, f);
    }
  }
}
