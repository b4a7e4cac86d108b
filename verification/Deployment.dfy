/** What a deployed testbed looks like, and exactly which faults injected into it are undone
    (ansible/site.yml, ansible/roles/vxlan-test/tasks/main.yml, tests/test_fault_injection.py). */
module Deployment {
  import opened Text
  import opened Topology
  import opened FaultChecks
  import opened FaultState
  import opened FaultSetup
  import opened FaultTargets
  import P = Ports
  import C = ControlPlane
  import F = FrrConfig
  import N = Propagation
  import R = ReflectorPlane

  // ---------- what the role leaves alone ----------

  predicate UpAt(links: map<Dev, Link>, d: Dev) { d in links && links[d].up }

  /** Links are neither removed nor brought down nor given another MTU, and on other hosts than h not touched at all. */
  predicate OnlyOn(a: map<Dev, Link>, b: map<Dev, Link>, h: string) {
    && a.Keys <= b.Keys && (forall d :: d in a && UpAt(a, d) ==> UpAt(b, d))
    && (forall d :: d in a && d in b ==> b[d].mtu == a[d].mtu)
    && forall d :: d in b && d.0 != h ==> d in a && b[d] == a[d]
  }

  /** Nothing that happens to plain interfaces reaches a VLAN interface. */
  predicate SubIfsSame(a: map<Dev, Link>, b: map<Dev, Link>) {
    a.Keys == b.Keys && forall d :: d in a && '.' in d.1 ==> b[d] == a[d]
  }

  lemma {:induction false} MembersFrame(links: map<Dev, Link>, ifaces: Ifaces, h: string, ms: seq<Member>)
    requires ConfigureMembers(links, ifaces, h, ms).Ok?
    ensures OnlyOn(links, ConfigureMembers(links, ifaces, h, ms).value, h)
    decreases ms
  {
    if ms != [] {
      var next := if ms[0].host == h then ConfigureMember(links, ifaces, ms[0]).value else links;
      assert OnlyOn(links, next, h);
      MembersFrame(next, ifaces, h, ms[1..]);
    }
  }

  lemma {:induction false} RaiseFrame(links: map<Dev, Link>, ifaces: Ifaces, h: string, nics: seq<Nic>)
    requires RaiseLocal(links, ifaces, h, nics).Ok?
    ensures var after := RaiseLocal(links, ifaces, h, nics).value;
            && after.Keys == links.Keys && OnlyOn(links, after, h)
            && (PlainIfaces(ifaces) ==> SubIfsSame(links, after))
    decreases nics
  {
    if nics != [] {
      var d := (h, ifaces[(h, nics[0].mac)]);
      RaiseFrame(SetUp(Flush(links, d), d, true), ifaces, h, nics[1..]);
    }
  }

  /** The VTEP's underlay is up, and its VXLAN device has its flood list, or is gone under DPDK. */
  predicate VtepReady(w: World, ifaces: Ifaces, s: Segment, v: Vtep, mode: Mode) {
    && (v.host, v.underlayMac) in ifaces && UpAt(w.links, (v.host, ifaces[(v.host, v.underlayMac)]))
    && if mode.Dpdk? then (v.host, s.vxlan) !in w.fdb
       else (v.host, s.vxlan) in w.fdb && w.fdb[(v.host, s.vxlan)] == Flood(s, v.host, mode)
  }

  /** Interfaces the hosts report are there. */
  predicate IfacesExist(ifaces: Ifaces, links: map<Dev, Link>) {
    forall k :: k in ifaces ==> (k.0, ifaces[k]) in links
  }

  ghost predicate FdbSameBut(a: map<Dev, Fdb>, b: map<Dev, Fdb>, d: Dev) {
    forall k :: k != d ==> (k in a <==> k in b) && (k in a ==> b[k] == a[k])
  }

  lemma VtepFrame(w: World, ifaces: Ifaces, h: string, s: Segment, mode: Mode)
    requires ConfigureVtep(w, ifaces, h, s, mode).Ok?
    ensures var after := ConfigureVtep(w, ifaces, h, s, mode).value;
            && after.links.Keys == w.links.Keys && OnlyOn(w.links, after.links, h)
            && (PlainIfaces(ifaces) ==> SubIfsSame(w.links, after.links))
            && FdbSameBut(w.fdb, after.fdb, (h, s.vxlan)) && after.shut == w.shut
  {
    var local := P.FirstOn(s.vteps, h);
    if local.Some? {
      var under := (h, ifaces[(h, local.value.underlayMac)]);
      var addressed := if mode.Dpdk? then Flush(w.links, under) else AddAddr(w.links, under, local.value.underlayIp);
      RaiseFrame(SetUp(addressed, under, true), ifaces, h, local.value.localNics);
    }
  }

  lemma VtepStep(w: World, ifaces: Ifaces, h: string, s: Segment, mode: Mode)
    requires ConfigureVtep(w, ifaces, h, s, mode).Ok? && IfacesExist(ifaces, w.links)
    requires P.FirstOn(s.vteps, h).Some?
    ensures VtepReady(ConfigureVtep(w, ifaces, h, s, mode).value, ifaces, s, P.FirstOn(s.vteps, h).value, mode)
  {
    var v := P.FirstOn(s.vteps, h).value;
    var under := (h, ifaces[(h, v.underlayMac)]);
    var addressed := if mode.Dpdk? then Flush(w.links, under) else AddAddr(w.links, under, v.underlayIp);
    RaiseFrame(SetUp(addressed, under, true), ifaces, h, v.localNics);
    assert UpAt(SetUp(addressed, under, true), under);
  }

  lemma {:induction false} VtepsFrame(w: World, ifaces: Ifaces, h: string, segs: seq<Segment>, mode: Mode)
    requires ConfigureVteps(w, ifaces, h, segs, mode).Ok?
    ensures var after := ConfigureVteps(w, ifaces, h, segs, mode).value;
            && after.links.Keys == w.links.Keys && OnlyOn(w.links, after.links, h)
            && (PlainIfaces(ifaces) ==> SubIfsSame(w.links, after.links)) && after.shut == w.shut
    decreases segs
  {
    if segs != [] {
      VtepFrame(w, ifaces, h, segs[0], mode);
      VtepsFrame(ConfigureVtep(w, ifaces, h, segs[0], mode).value, ifaces, h, segs[1..], mode);
    }
  }

  // ---------- the configured VTEPs ----------

  predicate VxlansDiffer(segs: seq<Segment>) {
    forall i, j :: 0 <= i < j < |segs| ==> segs[i].vxlan != segs[j].vxlan
  }

  lemma {:induction false} VtepsKeep(w: World, ifaces: Ifaces, h: string, segs: seq<Segment>, mode: Mode,
                                     s: Segment, v: Vtep)
    requires ConfigureVteps(w, ifaces, h, segs, mode).Ok?
    requires VtepReady(w, ifaces, s, v, mode) && (v.host != h || forall t :: t in segs ==> t.vxlan != s.vxlan)
    ensures VtepReady(ConfigureVteps(w, ifaces, h, segs, mode).value, ifaces, s, v, mode)
    decreases segs
  {
    if segs != [] {
      VtepFrame(w, ifaces, h, segs[0], mode);
      assert segs[0] in segs && forall t :: t in segs[1..] ==> t in segs;
      VtepsKeep(ConfigureVtep(w, ifaces, h, segs[0], mode).value, ifaces, h, segs[1..], mode, s, v);
    }
  }

  /** After the role has run on a host, that host's VTEP of every segment is ready; running it on another host later
      keeps it so (VtepsKeep). */
  lemma {:induction false} VtepsReady(w: World, ifaces: Ifaces, h: string, segs: seq<Segment>, mode: Mode,
                                      s: Segment, v: Vtep)
    requires ConfigureVteps(w, ifaces, h, segs, mode).Ok? && VxlansDiffer(segs) && IfacesExist(ifaces, w.links)
    requires s in segs && P.FirstOn(s.vteps, h) == Some(v)
    ensures VtepReady(ConfigureVteps(w, ifaces, h, segs, mode).value, ifaces, s, v, mode)
    decreases segs
  {
    var next := ConfigureVtep(w, ifaces, h, segs[0], mode).value;
    VtepFrame(w, ifaces, h, segs[0], mode);
    if s == segs[0] {
      VtepStep(w, ifaces, h, s, mode);
      forall t | t in segs[1..] ensures t.vxlan != s.vxlan {
        var j :| 0 <= j < |segs[1..]| && segs[1..][j] == t;
        assert segs[j + 1] == t;
      }
      VtepsKeep(next, ifaces, h, segs[1..], mode, s, v);
    } else {
      VtepsReady(next, ifaces, h, segs[1..], mode, s, v);
    }
  }

  lemma RoleFrame(w: World, ifaces: Ifaces, h: string, segs: seq<Segment>, mode: Mode)
    requires RoleOn(w, ifaces, h, segs, mode).Ok?
    ensures var after := RoleOn(w, ifaces, h, segs, mode).value;
            OnlyOn(w.links, after.links, h) && after.shut == w.shut
  {
    MembersFrame(w.links, ifaces, h, AllMembers(segs));
    VtepsFrame(w.(links := ConfigureMembers(w.links, ifaces, h, AllMembers(segs)).value), ifaces, h, segs, mode);
  }

  /** Once the role has run on a VTEP's host, in whatever order and however often it runs on the others, the VTEP is
      ready. */
  lemma {:induction false} RolesReady(w: World, ifaces: Ifaces, hs: seq<string>, segs: seq<Segment>, mode: Mode,
                                      s: Segment, v: Vtep)
    requires RoleOnAll(w, ifaces, hs, segs, mode).Ok? && VxlansDiffer(segs) && IfacesExist(ifaces, w.links)
    requires s in segs && v in s.vteps && P.OneVtepPerHost(s.vteps)
    requires v.host in hs || VtepReady(w, ifaces, s, v, mode)
    ensures VtepReady(RoleOnAll(w, ifaces, hs, segs, mode).value, ifaces, s, v, mode)
    decreases hs
  {
    if hs != [] {
      var clients := w.(links := ConfigureMembers(w.links, ifaces, hs[0], AllMembers(segs)).value);
      var next := RoleOn(w, ifaces, hs[0], segs, mode).value;
      MembersFrame(w.links, ifaces, hs[0], AllMembers(segs));
      RoleFrame(w, ifaces, hs[0], segs, mode);
      if hs[0] == v.host {
        P.OnlyOne(s.vteps, v, P.FirstOn(s.vteps, v.host).value);
        VtepsReady(clients, ifaces, hs[0], segs, mode, s, v);
      } else if VtepReady(w, ifaces, s, v, mode) {
        VtepsKeep(clients, ifaces, hs[0], segs, mode, s, v);
      }
      RolesReady(next, ifaces, hs[1..], segs, mode, s, v);
    }
  }

  lemma {:induction false} RolesShut(w: World, ifaces: Ifaces, hs: seq<string>, segs: seq<Segment>, mode: Mode)
    requires RoleOnAll(w, ifaces, hs, segs, mode).Ok?
    ensures RoleOnAll(w, ifaces, hs, segs, mode).value.shut == w.shut
    ensures var after := RoleOnAll(w, ifaces, hs, segs, mode).value.links;
            w.links.Keys <= after.Keys && forall d :: d in w.links ==> after[d].mtu == w.links[d].mtu
    decreases hs
  {
    if hs != [] {
      RoleFrame(w, ifaces, hs[0], segs, mode);
      RolesShut(RoleOn(w, ifaces, hs[0], segs, mode).value, ifaces, hs[1..], segs, mode);
    }
  }

  // ---------- the configured VLAN interfaces ----------

  /** m is a trunk member of the given VLAN on the given interface. */
  predicate Uses(ifaces: Ifaces, m: Member, h: string, base: string, vlan: int) {
    m.host == h && (h, m.mac) in ifaces && ifaces[(h, m.mac)] == base && m.mode == "trunk" && m.vlan == Vlan(vlan)
  }

  predicate Ready(links: map<Dev, Link>, h: string, base: string, vlan: int, ip: string) {
    && (h, base) in links && links[(h, base)].up
    && (h, SubIf(base, vlan)) in links
    && links[(h, SubIf(base, vlan))].up && links[(h, SubIf(base, vlan))].addrs == {ip}
  }

  lemma SubIfUnique(base: string, vlan: int, other: string, otherVlan: int)
    requires '.' !in base && '.' !in other
    ensures SubIf(base, vlan) == SubIf(other, otherVlan) ==> base == other && vlan == otherVlan
    ensures SubIf(base, vlan) != other
  {
    assert SubIf(base, vlan)[|base|] == '.';
    if SubIf(base, vlan) == SubIf(other, otherVlan) {
      SplitUnique(base, DecInt(vlan), other, DecInt(otherVlan), '.');
      DecIntInjective(vlan, otherVlan);
    }
  }

  /** One member makes the VLAN interface it uses, with its own address only and a new one with the MTU of the interface
      under it, and leaves every other one alone. */
  lemma MemberSubIf(links: map<Dev, Link>, ifaces: Ifaces, m: Member, base: string, vlan: int)
    requires PlainIfaces(ifaces) && '.' !in base && ConfigureMember(links, ifaces, m).Ok? && (m.host, base) in links
    ensures var after, sub := ConfigureMember(links, ifaces, m).value, (m.host, SubIf(base, vlan));
            && (m.host, base) in after && (UpAt(links, (m.host, base)) ==> UpAt(after, (m.host, base)))
            && (if Uses(ifaces, m, m.host, base, vlan) then
                  && Ready(after, m.host, base, vlan, m.ip)
                  && after[sub].mtu == if sub in links then links[sub].mtu else links[(m.host, base)].mtu
                else (sub in after <==> sub in links) && (sub in links ==> after[sub] == links[sub]))
  {
    var dev := ifaces[(m.host, m.mac)];
    SubIfUnique(base, vlan, dev, 0);
    SubIfUnique(dev, 0, base, 0);
    if m.mode == "trunk" && m.vlan.Vlan? {
      SubIfUnique(base, vlan, dev, m.vlan.id);
      SubIfUnique(dev, m.vlan.id, base, 0);
    }
  }

  /** The address of the last member that uses the interface, or what was given. */
  function LastIp(ifaces: Ifaces, ms: seq<Member>, h: string, base: string, vlan: int, given: Option<string>)
    : Option<string>
    decreases ms
  {
    if ms == [] then given
    else LastIp(ifaces, ms[1..], h, base, vlan, if Uses(ifaces, ms[0], h, base, vlan) then Some(ms[0].ip) else given)
  }

  predicate Used(ifaces: Ifaces, ms: seq<Member>, h: string, base: string, vlan: int) {
    exists m :: m in ms && Uses(ifaces, m, h, base, vlan)
  }

  lemma {:induction false} LastIpFound(ifaces: Ifaces, ms: seq<Member>, h: string, base: string, vlan: int,
                                       given: Option<string>)
    requires given.Some? || Used(ifaces, ms, h, base, vlan)
    ensures LastIp(ifaces, ms, h, base, vlan, given).Some?
    decreases ms
  {
    if ms != [] {
      assert forall m :: m in ms ==> m == ms[0] || m in ms[1..];
      LastIpFound(ifaces, ms[1..], h, base, vlan, if Uses(ifaces, ms[0], h, base, vlan) then Some(ms[0].ip) else given);
    }
  }

  /** After the client LANs are configured, a VLAN interface exists exactly when it did before or a member uses it, and
      one that is used is up, over an interface that is up, with just the address of its last member. */
  lemma {:induction false} ClientsReady(links: map<Dev, Link>, ifaces: Ifaces, h: string, ms: seq<Member>, base: string,
                                        vlan: int, given: Option<string>)
    requires PlainIfaces(ifaces) && '.' !in base && ConfigureMembers(links, ifaces, h, ms).Ok? && (h, base) in links
    requires given.Some? ==> Ready(links, h, base, vlan, given.value)
    ensures var after := ConfigureMembers(links, ifaces, h, ms).value;
            var last := LastIp(ifaces, ms, h, base, vlan, given);
            && (last.Some? ==> Ready(after, h, base, vlan, last.value))
            && ((h, SubIf(base, vlan)) in after <==> (h, SubIf(base, vlan)) in links || Used(ifaces, ms, h, base, vlan))
    decreases ms
  {
    if ms != [] {
      assert ms[0] in ms && forall m :: m in ms <==> m == ms[0] || m in ms[1..];
      if ms[0].host != h {
        ClientsReady(links, ifaces, h, ms[1..], base, vlan, given);
      } else {
        MemberSubIf(links, ifaces, ms[0], base, vlan);
        ClientsReady(ConfigureMember(links, ifaces, ms[0]).value, ifaces, h, ms[1..], base, vlan,
                     if Uses(ifaces, ms[0], h, base, vlan) then Some(ms[0].ip) else given);
      }
    }
  }

  lemma ReadyKept(a: map<Dev, Link>, b: map<Dev, Link>, other: string, h: string, base: string, vlan: int, ip: string)
    requires OnlyOn(a, b, other) && (other != h || SubIfsSame(a, b))
    ensures Ready(a, h, base, vlan, ip) ==> Ready(b, h, base, vlan, ip)
    ensures (h, SubIf(base, vlan)) in b <==> (h, SubIf(base, vlan)) in a
  {
    assert SubIf(base, vlan)[|base|] == '.';
    assert UpAt(a, (h, base)) ==> UpAt(b, (h, base));
  }

  lemma RoleVlan(w: World, ifaces: Ifaces, h: string, segs: seq<Segment>, mode: Mode, base: string, vlan: int)
    requires PlainIfaces(ifaces) && '.' !in base && RoleOn(w, ifaces, h, segs, mode).Ok? && (h, base) in w.links
    ensures var after := RoleOn(w, ifaces, h, segs, mode).value.links;
            var last := LastIp(ifaces, AllMembers(segs), h, base, vlan, None);
            && (last.Some? ==> Ready(after, h, base, vlan, last.value))
            && ((h, SubIf(base, vlan)) in after <==>
                  (h, SubIf(base, vlan)) in w.links || Used(ifaces, AllMembers(segs), h, base, vlan))
  {
    var clients := ConfigureMembers(w.links, ifaces, h, AllMembers(segs)).value;
    var last := LastIp(ifaces, AllMembers(segs), h, base, vlan, None);
    ClientsReady(w.links, ifaces, h, AllMembers(segs), base, vlan, None);
    VtepsFrame(w.(links := clients), ifaces, h, segs, mode);
    ReadyKept(clients, RoleOn(w, ifaces, h, segs, mode).value.links, h, h, base, vlan,
              if last.Some? then last.value else "");
  }

  /** The same once the role has run on that host, whatever other hosts it runs on. */
  lemma {:induction false} RolesVlan(w: World, ifaces: Ifaces, hs: seq<string>, segs: seq<Segment>, mode: Mode,
                                     h: string, base: string, vlan: int, ip: Option<string>)
    requires PlainIfaces(ifaces) && '.' !in base && RoleOnAll(w, ifaces, hs, segs, mode).Ok? && (h, base) in w.links
    requires ip == LastIp(ifaces, AllMembers(segs), h, base, vlan, None)
    requires h in hs || ((ip.Some? ==> Ready(w.links, h, base, vlan, ip.value))
                         && (Used(ifaces, AllMembers(segs), h, base, vlan) ==> (h, SubIf(base, vlan)) in w.links))
    ensures var after := RoleOnAll(w, ifaces, hs, segs, mode).value.links;
            && (ip.Some? ==> Ready(after, h, base, vlan, ip.value))
            && ((h, SubIf(base, vlan)) in after <==>
                  (h, SubIf(base, vlan)) in w.links || Used(ifaces, AllMembers(segs), h, base, vlan))
    decreases hs
  {
    if hs != [] {
      var next := RoleOn(w, ifaces, hs[0], segs, mode).value;
      RoleFrame(w, ifaces, hs[0], segs, mode);
      if hs[0] == h {
        RoleVlan(w, ifaces, h, segs, mode, base, vlan);
      } else {
        ReadyKept(w.links, next.links, hs[0], h, base, vlan, if ip.Some? then ip.value else "");
      }
      RolesVlan(next, ifaces, hs[1..], segs, mode, h, base, vlan, ip);
    }
  }

  // ---------- when deployment gets through ----------

  predicate MemberServed(ifaces: Ifaces, m: Member) {
    (m.host, m.mac) in ifaces && (m.mode == "trunk" ==> m.vlan.Vlan?)
  }

  predicate VtepServed(ifaces: Ifaces, v: Vtep) {
    (v.host, v.underlayMac) in ifaces && forall n :: n in v.localNics ==> (v.host, n.mac) in ifaces
  }

  /** The host reports every interface the role configures on it, and its trunk members have a VLAN. */
  predicate HostServed(ifaces: Ifaces, h: string, segs: seq<Segment>) {
    && (forall m :: m in AllMembers(segs) && m.host == h ==> MemberServed(ifaces, m))
    && forall s :: s in segs && P.FirstOn(s.vteps, h).Some? ==> VtepServed(ifaces, P.FirstOn(s.vteps, h).value)
  }

  lemma {:induction false} MembersGetThrough(links: map<Dev, Link>, ifaces: Ifaces, h: string, ms: seq<Member>)
    ensures ConfigureMembers(links, ifaces, h, ms).Ok? <==>
            forall m :: m in ms && m.host == h ==> MemberServed(ifaces, m)
    decreases ms
  {
    if ms != [] {
      assert ms[0] in ms && forall m :: m in ms <==> m == ms[0] || m in ms[1..];
      if ms[0].host != h {
        MembersGetThrough(links, ifaces, h, ms[1..]);
      } else if ConfigureMember(links, ifaces, ms[0]).Ok? {
        MembersGetThrough(ConfigureMember(links, ifaces, ms[0]).value, ifaces, h, ms[1..]);
      }
    }
  }

  lemma {:induction false} RaiseGetsThrough(links: map<Dev, Link>, ifaces: Ifaces, h: string, nics: seq<Nic>)
    ensures RaiseLocal(links, ifaces, h, nics).Ok? <==> forall n :: n in nics ==> (h, n.mac) in ifaces
    decreases nics
  {
    if nics != [] {
      assert nics[0] in nics && forall n :: n in nics <==> n == nics[0] || n in nics[1..];
      if (h, nics[0].mac) in ifaces {
        var d := (h, ifaces[(h, nics[0].mac)]);
        RaiseGetsThrough(SetUp(Flush(links, d), d, true), ifaces, h, nics[1..]);
      }
    }
  }

  lemma VtepGetsThrough(w: World, ifaces: Ifaces, h: string, s: Segment, mode: Mode)
    ensures ConfigureVtep(w, ifaces, h, s, mode).Ok? <==>
            (P.FirstOn(s.vteps, h).Some? ==> VtepServed(ifaces, P.FirstOn(s.vteps, h).value))
  {
    var local := P.FirstOn(s.vteps, h);
    if local.Some? && (h, local.value.underlayMac) in ifaces {
      var under := (h, ifaces[(h, local.value.underlayMac)]);
      var addressed := if mode.Dpdk? then Flush(w.links, under) else AddAddr(w.links, under, local.value.underlayIp);
      RaiseGetsThrough(SetUp(addressed, under, true), ifaces, h, local.value.localNics);
    }
  }

  lemma {:induction false} VtepsGetThrough(w: World, ifaces: Ifaces, h: string, segs: seq<Segment>, mode: Mode)
    ensures ConfigureVteps(w, ifaces, h, segs, mode).Ok? <==>
            forall s :: s in segs && P.FirstOn(s.vteps, h).Some? ==> VtepServed(ifaces, P.FirstOn(s.vteps, h).value)
    decreases segs
  {
    if segs != [] {
      assert segs[0] in segs && forall s :: s in segs <==> s == segs[0] || s in segs[1..];
      VtepGetsThrough(w, ifaces, h, segs[0], mode);
      if ConfigureVtep(w, ifaces, h, segs[0], mode).Ok? {
        VtepsGetThrough(ConfigureVtep(w, ifaces, h, segs[0], mode).value, ifaces, h, segs[1..], mode);
      }
    }
  }

  lemma {:induction false} RolesGetThrough(w: World, ifaces: Ifaces, hs: seq<string>, segs: seq<Segment>, mode: Mode)
    ensures RoleOnAll(w, ifaces, hs, segs, mode).Ok? <==> forall h :: h in hs ==> HostServed(ifaces, h, segs)
    decreases hs
  {
    if hs != [] {
      assert hs[0] in hs && forall h :: h in hs <==> h == hs[0] || h in hs[1..];
      var clients := ConfigureMembers(w.links, ifaces, hs[0], AllMembers(segs));
      MembersGetThrough(w.links, ifaces, hs[0], AllMembers(segs));
      if clients.Ok? {
        VtepsGetThrough(w.(links := clients.value), ifaces, hs[0], segs, mode);
      }
      if RoleOn(w, ifaces, hs[0], segs, mode).Ok? {
        RolesGetThrough(RoleOn(w, ifaces, hs[0], segs, mode).value, ifaces, hs[1..], segs, mode);
      }
    }
  }

  lemma {:induction false} BindsGetThrough(w: World, site: Site, hs: seq<string>, segs: seq<Segment>)
    ensures BindAll(w, site, hs, segs).Ok? <==> forall h :: h in hs ==> Binds(site, h, segs)
    decreases hs
  {
    if hs != [] {
      assert hs[0] in hs && forall h :: h in hs <==> h == hs[0] || h in hs[1..];
      if Binds(site, hs[0], segs) {
        var links := Unbound(w.links, site.ifaces, hs[0], P.UsedMacs(segs, hs[0]));
        BindsGetThrough(w.(links := links), site, hs[1..], segs);
      }
    }
  }

  /** The plays get through exactly when every host reports the interfaces the role configures on it, trunk members have
      a VLAN, and under DPDK every host of the vteps group binds. */
  lemma DeployGetsThrough(w: World, site: Site, segs: seq<Segment>, mode: Mode)
    ensures Deploy(w, site, segs, mode).Ok? <==>
            && (forall h :: h in site.all ==> HostServed(site.ifaces, h, segs))
            && (mode.Dpdk? ==> forall h :: h in site.vteps ==> Binds(site, h, segs))
  {
    RolesGetThrough(w, site.ifaces, site.all, segs, mode);
    var done := RoleOnAll(w, site.ifaces, site.all, segs, mode);
    if done.Ok? {
      BindsGetThrough(done.value, site, site.vteps, segs);
    }
  }

  // ---------- what binding takes away ----------

  /** The interface is bound away from the kernel on one of these hosts. */
  predicate Taken(site: Site, hs: seq<string>, segs: seq<Segment>, d: Dev) {
    d.0 in hs && TakenFor(site.ifaces, d.0, P.UsedMacs(segs, d.0), d.1)
  }

  lemma {:induction false} BindExactly(w: World, site: Site, hs: seq<string>, segs: seq<Segment>)
    requires BindAll(w, site, hs, segs).Ok?
    ensures var after := BindAll(w, site, hs, segs).value;
            && after == w.(links := after.links)
            && (forall d :: d in after.links <==> d in w.links && !Taken(site, hs, segs, d))
            && forall d :: d in after.links ==> after.links[d] == w.links[d]
    decreases hs
  {
    if hs != [] {
      assert forall h :: h in hs <==> h == hs[0] || h in hs[1..];
      var next := w.(links := Unbound(w.links, site.ifaces, hs[0], P.UsedMacs(segs, hs[0])));
      BindExactly(next, site, hs[1..], segs);
      var after := BindAll(w, site, hs, segs).value;
      forall d ensures d in after.links <==> d in w.links && !Taken(site, hs, segs, d) {
        assert d in next.links <==> d in w.links && !Taken(site, [hs[0]], segs, d);
      }
    }
  }

  /** A VLAN interface is taken exactly when the interface under it is. */
  lemma SubIfTaken(site: Site, hs: seq<string>, segs: seq<Segment>, h: string, base: string, vlan: int)
    requires PlainIfaces(site.ifaces) && '.' !in base
    ensures Taken(site, hs, segs, (h, SubIf(base, vlan))) <==> Taken(site, hs, segs, (h, base))
  {
    forall k | k in site.ifaces
      ensures OnTopOf(site.ifaces[k], SubIf(base, vlan)) <==> OnTopOf(site.ifaces[k], base)
    {
      OnTopPlain(site.ifaces[k], base, vlan);
    }
  }

  lemma OnTopPlain(own: string, base: string, vlan: int)
    requires '.' !in own && '.' !in base
    ensures OnTopOf(own, SubIf(base, vlan)) <==> own == base
    ensures OnTopOf(own, base) <==> own == base
  {
    var sub := SubIf(base, vlan);
    assert sub[|base|] == '.';
    if own + "." <= sub {
      PrefixOfSub(own, base, vlan);
    }
    assert own == base ==> own + "." <= sub;
    NoDotPrefix(own, base);
  }

  lemma PrefixOfSub(own: string, base: string, vlan: int)
    requires '.' !in own && '.' !in base && own + "." <= SubIf(base, vlan)
    ensures own == base
  {
    var sub := SubIf(base, vlan);
    var rest := sub[|own| + 1..];
    assert sub == own + ['.'] + rest && sub == base + ['.'] + DecInt(vlan);
    SplitUnique(own, rest, base, DecInt(vlan), '.');
  }

  lemma NoDotPrefix(own: string, base: string)
    requires '.' !in base
    ensures !(own + "." <= base)
  {
    assert (own + ".")[|own|] == '.';
  }

  // ---------- faults on a deployed testbed ----------

  function ModeOf(dpdk: bool, evpn: bool): Mode { if dpdk then Dpdk else if evpn then LinuxEvpn else LinuxStatic }

  /** What is known of a testbed before the plays run: a checked topology, interfaces that are there, and no all-zero
      MAC. */
  ghost predicate Prepared(env: Env, raw: Declared, before: World, site: Site) {
    && HostsNamed(env.hosts) && ValidSegments(env.hosts, raw) && Lowered(env.hosts, raw, env.segs)
    && (forall h, n :: NicOf(env.hosts, h, n).Some? ==> NicOf(env.hosts, h, n).value.mac != ZERO_MAC)
    && PlainIfaces(site.ifaces) && IfacesExist(site.ifaces, before.links)
  }

  /** The interfaces that are still there. */
  function Reported(ifaces: Ifaces, links: map<Dev, Link>): Ifaces {
    map k | k in ifaces && (k.0, ifaces[k]) in links :: ifaces[k]
  }

  /** The plays got through, on an inventory that has every VTEP's and every member's host, and every VTEP's host in its
      group; the executor sees the interfaces that are there afterwards. Rendering for DPDK leaves no EVPN. */
  ghost predicate Deployed(env: Env, evpn: bool, before: World, site: Site, w: World) {
    && Deploy(before, site, env.segs, ModeOf(env.dpdk, evpn)) == Ok(w)
    && (forall s, v :: s in env.segs && v in s.vteps ==> v.host in site.all)
    && (forall m :: m in AllMembers(env.segs) ==> m.host in site.all)
    && VtepHosts(env.segs) <= Elements(site.vteps)
    && env.ifaces == Reported(site.ifaces, w.links)
    && (env.dpdk ==> !evpn)
  }

  /** The exact condition for an undo to undo, on the state before deployment: a VLAN fault needs a VLAN interface that
      neither exists nor is used by a member, and a source that is the last member on its own VLAN interface or has the
      same address. Nothing else is needed. */
  predicate Undoable(site: Site, segs: seq<Segment>, before: World, a: Action) {
    match a
    case MoveVlan(h, base, vlan, wrong, ip) =>
      && (h, SubIf(base, wrong)) !in before.links && !Used(site.ifaces, AllMembers(segs), h, base, wrong)
      && LastIp(site.ifaces, AllMembers(segs), h, base, vlan, None) == Some(ip)
    case _ => true
  }

  lemma {:induction false} InAllMembers(segs: seq<Segment>, s: Segment, m: Member)
    requires s in segs && m in s.members
    ensures m in AllMembers(segs)
  {
    if s != segs[0] { InAllMembers(segs[1..], s, m); }
  }

  lemma CheckedSegments(env: Env, raw: Declared)
    requires ValidSegments(env.hosts, raw) && Lowered(env.hosts, raw, env.segs)
    ensures VxlansDiffer(env.segs) && forall s :: s in env.segs ==> P.OneVtepPerHost(s.vteps)
  {
    DeviceNamesDistinct(env.hosts, raw, env.segs);
    forall s | s in env.segs ensures P.OneVtepPerHost(s.vteps) {
      var i :| 0 <= i < |env.segs| && env.segs[i] == s;
      P.OneVtepLowered(env.hosts, raw, env.segs, i);
    }
  }

  /** The state after the role and before the plays that follow it, and what these change. */
  lemma Stages(before: World, site: Site, segs: seq<Segment>, mode: Mode, w: World) returns (roles: World)
    requires Deploy(before, site, segs, mode) == Ok(w)
    ensures RoleOnAll(before, site.ifaces, site.all, segs, mode) == Ok(roles)
    ensures w.fdb == roles.fdb
    ensures forall d :: d in w.links <==> d in roles.links && !(mode.Dpdk? && Taken(site, site.vteps, segs, d))
    ensures forall d :: d in w.links ==> w.links[d] == roles.links[d]
    ensures mode.LinuxEvpn? ==> forall p :: p in w.shut ==> p.0 !in site.vteps
  {
    roles := RoleOnAll(before, site.ifaces, site.all, segs, mode).value;
    if mode.Dpdk? {
      BindExactly(roles, site, site.vteps, segs);
    }
  }

  lemma {:induction false} UsedHas(segs: seq<Segment>, s: Segment, h: string)
    requires s in segs
    ensures P.LocalMacs(s, h) <= P.UsedMacs(segs, h)
  {
    if s != segs[|segs| - 1] { UsedHas(segs[..|segs| - 1], s, h); }
  }

  /** A VTEP as the plays leave it. On Linux its underlay is up and its VXLAN device has its flood list; under DPDK both
      are gone from the kernel. */
  predicate VtepDeployed(w: World, ifaces: Ifaces, s: Segment, v: Vtep, mode: Mode) {
    && (v.host, v.underlayMac) in ifaces
    && if mode.Dpdk? then
         (v.host, ifaces[(v.host, v.underlayMac)]) !in w.links && (v.host, s.vxlan) !in w.fdb
       else VtepReady(w, ifaces, s, v, mode)
  }

  lemma OneVtepDeployed(env: Env, raw: Declared, evpn: bool, before: World, site: Site, w: World, s: Segment, v: Vtep)
    requires Prepared(env, raw, before, site) && Deployed(env, evpn, before, site, w)
    requires s in env.segs && v in s.vteps
    ensures VtepDeployed(w, site.ifaces, s, v, ModeOf(env.dpdk, evpn))
  {
    var mode := ModeOf(env.dpdk, evpn);
    CheckedSegments(env, raw);
    var roles := Stages(before, site, env.segs, mode, w);
    RolesReady(before, site.ifaces, site.all, env.segs, mode, s, v);
    if mode.Dpdk? {
      var k := (v.host, v.underlayMac);
      P.OnlyOne(s.vteps, v, P.FirstOn(s.vteps, v.host).value);
      UsedHas(env.segs, s, v.host);
      assert P.ToLower(v.underlayMac) in P.MacsOf(v);
      assert v in C.VtepSet(env.segs) && v.host in VtepHosts(env.segs);
      assert OnTopOf(site.ifaces[k], site.ifaces[k]);
      assert Taken(site, site.vteps, env.segs, (v.host, site.ifaces[k]));
    }
  }

  /** After the plays, on hosts in any order and any number of times, every VTEP of every segment is deployed; and under
      EVPN no neighbour of a VTEP is shut. */
  lemma DeployedReady(env: Env, raw: Declared, evpn: bool, before: World, site: Site, w: World)
    requires Prepared(env, raw, before, site) && Deployed(env, evpn, before, site, w)
    ensures forall s, v :: s in env.segs && v in s.vteps ==>
              VtepDeployed(w, site.ifaces, s, v, ModeOf(env.dpdk, evpn))
    ensures ModeOf(env.dpdk, evpn).LinuxEvpn? ==> forall p :: p in w.shut ==> p.0 !in VtepHosts(env.segs)
  {
    forall s, v | s in env.segs && v in s.vteps ensures VtepDeployed(w, site.ifaces, s, v, ModeOf(env.dpdk, evpn)) {
      OneVtepDeployed(env, raw, evpn, before, site, w, s, v);
    }
    var roles := Stages(before, site, env.segs, ModeOf(env.dpdk, evpn), w);
    assert forall h :: h in site.vteps <==> h in Elements(site.vteps);
  }

  /** A member's interface is gone from the kernel. */
  predicate Bound(env: Env, site: Site, m: Member) {
    env.dpdk && (m.host, m.mac) in site.ifaces
    && Taken(site, site.vteps, env.segs, (m.host, site.ifaces[(m.host, m.mac)]))
  }

  /** The executor finds a member's interface on the deployed testbed exactly when the DPDK play has not bound it; it is
      then as the role left it. */
  lemma FindsInterfaceExactly(env: Env, raw: Declared, evpn: bool, before: World, site: Site, w: World, m: Member)
    requires Prepared(env, raw, before, site) && Deployed(env, evpn, before, site, w) && m in AllMembers(env.segs)
    ensures MemberServed(site.ifaces, m)
    ensures (m.host, m.mac) in env.ifaces <==> !Bound(env, site, m)
    ensures (m.host, m.mac) in env.ifaces ==>
              var d := (m.host, env.ifaces[(m.host, m.mac)]);
              env.ifaces[(m.host, m.mac)] == site.ifaces[(m.host, m.mac)]
              && d in w.links && d in before.links && w.links[d].mtu == before.links[d].mtu
  {
    var mode := ModeOf(env.dpdk, evpn);
    RolesGetThrough(before, site.ifaces, site.all, env.segs, mode);
    assert m.host in site.all && HostServed(site.ifaces, m.host, env.segs);
    var roles := Stages(before, site, env.segs, mode, w);
    RolesShut(before, site.ifaces, site.all, env.segs, mode);
    var d := (m.host, site.ifaces[(m.host, m.mac)]);
    assert d in before.links && d in roles.links;
  }

  /** The VLAN interface of a trunk member whose interface is still there, and any other VLAN interface on it. */
  lemma DeployedVlan(env: Env, raw: Declared, evpn: bool, before: World, site: Site, w: World, m: Member, wrong: int)
    requires Prepared(env, raw, before, site) && Deployed(env, evpn, before, site, w)
    requires m in AllMembers(env.segs) && (m.host, m.mac) in env.ifaces && m.mode == "trunk" && m.vlan.Vlan?
    ensures var base, ms := env.ifaces[(m.host, m.mac)], AllMembers(env.segs);
            var last := LastIp(site.ifaces, ms, m.host, base, m.vlan.id, None);
            && '.' !in base && last.Some? && Ready(w.links, m.host, base, m.vlan.id, last.value)
            && ((m.host, SubIf(base, wrong)) in w.links <==>
                  (m.host, SubIf(base, wrong)) in before.links || Used(site.ifaces, ms, m.host, base, wrong))
  {
    var base, ms := env.ifaces[(m.host, m.mac)], AllMembers(env.segs);
    var mode := ModeOf(env.dpdk, evpn);
    FindsInterfaceExactly(env, raw, evpn, before, site, w, m);
    assert Uses(site.ifaces, m, m.host, base, m.vlan.id);
    LastIpFound(site.ifaces, ms, m.host, base, m.vlan.id, None);
    var roles := Stages(before, site, env.segs, mode, w);
    RolesVlan(before, site.ifaces, site.all, env.segs, mode, m.host, base, m.vlan.id,
              LastIp(site.ifaces, ms, m.host, base, m.vlan.id, None));
    RolesVlan(before, site.ifaces, site.all, env.segs, mode, m.host, base, wrong,
              LastIp(site.ifaces, ms, m.host, base, wrong, None));
    SubIfTaken(site, site.vteps, env.segs, m.host, base, m.vlan.id);
    SubIfTaken(site, site.vteps, env.segs, m.host, base, wrong);
  }

  lemma MacOfMember(hosts: Hosts, raw: Declared, segs: seq<Segment>, s: Segment, m: Member)
    requires ValidSegments(hosts, raw) && Lowered(hosts, raw, segs) && s in segs && m in s.members
    ensures NicOf(hosts, m.host, m.nic).Some? && m.mac == NicOf(hosts, m.host, m.nic).value.mac
  {
    var i :| 0 <= i < |segs| && segs[i] == s;
    var j :| 0 <= j < |s.members| && s.members[j] == m;
    assert LoweredSegment(hosts, raw[i].0, raw[i].1, s);
    assert LoweredMember(hosts, raw[i].1, raw[i].1.members[j], s.members[j]);
  }

  lemma VlanAction(env: Env, evpn: bool, f: Fault) returns (source: Member, wrong: int)
    requires FaultOk(env.segs, evpn, f) && f.kind.VlanMismatch? && ActionOf(env, f).Ok?
    ensures source in AllMembers(env.segs) && source.mode == "trunk" && source.vlan.Vlan? && source.vlan.id != wrong
    ensures (source.host, source.mac) in env.ifaces
    ensures ActionOf(env, f).value ==
            MoveVlan(source.host, env.ifaces[(source.host, source.mac)], source.vlan.id, wrong, source.ip)
  {
    var s, from, to := FaultPairFound(env.segs, evpn, f);
    InAllMembers(env.segs, s, from);
    source, wrong := from, WrongVlan(f, from).value;
  }

  lemma InterfaceAction(env: Env, evpn: bool, f: Fault) returns (source: Member)
    requires FaultOk(env.segs, evpn, f) && (f.kind.MtuMismatch? || f.kind.VlanMismatch?)
    ensures FaultPair(env.segs, f).Ok? && source == FaultPair(env.segs, f).value.0 && source in AllMembers(env.segs)
    ensures f.kind.MtuMismatch? ==>
              (ActionOf(env, f).Ok? <==>
                (source.host, source.mac) in env.ifaces && (source.mode == "trunk" ==> source.vlan.Vlan?))
    ensures f.kind.VlanMismatch? ==>
              (ActionOf(env, f).Ok? <==> (source.host, source.mac) in env.ifaces && WrongVlan(f, source).Ok?)
  {
    var s, from, to := FaultPairFound(env.segs, evpn, f);
    InAllMembers(env.segs, s, from);
    source := from;
  }

  lemma VlanSource(env: Env, raw: Declared, evpn: bool, f: Fault, source: Member)
    requires HostsNamed(env.hosts) && ValidSegments(env.hosts, raw) && Lowered(env.hosts, raw, env.segs)
    requires FaultOk(env.segs, evpn, f) && f.kind.VlanMismatch?
    requires FaultPair(env.segs, f).Ok? && source == FaultPair(env.segs, f).value.0
    ensures source.mode == "trunk" && (WrongVlan(f, source).Ok? <==> source.vlan.Vlan?)
  {
    var s, from, to := FaultPairFound(env.segs, evpn, f);
    WrongVlanDiffers(env.hosts, raw, env.segs, evpn, f);
  }

  /** An accepted fault at the source's own interface finds its target on a deployed testbed exactly when the DPDK play
      has not bound that interface. */
  lemma FindsTargetExactly(env: Env, raw: Declared, evpn: bool, before: World, site: Site, w: World, f: Fault)
    requires Prepared(env, raw, before, site) && Deployed(env, evpn, before, site, w)
    requires FaultOk(env.segs, evpn, f) && (f.kind.MtuMismatch? || f.kind.VlanMismatch?)
    ensures FaultPair(env.segs, f).Ok?
    ensures ActionOf(env, f).Ok? <==> !Bound(env, site, FaultPair(env.segs, f).value.0)
  {
    var source := InterfaceAction(env, evpn, f);
    var served := ServedInterface(env, raw, evpn, before, site, w, source);
    if f.kind.VlanMismatch? {
      VlanSource(env, raw, evpn, f, source);
    }
  }

  lemma ServedInterface(env: Env, raw: Declared, evpn: bool, before: World, site: Site, w: World, m: Member)
    returns (found: bool)
    requires Prepared(env, raw, before, site) && Deployed(env, evpn, before, site, w) && m in AllMembers(env.segs)
    ensures found <==> (m.host, m.mac) in env.ifaces
    ensures found <==> !Bound(env, site, m)
    ensures m.mode == "trunk" ==> m.vlan.Vlan?
  {
    FindsInterfaceExactly(env, raw, evpn, before, site, w, m);
    found := (m.host, m.mac) in env.ifaces;
  }

  /** What makes a VLAN move undoable, in terms of the state it starts from. */
  lemma VlanMoveRestorable(w: World, h: string, base: string, vlan: int, wrong: int, ip: string, last: string)
    requires '.' !in base && vlan != wrong && Ready(w.links, h, base, vlan, last)
    ensures var a := MoveVlan(h, base, vlan, wrong, ip);
            && WellFormed(w, a) && Inject(w, a).Ok?
            && (Restorable(w, a) <==> (h, SubIf(base, wrong)) !in w.links && last == ip)
  {
    SubIfsDiffer(base, vlan, wrong);
    assert ip in {ip} && last in {last};
  }

  /** A VLAN fault. */
  lemma DeployedVlanFault(env: Env, raw: Declared, evpn: bool, before: World, site: Site, w: World, f: Fault)
    requires Prepared(env, raw, before, site) && Deployed(env, evpn, before, site, w)
    requires FaultOk(env.segs, evpn, f) && f.kind.VlanMismatch? && ActionOf(env, f).Ok?
    ensures var a := ActionOf(env, f).value;
            WellFormed(w, a) && Inject(w, a).Ok? && (Restorable(w, a) <==> Undoable(site, env.segs, before, a))
  {
    var source, wrong := VlanAction(env, evpn, f);
    var base := env.ifaces[(source.host, source.mac)];
    DeployedVlan(env, raw, evpn, before, site, w, source, wrong);
    VlanMoveRestorable(w, source.host, base, source.vlan.id, wrong, source.ip,
                       LastIp(site.ifaces, AllMembers(env.segs), source.host, base, source.vlan.id, None).value);
  }

  /** An MTU fault: the interface is there, a VLAN interface included. */
  lemma DeployedMtuFault(env: Env, raw: Declared, evpn: bool, before: World, site: Site, w: World, f: Fault)
    requires Prepared(env, raw, before, site) && Deployed(env, evpn, before, site, w)
    requires FaultOk(env.segs, evpn, f) && f.kind.MtuMismatch? && ActionOf(env, f).Ok?
    ensures var a := ActionOf(env, f).value;
            WellFormed(w, a) && Inject(w, a).Ok? && (Restorable(w, a) <==> Undoable(site, env.segs, before, a))
  {
    var s, source, destination := FaultPairFound(env.segs, evpn, f);
    InAllMembers(env.segs, s, source);
    FindsInterfaceExactly(env, raw, evpn, before, site, w, source);
    if source.mode == "trunk" {
      DeployedVlan(env, raw, evpn, before, site, w, source, 0);
    }
  }

  lemma ActionAtVtep(env: Env, evpn: bool, f: Fault) returns (s: Segment, near: Vtep, far: Option<Vtep>, mac: string)
    requires FaultOk(env.segs, evpn, f) && !f.kind.VlanMismatch? && !f.kind.MtuMismatch? && ActionOf(env, f).Ok?
    ensures s in env.segs && near in s.vteps && exists m :: m in s.members && m.mac == mac
    ensures ActionOf(env, f) == VtepAction(env, f.kind, s, near, far, mac)
  {
    var t, source, destination := FaultPairFound(env.segs, evpn, f);
    s, near, far, mac := t, AttachedVtep(env, t, source).value, AttachedVtep(env, t, destination), destination.mac;
  }

  lemma VtepActionRestorable(env: Env, w: World, site: Site, before: World, kind: FaultKind, s: Segment, near: Vtep,
                             far: Option<Vtep>, mac: string, mode: Mode)
    requires VtepAction(env, kind, s, near, far, mac).Ok? && VtepDeployed(w, site.ifaces, s, near, mode)
    requires mac != ZERO_MAC && (kind.RemoveFdbPeer? ==> !mode.LinuxEvpn?) && (mode.Dpdk? <==> env.dpdk)
    requires env.ifaces == Reported(site.ifaces, w.links)
    requires kind.BgpPeerShutdown? || kind.FrrRestart? ==> forall p :: p in w.shut ==> p.0 != near.host
    ensures var a := VtepAction(env, kind, s, near, far, mac).value;
            && WellFormed(w, a) && (Inject(w, a).Ok? || a.NicLinkDown?)
            && Restorable(w, a) && Undoable(site, env.segs, before, a)
  {
    if kind.RemoveFdbPeer? && !env.dpdk {
      FloodRestorable(s, near.host, mac);
    }
  }

  /** A fault at the VTEP next to the source. */
  lemma DeployedVtepFault(env: Env, raw: Declared, evpn: bool, before: World, site: Site, w: World, f: Fault)
    requires Prepared(env, raw, before, site) && Deployed(env, evpn, before, site, w)
    requires FaultOk(env.segs, evpn, f) && !f.kind.VlanMismatch? && !f.kind.MtuMismatch? && ActionOf(env, f).Ok?
    ensures var a := ActionOf(env, f).value;
            && WellFormed(w, a) && (Inject(w, a).Ok? || a.NicLinkDown?)
            && (Restorable(w, a) <==> Undoable(site, env.segs, before, a))
  {
    var s, near, far, mac := ActionAtVtep(env, evpn, f);
    var m :| m in s.members && m.mac == mac;
    MacOfMember(env.hosts, raw, env.segs, s, m);
    DeployedReady(env, raw, evpn, before, site, w);
    assert near in C.VtepSet(env.segs) && near.host in VtepHosts(env.segs);
    VtepActionRestorable(env, w, site, before, f.kind, s, near, far, mac, ModeOf(env.dpdk, evpn));
  }

  /** Any accepted fault that finds its targets, on a testbed deployed from a checked topology, whatever hosts the plays
      ran on first and however often: except for a NIC setting Proxmox does not have the injection gets through, and
      restoring after it gives back the very state it started from if and only if the fault was undoable. */
  lemma DeployedFaultUndone(env: Env, raw: Declared, evpn: bool, before: World, site: Site, w: World, f: Fault)
    requires Prepared(env, raw, before, site) && Deployed(env, evpn, before, site, w)
    requires FaultOk(env.segs, evpn, f) && ActionOf(env, f).Ok?
    ensures var a := ActionOf(env, f).value;
            && (Inject(w, a).Ok? || a.NicLinkDown?) && WellFormed(w, a)
            && (Restorable(w, a) <==> Undoable(site, env.segs, before, a))
            && (Inject(w, a).Ok? ==>
                  (Restore(Inject(w, a).value.0, Inject(w, a).value.1) == w <==> Undoable(site, env.segs, before, a)))
  {
    if f.kind.VlanMismatch? {
      DeployedVlanFault(env, raw, evpn, before, site, w, f);
    } else if f.kind.MtuMismatch? {
      DeployedMtuFault(env, raw, evpn, before, site, w, f);
    } else {
      DeployedVtepFault(env, raw, evpn, before, site, w, f);
    }
    var a := ActionOf(env, f).value;
    if Inject(w, a).Ok? {
      RestoreExactly(w, a);
    }
  }

  /** The flood list the role installs has one entry per peer and nothing else: the fault empties it and the undo
      refills it. */
  lemma FloodRestorable(s: Segment, h: string, mac: string)
    requires mac != ZERO_MAC
    ensures FdbRestorable(Flood(s, h, LinuxStatic), OtherAddresses(s.vteps, h), mac)
    ensures DeletePeers(Flood(s, h, LinuxStatic), OtherAddresses(s.vteps, h), mac) == multiset{}
  {
    ScanAgrees(s.vteps, h);
    InstalledRestorable(OtherAddresses(s.vteps, h), mac);
    InstalledEmptied(OtherAddresses(s.vteps, h), mac);
  }

  lemma InstalledRestorable(peers: seq<string>, mac: string)
    requires mac != ZERO_MAC
    ensures FdbRestorable(AppendPeers(multiset{}, peers), peers, mac)
  {
    forall p | p in peers
      ensures AppendPeers(multiset{}, peers)[(ZERO_MAC, p)] == multiset(peers)[p]
      ensures AppendPeers(multiset{}, peers)[(mac, p)] == 0
    {
      AppendCount(multiset{}, peers, (ZERO_MAC, p));
      AppendCount(multiset{}, peers, (mac, p));
    }
  }

  lemma InstalledEmptied(peers: seq<string>, mac: string)
    requires mac != ZERO_MAC
    ensures DeletePeers(AppendPeers(multiset{}, peers), peers, mac) == multiset{}
  {
    var r := DeletePeers(AppendPeers(multiset{}, peers), peers, mac);
    forall e: (string, string) ensures r[e] == 0 {
      AppendCount(multiset{}, peers, e);
      DeleteCount(AppendPeers(multiset{}, peers), peers, mac, e);
    }
  }

  // ---------- what a BGP shutdown does to the network ----------

  /** Two VTEPs learn each other's routes. */
  ghost predicate Sees(net: N.Net, x: string, y: string) { N.Reach(net, x, y) && N.Reach(net, y, x) }

  ghost predicate Blind(net: N.Net, x: string, y: string) { !N.Reach(net, x, y) && !N.Reach(net, y, x) }

  lemma ShutdownLookups(env: Env, f: Fault, s: Segment, source: Member, destination: Member)
    requires f.kind.BgpPeerShutdown? && ActionOf(env, f).Ok?
    requires FindSegment(env.segs, f.segment) == Some(s) && FaultPair(env.segs, f) == Ok((source, destination))
    ensures AttachedVtep(env, s, source).Some? && AttachedVtep(env, s, destination).Some?
    ensures var x, y := AttachedVtep(env, s, source).value.host, AttachedVtep(env, s, destination).value.host;
            && x in env.plane && F.PeerAddress(env.plane[x].peers, y).Ok?
            && ActionOf(env, f).value == ShutPeer(x, F.PeerAddress(env.plane[x].peers, y).value)
  {
  }

  /** The executor picks the VTEPs next to the two members and a neighbour address between them. */
  lemma ShutdownAction(env: Env, f: Fault) returns (near: Vtep, far: Vtep)
    requires f.kind.BgpPeerShutdown? && ActionOf(env, f).Ok?
    ensures IsBetween(env.hosts, env.segs, f, near, far) && far in C.VtepSet(env.segs)
    ensures near.host in env.plane && F.PeerAddress(env.plane[near.host].peers, far.host).Ok?
    ensures ActionOf(env, f).value == ShutPeer(near.host, F.PeerAddress(env.plane[near.host].peers, far.host).value)
  {
    var s, source, destination := PairFound(env.segs, f);
    PairExactly(env.segs, f, s, source, destination);
    ShutdownLookups(env, f, s, source, destination);
    near, far := AttachedVtep(env, s, source).value, AttachedVtep(env, s, destination).value;
    NextToExactly(env, s, source, near);
    NextToExactly(env, s, destination, far);
  }

  lemma ShutAndBack(w: World, x: string, address: string, vteps: set<string>)
    requires x in vteps && forall p :: p in w.shut ==> p.0 !in vteps
    ensures Inject(w, ShutPeer(x, address)).Ok?
    ensures var (w', u) := Inject(w, ShutPeer(x, address)).value;
            && (x, address) in w'.shut && (forall p :: p in w'.shut && p.0 in vteps ==> p == (x, address))
            && forall p :: p in Restore(w', u).shut ==> p.0 !in vteps
  {
  }

  ghost predicate Separates(pl: R.Plane, x: string, y: string) {
    pl.SameRole(x, y) || pl.reflectors == {x} || pl.reflectors == {y}
  }

  /** The FRR configurations of a running network: those printed for an accepted plane, on VTEPs with distinct
      addresses. */
  ghost predicate Running(env: Env, pl: R.Plane, table: C.Underlays, asn: int, configs: map<string, seq<F.Line>>,
                          who: F.Delivery) {
    && pl.Valid() && pl.routers == table.Keys == configs.Keys && C.IsTable(table, C.VtepSet(env.segs))
    && C.IsResolved(pl, table, env.plane) && F.AllPrint(configs, asn, env.plane)
    && F.AddressesDistinct(table) && F.Delivers(table, who)
  }

  /** A bgp_peer_shutdown fault, from its declaration to the deployed network and back. The executor shuts, on the VTEP
      next to the source, the address of the VTEP next to the destination, and the two then had a session. Injecting
      stops them learning each other's routes exactly when they have the same role or the reflector among them is the
      only one, and otherwise changes nothing about it; restoring makes them learn each other's routes again. */
  lemma ShutdownFault(env: Env, before: World, site: Site, w: World, f: Fault, pl: R.Plane, table: C.Underlays,
                      asn: int, configs: map<string, seq<F.Line>>, who: F.Delivery) returns (near: Vtep, far: Vtep)
    requires f.kind.BgpPeerShutdown? && ActionOf(env, f).Ok?
    requires Deploy(before, site, env.segs, LinuxEvpn) == Ok(w)
    requires VtepHosts(env.segs) <= Elements(site.vteps) && Running(env, pl, table, asn, configs, who)
    ensures IsBetween(env.hosts, env.segs, f, near, far) && pl.Adjacent(near.host, far.host)
    ensures ActionOf(env, f).value == ShutPeer(near.host, far.underlayAddress)
    ensures Inject(w, ActionOf(env, f).value).Ok?
    ensures var (w', u) := Inject(w, ActionOf(env, f).value).value;
            var net, back := F.NetOf(configs, asn, table, who, w'.shut),
                             F.NetOf(configs, asn, table, who, Restore(w', u).shut);
            && (if Separates(pl, near.host, far.host) then Blind(net, near.host, far.host)
                else Sees(net, near.host, far.host))
            && Sees(back, near.host, far.host)
  {
    EvpnShut(before, site, env.segs, w, table.Keys);
    near, far := ShutdownOn(env, w, f, pl, table, asn, configs, who);
  }

  lemma EvpnShut(before: World, site: Site, segs: seq<Segment>, w: World, hosts: set<string>)
    requires Deploy(before, site, segs, LinuxEvpn) == Ok(w) && hosts <= Elements(site.vteps)
    ensures forall p :: p in w.shut ==> p.0 !in hosts
  {
    var roles := Stages(before, site, segs, LinuxEvpn, w);
    assert forall h :: h in site.vteps <==> h in Elements(site.vteps);
  }

  /** The same on any state with nothing shut on the VTEPs. */
  lemma ShutdownOn(env: Env, w: World, f: Fault, pl: R.Plane, table: C.Underlays, asn: int,
                   configs: map<string, seq<F.Line>>, who: F.Delivery) returns (near: Vtep, far: Vtep)
    requires f.kind.BgpPeerShutdown? && ActionOf(env, f).Ok? && Running(env, pl, table, asn, configs, who)
    requires forall p :: p in w.shut ==> p.0 !in table.Keys
    ensures IsBetween(env.hosts, env.segs, f, near, far) && pl.Adjacent(near.host, far.host)
    ensures ActionOf(env, f).value == ShutPeer(near.host, far.underlayAddress)
    ensures Inject(w, ActionOf(env, f).value).Ok?
    ensures var (w', u) := Inject(w, ActionOf(env, f).value).value;
            var net, back := F.NetOf(configs, asn, table, who, w'.shut),
                             F.NetOf(configs, asn, table, who, Restore(w', u).shut);
            && (if Separates(pl, near.host, far.host) then Blind(net, near.host, far.host)
                else Sees(net, near.host, far.host))
            && Sees(back, near.host, far.host)
  {
    near, far := ShutdownAction(env, f);
    var x, y := near.host, far.host;
    F.PeerAddressAdjacent(pl, table, env.plane, x, y);
    ShutAndBack(w, x, table[y].address, table.Keys);
    var (w', u) := Inject(w, ActionOf(env, f).value).value;
    F.NothingShut(pl, table, env.plane, asn, configs, who, Restore(w', u).shut, x, y);
    F.ShutdownImpact(pl, table, env.plane, asn, configs, who, w'.shut, x, y);
  }
}
