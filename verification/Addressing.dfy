/** The addresses the plays leave on interfaces other than VLAN interfaces
    (ansible/roles/vxlan-test/tasks/main.yml). */
module Addressing {
  import opened Text
  import opened Topology
  import opened FaultState
  import opened FaultSetup
  import opened Deployment
  import P = Ports

  // ---------- client LANs ----------

  /** m is an access member on the given interface. */
  predicate Sits(ifaces: Ifaces, m: Member, h: string, dev: string) {
    m.host == h && m.mode != "trunk" && (h, m.mac) in ifaces && ifaces[(h, m.mac)] == dev
  }

  /** Member k is the last access member on the interface; -1 if there is none. */
  predicate IsLastOn(ifaces: Ifaces, ms: seq<Member>, h: string, dev: string, k: int) {
    && -1 <= k < |ms| && (k >= 0 ==> Sits(ifaces, ms[k], h, dev))
    && forall j :: k < j < |ms| ==> !Sits(ifaces, ms[j], h, dev)
  }

  function AddrsAt(links: map<Dev, Link>, d: Dev): set<string> { if d in links then links[d].addrs else {} }

  lemma MemberAddress(links: map<Dev, Link>, ifaces: Ifaces, m: Member, dev: string)
    requires PlainIfaces(ifaces) && '.' !in dev && ConfigureMember(links, ifaces, m).Ok? && (m.host, dev) in links
    ensures var after, d := ConfigureMember(links, ifaces, m).value, (m.host, dev);
            && d in after && (UpAt(links, d) ==> UpAt(after, d))
            && (if Sits(ifaces, m, m.host, dev) then AddrsAt(after, d) == {m.ip} && UpAt(after, d)
                else AddrsAt(after, d) == AddrsAt(links, d))
  {
    var base := ifaces[(m.host, m.mac)];
    if m.mode == "trunk" {
      SubIfUnique(base, m.vlan.id, dev, 0);
    }
  }

  /** After the client part an interface has just the address of the last access member on it, and is up; one without
      access members keeps its addresses. */
  lemma {:induction false} ClientAddresses(links: map<Dev, Link>, ifaces: Ifaces, h: string, ms: seq<Member>,
                                           dev: string, k: int)
    requires PlainIfaces(ifaces) && '.' !in dev && ConfigureMembers(links, ifaces, h, ms).Ok? && (h, dev) in links
    requires IsLastOn(ifaces, ms, h, dev, k)
    ensures var after, d := ConfigureMembers(links, ifaces, h, ms).value, (h, dev);
            && d in after && (UpAt(links, d) || k >= 0 ==> UpAt(after, d))
            && AddrsAt(after, d) == if k >= 0 then {ms[k].ip} else AddrsAt(links, d)
    decreases ms
  {
    if ms != [] {
      assert forall j :: 0 < j < |ms| ==> ms[j] == ms[1..][j - 1];
      var rest := if k <= 0 then -1 else k - 1;
      if ms[0].host != h {
        ClientAddresses(links, ifaces, h, ms[1..], dev, rest);
      } else {
        MemberAddress(links, ifaces, ms[0], dev);
        ClientAddresses(ConfigureMember(links, ifaces, ms[0]).value, ifaces, h, ms[1..], dev, rest);
      }
    }
  }

  // ---------- VTEPs ----------

  /** A VTEP on the host bridges the interface as one of its local NICs. */
  predicate BridgesIt(ifaces: Ifaces, s: Segment, h: string, dev: string) {
    exists v, n :: v in s.vteps && v.host == h && n in v.localNics && (h, n.mac) in ifaces && ifaces[(h, n.mac)] == dev
  }

  predicate RunsOver(ifaces: Ifaces, v: Vtep, h: string, dev: string) {
    v.host == h && (h, v.underlayMac) in ifaces && ifaces[(h, v.underlayMac)] == dev
  }

  /** The underlay addresses declared for VTEPs over the interface. */
  function UnderlaysOver(ifaces: Ifaces, segs: seq<Segment>, h: string, dev: string): set<string> {
    set s, v | s in segs && v in s.vteps && RunsOver(ifaces, v, h, dev) :: v.underlayIp
  }

  predicate IsRaised(ifaces: Ifaces, h: string, nics: seq<Nic>, dev: string) {
    exists n :: n in nics && (h, n.mac) in ifaces && ifaces[(h, n.mac)] == dev
  }

  lemma {:induction false} RaisedAddresses(links: map<Dev, Link>, ifaces: Ifaces, h: string, nics: seq<Nic>,
                                           dev: string)
    requires RaiseLocal(links, ifaces, h, nics).Ok? && (h, dev) in links
    ensures var after, d := RaiseLocal(links, ifaces, h, nics).value, (h, dev);
            && d in after && (UpAt(links, d) || IsRaised(ifaces, h, nics, dev) ==> UpAt(after, d))
            && AddrsAt(after, d) == if IsRaised(ifaces, h, nics, dev) then {} else AddrsAt(links, d)
    decreases nics
  {
    RaiseGetsThrough(links, ifaces, h, nics);
    if nics != [] {
      assert nics[0] in nics && forall n :: n in nics <==> n == nics[0] || n in nics[1..];
      var d := (h, ifaces[(h, nics[0].mac)]);
      RaisedAddresses(SetUp(Flush(links, d), d, true), ifaces, h, nics[1..], dev);
    }
  }

  /** One segment on one host, on Linux: a local NIC loses its addresses, an underlay gains the declared one. */
  lemma VtepAddresses(w: World, ifaces: Ifaces, h: string, s: Segment, mode: Mode, dev: string)
    requires ConfigureVtep(w, ifaces, h, s, mode).Ok? && !mode.Dpdk? && (h, dev) in w.links
    requires P.OneVtepPerHost(s.vteps)
    ensures var after, d := ConfigureVtep(w, ifaces, h, s, mode).value.links, (h, dev);
            && d in after
            && AddrsAt(after, d) == if BridgesIt(ifaces, s, h, dev) then {}
                                    else AddrsAt(w.links, d) + UnderlaysOver(ifaces, [s], h, dev)
  {
    VtepGetsThrough(w, ifaces, h, s, mode);
    var local := P.FirstOn(s.vteps, h);
    forall v | v in s.vteps && v.host == h ensures local == Some(v) {
      P.OnlyOne(s.vteps, v, local.value);
    }
    if local.Some? {
      var v := local.value;
      var under := (h, ifaces[(h, v.underlayMac)]);
      var added := SetUp(AddAddr(w.links, under, v.underlayIp), under, true);
      RaisedAddresses(added, ifaces, h, v.localNics, dev);
      assert UnderlaysOver(ifaces, [s], h, dev) == if under.1 == dev then {v.underlayIp} else {};
    } else {
      assert UnderlaysOver(ifaces, [s], h, dev) == {};
    }
  }

  lemma VtepRaises(w: World, ifaces: Ifaces, h: string, s: Segment, mode: Mode, dev: string)
    requires ConfigureVtep(w, ifaces, h, s, mode).Ok? && (h, dev) in w.links && P.OneVtepPerHost(s.vteps)
    ensures UpAt(w.links, (h, dev)) || BridgesIt(ifaces, s, h, dev) ==>
              UpAt(ConfigureVtep(w, ifaces, h, s, mode).value.links, (h, dev))
  {
    var local := P.FirstOn(s.vteps, h);
    if local.Some? {
      var under := (h, ifaces[(h, local.value.underlayMac)]);
      var addressed := if mode.Dpdk? then Flush(w.links, under) else AddAddr(w.links, under, local.value.underlayIp);
      RaisedAddresses(SetUp(addressed, under, true), ifaces, h, local.value.localNics, dev);
      forall v | v in s.vteps && v.host == h ensures v == local.value { P.OnlyOne(s.vteps, v, local.value); }
    }
  }

  lemma UnderlaysMore(ifaces: Ifaces, segs: seq<Segment>, h: string, dev: string)
    requires segs != []
    ensures UnderlaysOver(ifaces, segs, h, dev) ==
            UnderlaysOver(ifaces, [segs[0]], h, dev) + UnderlaysOver(ifaces, segs[1..], h, dev)
  {
    assert segs[0] in segs && forall s :: s in segs <==> s == segs[0] || s in segs[1..];
  }

  /** After the VTEP part on Linux, an interface that no VTEP bridges has gained exactly the underlay addresses declared
      for VTEPs over it. */
  lemma {:induction false} VtepsAddresses(w: World, ifaces: Ifaces, h: string, segs: seq<Segment>, mode: Mode,
                                          dev: string)
    requires ConfigureVteps(w, ifaces, h, segs, mode).Ok? && !mode.Dpdk? && (h, dev) in w.links
    requires forall s :: s in segs ==> P.OneVtepPerHost(s.vteps) && !BridgesIt(ifaces, s, h, dev)
    ensures var after, d := ConfigureVteps(w, ifaces, h, segs, mode).value.links, (h, dev);
            d in after && AddrsAt(after, d) == AddrsAt(w.links, d) + UnderlaysOver(ifaces, segs, h, dev)
    decreases segs
  {
    if segs != [] {
      assert segs[0] in segs && forall s :: s in segs[1..] ==> s in segs;
      VtepAddresses(w, ifaces, h, segs[0], mode, dev);
      VtepsAddresses(ConfigureVtep(w, ifaces, h, segs[0], mode).value, ifaces, h, segs[1..], mode, dev);
      UnderlaysMore(ifaces, segs, h, dev);
    }
  }

  /** One that a VTEP bridges and none runs over is up and has no address left. */
  lemma {:induction false} BridgedAddresses(w: World, ifaces: Ifaces, h: string, segs: seq<Segment>, mode: Mode,
                                            dev: string)
    requires ConfigureVteps(w, ifaces, h, segs, mode).Ok? && !mode.Dpdk? && (h, dev) in w.links
    requires (forall s :: s in segs ==> P.OneVtepPerHost(s.vteps)) && UnderlaysOver(ifaces, segs, h, dev) == {}
    requires (AddrsAt(w.links, (h, dev)) == {} && UpAt(w.links, (h, dev)))
             || exists s :: s in segs && BridgesIt(ifaces, s, h, dev)
    ensures var after, d := ConfigureVteps(w, ifaces, h, segs, mode).value.links, (h, dev);
            UpAt(after, d) && AddrsAt(after, d) == {}
    decreases segs
  {
    if segs != [] {
      assert segs[0] in segs && forall s :: s in segs <==> s == segs[0] || s in segs[1..];
      VtepAddresses(w, ifaces, h, segs[0], mode, dev);
      VtepRaises(w, ifaces, h, segs[0], mode, dev);
      UnderlaysMore(ifaces, segs, h, dev);
      BridgedAddresses(ConfigureVtep(w, ifaces, h, segs[0], mode).value, ifaces, h, segs[1..], mode, dev);
    }
  }

  // ---------- the whole role, on all hosts ----------

  /** What an interface that no VTEP bridges is to have: the address of the last access member on it, or else what it
      had before, and the underlay addresses declared for VTEPs over it. */
  function Intended(w: World, ifaces: Ifaces, segs: seq<Segment>, h: string, dev: string, k: int): set<string>
    requires k < |AllMembers(segs)|
  {
    (if k >= 0 then {AllMembers(segs)[k].ip} else AddrsAt(w.links, (h, dev))) + UnderlaysOver(ifaces, segs, h, dev)
  }

  lemma RoleAddresses(w: World, ifaces: Ifaces, h: string, segs: seq<Segment>, mode: Mode, dev: string, k: int)
    requires PlainIfaces(ifaces) && '.' !in dev && RoleOn(w, ifaces, h, segs, mode).Ok? && !mode.Dpdk?
    requires (h, dev) in w.links && IsLastOn(ifaces, AllMembers(segs), h, dev, k)
    requires forall s :: s in segs ==> P.OneVtepPerHost(s.vteps) && !BridgesIt(ifaces, s, h, dev)
    ensures var after := RoleOn(w, ifaces, h, segs, mode).value.links;
            (h, dev) in after && AddrsAt(after, (h, dev)) == Intended(w, ifaces, segs, h, dev, k)
  {
    var clients := ConfigureMembers(w.links, ifaces, h, AllMembers(segs)).value;
    ClientAddresses(w.links, ifaces, h, AllMembers(segs), dev, k);
    VtepsAddresses(w.(links := clients), ifaces, h, segs, mode, dev);
  }

  lemma {:induction false} RolesAddresses(w: World, ifaces: Ifaces, hs: seq<string>, segs: seq<Segment>, mode: Mode,
                                          h: string, dev: string, k: int, given: set<string>)
    requires PlainIfaces(ifaces) && '.' !in dev && RoleOnAll(w, ifaces, hs, segs, mode).Ok? && !mode.Dpdk?
    requires (h, dev) in w.links && IsLastOn(ifaces, AllMembers(segs), h, dev, k)
    requires forall s :: s in segs ==> P.OneVtepPerHost(s.vteps) && !BridgesIt(ifaces, s, h, dev)
    requires Intended(w, ifaces, segs, h, dev, k) == given
    requires h in hs || AddrsAt(w.links, (h, dev)) == given
    ensures var after := RoleOnAll(w, ifaces, hs, segs, mode).value.links;
            (h, dev) in after && AddrsAt(after, (h, dev)) == given
    decreases hs
  {
    if hs != [] {
      var next := RoleOn(w, ifaces, hs[0], segs, mode).value;
      RoleFrame(w, ifaces, hs[0], segs, mode);
      if hs[0] == h {
        RoleAddresses(w, ifaces, h, segs, mode, dev, k);
      }
      RolesAddresses(next, ifaces, hs[1..], segs, mode, h, dev, k, given);
    }
  }

  /** After the plays on Linux, on hosts in any order and any number of times: an interface of a host they ran on has,
      unless a VTEP bridges it, exactly the address of the last access member on it, or else what it had before, and the
      underlay addresses declared for VTEPs over it. */
  lemma DeployedAddresses(env: Env, raw: Declared, evpn: bool, before: World, site: Site, w: World, h: string,
                          dev: string, k: int)
    requires Prepared(env, raw, before, site) && Deployed(env, evpn, before, site, w) && !env.dpdk
    requires h in site.all && '.' !in dev && (h, dev) in before.links
    requires IsLastOn(site.ifaces, AllMembers(env.segs), h, dev, k)
    requires forall s :: s in env.segs ==> !BridgesIt(site.ifaces, s, h, dev)
    ensures (h, dev) in w.links && w.links[(h, dev)].addrs ==
            (if k >= 0 then {AllMembers(env.segs)[k].ip} else before.links[(h, dev)].addrs)
            + UnderlaysOver(site.ifaces, env.segs, h, dev)
  {
    var mode := ModeOf(env.dpdk, evpn);
    CheckedSegments(env, raw);
    var roles := Stages(before, site, env.segs, mode, w);
    RolesAddresses(before, site.ifaces, site.all, env.segs, mode, h, dev, k,
                   Intended(before, site.ifaces, env.segs, h, dev, k));
  }
}
