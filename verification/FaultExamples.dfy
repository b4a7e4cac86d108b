/** Accepted faults on deployed testbeds with which the fault protocol does not do what its flags say, or nothing at all
    (tests/test_fault_injection.py). */
module FaultExamples {
  import opened Text
  import opened Topology
  import opened Examples
  import opened FaultChecks
  import opened FaultState
  import opened FaultSetup
  import opened Deployment
  import opened FaultDriver
  import opened ManagementIps
  import S = RunState
  import P = Ports
  import C = ControlPlane

  // ---------- a small testbed ----------

  const SITE := Site(map[("a", "m") := "e", ("b", "m") := "e"], map[], ["a", "b"], ["a", "b"])
  const BEFORE := World(map[("a", "e") := Link(1500, false, {}), ("b", "e") := Link(1500, false, {})], map[], map[], {})

  function EnvOf(segs: seq<Segment>, file: S.TopoFile): Env {
    Env(TWO_HOSTS, segs, map[], SITE.ifaces, false, map[], file)
  }

  function FileWith(ip: string): S.TopoFile {
    S.TopoFile(1, map["a" := S.HostRec(1, "pulsar-1-a", "9"), "b" := S.HostRec(2, "pulsar-1-b", ip)], "", map[])
  }

  /** Everything is on the one NIC of each host, and trunk members have a VLAN. */
  predicate Simple(segs: seq<Segment>) {
    forall s :: s in segs ==>
      && (forall v :: v in s.vteps ==> (v.host == "a" || v.host == "b") && v.underlayMac == "m" && v.localNics == [])
      && (forall m :: m in s.members ==>
            (m.host == "a" || m.host == "b") && m.mac == "m" && (m.mode == "trunk" ==> m.vlan.Vlan?))
  }

  lemma PairSimple(name: string, vni: int, p: string, q: string, ms: seq<RawMember>)
    requires PairOk(name, vni, p, q, ms)
    ensures Simple([PairOf(name, vni, p, q, ms)])
  {
    forall m | m in LoweredOf(ms)
      ensures (m.host == "a" || m.host == "b") && m.mac == "m" && (m.mode == "trunk" ==> m.vlan.Vlan?)
    {
      var i :| 0 <= i < |ms| && LoweredOf(ms)[i] == m;
      assert Plain(ms[i]);
    }
  }

  lemma SiteReady(segs: seq<Segment>)
    requires Simple(segs)
    ensures PlainIfaces(SITE.ifaces) && IfacesExist(SITE.ifaces, BEFORE.links)
    ensures forall h :: h in SITE.all ==> HostServed(SITE.ifaces, h, segs)
  {
    forall k | k in SITE.ifaces ensures '.' !in SITE.ifaces[k] && (k.0, SITE.ifaces[k]) in BEFORE.links {
      assert k == ("a", "m") || k == ("b", "m");
    }
    forall m | m in AllMembers(segs) ensures MemberServed(SITE.ifaces, m) {
      MemberOf(segs, m);
    }
  }

  lemma {:induction false} MemberOf(segs: seq<Segment>, m: Member)
    requires m in AllMembers(segs)
    ensures exists s :: s in segs && m in s.members
  {
    if m !in segs[0].members { MemberOf(segs[1..], m); }
  }

  lemma NoZeroMac()
    ensures HostsNamed(TWO_HOSTS)
    ensures forall h, x :: NicOf(TWO_HOSTS, h, x).Some? ==> NicOf(TWO_HOSTS, h, x).value.mac != ZERO_MAC
  {
    forall h, x | NicOf(TWO_HOSTS, h, x).Some? ensures NicOf(TWO_HOSTS, h, x).value.mac != ZERO_MAC {
      assert NicOf(TWO_HOSTS, h, x).value in [NIC];
      assert |"m"| != |ZERO_MAC|;
    }
  }

  lemma Covered(segs: seq<Segment>)
    requires Simple(segs)
    ensures forall s, v :: s in segs && v in s.vteps ==> v.host in SITE.all
    ensures forall m :: m in AllMembers(segs) ==> m.host in SITE.all
    ensures VtepHosts(segs) <= Elements(SITE.vteps)
  {
    assert "a" in SITE.all && "b" in SITE.all && "a" in SITE.vteps && "b" in SITE.vteps;
    forall m | m in AllMembers(segs) ensures m.host in SITE.all {
      MemberOf(segs, m);
    }
  }

  /** The plays get through on it. */
  lemma SimpleDeployed(raw: Declared, segs: seq<Segment>, file: S.TopoFile) returns (w: World)
    requires Simple(segs) && ValidSegments(TWO_HOSTS, raw) && Lowered(TWO_HOSTS, raw, segs)
    ensures Prepared(EnvOf(segs, file), raw, BEFORE, SITE) && Deployed(EnvOf(segs, file), false, BEFORE, SITE, w)
    ensures ("a", "e") in w.links && w.links[("a", "e")].mtu == 1500
  {
    SiteReady(segs);
    NoZeroMac();
    Covered(segs);
    DeployGetsThrough(BEFORE, SITE, segs, LinuxStatic);
    w := Deploy(BEFORE, SITE, segs, LinuxStatic).value;
    RolesShut(BEFORE, SITE.ifaces, SITE.all, segs, LinuxStatic);
    assert ("a", "e") in BEFORE.links;
    assert Reported(SITE.ifaces, w.links) == SITE.ifaces;
  }

  /** A fault accepted for a testbed deployed from a checked topology, about to be injected. */
  ghost predicate OnDeployed(raw: Declared, env: Env, before: World, site: Site, w: World, f: Fault) {
    && Prepared(env, raw, before, site) && Deployed(env, false, before, site, w)
    && FaultOk(env.segs, false, f)
  }

  lemma PairFound(segs: seq<Segment>, s: Segment, f: Fault, m: Member, n: Member)
    requires FindSegment(segs, f.segment) == Some(s) && IsName(f.name) && f.recoverTimeout.None?
    requires s.members == [m, n] && m.Key() != n.Key() && f.pairs == [Pair(m.Key(), n.Key())]
    requires f.kind.MtuMismatch? || (f.kind.VlanMismatch? && m.mode == "trunk" && f.faultVlan.Absent?)
    ensures FaultOk(segs, false, f) && FaultPair(segs, f) == Ok((m, n))
  {
    assert s.members[..1] == [m] && [m][..0] == [];
    assert MemberMap([m]) == map[m.Key() := m];
    assert MemberMap(s.members) == map[m.Key() := m, n.Key() := n];
    assert m in s.members && n in s.members;
    if f.kind.VlanMismatch? { VlanFaultByDict(s, f); }
  }

  // ---------- an MTU fault ----------

  function MtuMembers(ip: string): seq<RawMember> {
    [RawMember("a", "u", "3", None, Absent), RawMember("b", "u", ip, None, Absent)]
  }

  const MTU_FAULT := Fault("x", MtuMismatch, "t", [Pair("a.u", "b.u")], Outage, Absent, None)

  /** It is to lower the MTU of an interface that has another. */
  predicate LowersMtu(env: Env, w: World, f: Fault) {
    && FaultPair(env.segs, f).Ok? && f.impact == Outage
    && ActionOf(env, f) == Ok(LowerMtu("a", "e")) && ("a", "e") in w.links && w.links[("a", "e")].mtu == 1500
  }

  lemma MtuFaultFound(s: Segment, ip: string, file: S.TopoFile)
    requires s == PairOf("t", 1, "1", "2", MtuMembers(ip))
    ensures FaultOk([s], false, MTU_FAULT) && FaultPair([s], MTU_FAULT).Ok?
    ensures FaultPair([s], MTU_FAULT).value.1.ip == ip
    ensures ActionOf(EnvOf([s], file), MTU_FAULT) == Ok(LowerMtu("a", "e"))
  {
    var m, n := s.members[0], s.members[1];
    assert s.members == [m, n] && m.Key() == "a.u" && n.Key() == "b.u";
    assert m.Key()[0] == 'a' && n.Key()[0] == 'b';
    PairFound([s], s, MTU_FAULT, m, n);
  }

  lemma MtuExample(ip: string, file: S.TopoFile)
    returns (raw: Declared, env: Env, before: World, site: Site, w: World, f: Fault)
    requires ip != ""
    ensures env.file == file && OnDeployed(raw, env, before, site, w, f) && LowersMtu(env, w, f)
    ensures FaultPair(env.segs, f).value.1.ip == ip
  {
    before, site, f := BEFORE, SITE, MTU_FAULT;
    var ms := MtuMembers(ip);
    raw := [("t", RawPair(1, "1", "2", ms))];
    var s := PairOf("t", 1, "1", "2", ms);
    env := EnvOf([s], file);
    OneAccepted("t", 1, "1", "2", ms);
    PairSimple("t", 1, "1", "2", ms);
    w := SimpleDeployed(raw, [s], file);
    MtuFaultFound(s, ip, file);
  }

  /** The checking passes accept any non-empty address text: here a fault whose destination address is not one at all,
      so that the driver records nothing although every host has a management address. */
  lemma UnparsedAddressAccepted(o: Outside)
    returns (raw: Declared, env: Env, before: World, site: Site, w: World, f: Fault)
    ensures OnDeployed(raw, env, before, site, w, f) && AllAddressed(env.file)
    ensures o.parses("unset") <==> SetupOk(env, f, o)
  {
    var file := FileWith("9");
    assert AllAddressed(file);
    raw, env, before, site, w, f := MtuExample("unset", file);
  }

  /** A host without a management address keeps every accepted fault from being recorded, whatever parses. */
  lemma UnaddressedNotRecorded(o: Outside)
    returns (raw: Declared, env: Env, before: World, site: Site, w: World, f: Fault)
    ensures OnDeployed(raw, env, before, site, w, f) && FaultPair(env.segs, f).Ok? && !SetupOk(env, f, o)
  {
    var file := FileWith("");
    assert "b" in file.hosts && !AllAddressed(file);
    raw, env, before, site, w, f := MtuExample("4", file);
  }

  // ---------- any fault that changes something ----------

  /** The fault is there to be injected and changes something. */
  predicate Effective(env: Env, w: World, f: Fault) {
    && AllAddressed(env.file) && FaultPair(env.segs, f).Ok?
    && ActionOf(env, f).Ok? && Inject(w, ActionOf(env, f).value).Ok?
    && WellFormed(w, ActionOf(env, f).value) && !Inert(w, ActionOf(env, f).value)
  }

  /** The fault of the MTU example is effective. */
  lemma MtuEffective(env: Env, w: World, f: Fault)
    requires LowersMtu(env, w, f) && AllAddressed(env.file)
    ensures Effective(env, w, f)
  {
  }

  /** restored does not imply undone, nor does recovered: whatever the fault, if it changes something and its undo then
      fails unnoticed without effect, a test can be reported restored and recovered and end in another state. */
  lemma RestoredNotUndone(env: Env, w: World, f: Fault) returns (o: Outside)
    requires Effective(env, w, f)
    ensures SetupOk(env, f, o) && Restored(env, f, o, w) && Recovered(env, f, o, w) && Ends(env, f, o, w) != w
  {
    var a := ActionOf(env, f).value;
    var injected := Inject(w, a).value.0;
    InertExactly(w, a);
    o := Outside(x => true, [Code(0)], Returns, Code(if f.impact.Outage? then 1 else 0), FailsSilently(injected),
                 [Code(0)]);
    assert o.before[0] == Code(0) && o.after[0] == Code(0);
  }

  /** Whatever the fault, if it changes something and its injector raises after its commands took effect, the result
      says not restored, nothing is undone, and the fault stays in place. */
  lemma RaisedStays(env: Env, w: World, f: Fault) returns (o: Outside)
    requires Effective(env, w, f)
    ensures SetupOk(env, f, o) && Recovers(o.before) && !Restored(env, f, o, w)
    ensures InPlace(w, ActionOf(env, f).value, Ends(env, f, o, w)) && Ends(env, f, o, w) != w
  {
    var a := ActionOf(env, f).value;
    var injected := Inject(w, a).value.0;
    InertExactly(w, a);
    InjectionInPlace(w, a);
    o := Outside(x => true, [Code(0)], Raises(injected), Code(1), TakesEffect, [Code(0)]);
    assert o.before[0] == Code(0);
  }

  // ---------- a VLAN fault ----------

  const FIRST: seq<RawMember> := [RawMember("a", "u", "3", Some("trunk"), Vlan(10)),
                                  RawMember("b", "u", "4", None, Absent)]
  const SECOND: seq<RawMember> := [RawMember("a", "u", "5", Some("trunk"), Vlan(10))]
  const VLAN_FAULT := Fault("x", VlanMismatch, "s", [Pair("a.u", "b.u")], Outage, Absent, None)

  lemma VlanFaultFound(segs: seq<Segment>, s: Segment, m: Member, n: Member, file: S.TopoFile)
    requires FindSegment(segs, "s") == Some(s) && s.members == [m, n]
    requires m == Member("a", "u", "m", "trunk", Vlan(10), "3") && n.host == "b" && n.nic == "u"
    ensures FaultOk(segs, false, VLAN_FAULT)
    ensures ActionOf(EnvOf(segs, file), VLAN_FAULT) == Ok(MoveVlan("a", "e", 10, 11, "3"))
  {
    assert m.Key() == "a.u" && n.Key() == "b.u";
    assert m.Key()[0] == 'a' && n.Key()[0] == 'b';
    PairFound(segs, s, VLAN_FAULT, m, n);
  }

  lemma LastIsSecond(segs: seq<Segment>, s: Segment, t: Segment, l: Member, m: Member, n: Member)
    requires segs == [s, t] && s.members == [l, m] && t.members == [n]
    requires l == Member("a", "u", "m", "trunk", Vlan(10), "3") && m.mode == "access"
    requires n == Member("a", "u", "m", "trunk", Vlan(10), "5")
    ensures LastIp(SITE.ifaces, AllMembers(segs), "a", "e", 10, None) == Some("5")
  {
    assert segs[1..] == [t] && [t][1..] == [];
    assert AllMembers([t]) == [n] + AllMembers([]) && AllMembers([t]) == [n];
    assert AllMembers(segs) == [l, m] + [n] && [l, m] + [n] == [l, m, n];
    assert [l, m, n][1..] == [m, n] && [m, n][1..] == [n] && [n][1..] == [];
    assert LastIp(SITE.ifaces, [n], "a", "e", 10, Some("3")) == LastIp(SITE.ifaces, [], "a", "e", 10, Some("5"));
    assert LastIp(SITE.ifaces, [m, n], "a", "e", 10, Some("3")) == LastIp(SITE.ifaces, [n], "a", "e", 10, Some("3"));
  }

  /** Two segments with such members. */
  lemma VlanSegments() returns (raw: Declared, s: Segment, t: Segment)
    ensures ValidSegments(TWO_HOSTS, raw) && Lowered(TWO_HOSTS, raw, [s, t]) && Simple([s, t]) && s.name == "s"
    ensures s.members == [Member("a", "u", "m", "trunk", Vlan(10), "3"), Member("b", "u", "m", "access", Null, "4")]
    ensures t.members == [Member("a", "u", "m", "trunk", Vlan(10), "5")]
  {
    VlanMembers();
    raw := [("s", RawPair(1, "1", "2", FIRST)), ("t", RawPair(2, "1", "2", SECOND))];
    s, t := PairOf("s", 1, "1", "2", FIRST), PairOf("t", 2, "1", "2", SECOND);
    TwoAccepted("s", 1, FIRST, "t", 2, SECOND, "1", "2");
    PairSimple("s", 1, "1", "2", FIRST);
    PairSimple("t", 2, "1", "2", SECOND);
    BothSimple(s, t);
  }

  lemma VlanMembers()
    ensures LoweredOf(FIRST) ==
            [Member("a", "u", "m", "trunk", Vlan(10), "3"), Member("b", "u", "m", "access", Null, "4")]
    ensures LoweredOf(SECOND) == [Member("a", "u", "m", "trunk", Vlan(10), "5")]
    ensures forall m :: m in FIRST + SECOND ==> Plain(m)
  {
  }

  lemma BothSimple(s: Segment, t: Segment)
    requires Simple([s]) && Simple([t])
    ensures Simple([s, t])
  {
    assert s in [s] && t in [t];
  }

  lemma VlanExample()
    returns (raw: Declared, env: Env, before: World, site: Site, w: World, f: Fault)
    ensures OnDeployed(raw, env, before, site, w, f) && ActionOf(env, f) == Ok(MoveVlan("a", "e", 10, 11, "3"))
    ensures LastIp(site.ifaces, AllMembers(env.segs), "a", "e", 10, None) == Some("5")
  {
    before, site, f := BEFORE, SITE, VLAN_FAULT;
    var file := FileWith("9");
    var s, t;
    raw, s, t := VlanSegments();
    env := EnvOf([s, t], file);
    w := SimpleDeployed(raw, [s, t], file);
    VlanFaultFound([s, t], s, s.members[0], s.members[1], file);
    LastIsSecond([s, t], s, t, s.members[0], s.members[1], t.members[0]);
  }

  /** Two segments whose trunk members share a NIC and a VLAN but not an address: the VLAN interface carries the second
      one's, so the undo of a VLAN fault on the first one's leaves it with the wrong address. */
  lemma SharedVlanNotUndone()
    returns (raw: Declared, env: Env, before: World, site: Site, w: World, f: Fault)
    ensures OnDeployed(raw, env, before, site, w, f) && ActionOf(env, f).Ok?
    ensures Inject(w, ActionOf(env, f).value).Ok? && !Undoable(site, env.segs, before, ActionOf(env, f).value)
    ensures !Comes(w, ActionOf(env, f).value)
  {
    raw, env, before, site, w, f := VlanExample();
    DeployedFaultUndone(env, raw, false, before, site, w, f);
  }

  // ---------- a flood list removal that did nothing ----------

  lemma OtherVtep(s: Segment, h: string)
    requires |s.vteps| >= 2 && P.OneVtepPerHost(s.vteps)
    ensures OtherAddresses(s.vteps, h) != []
  {
    var v := if s.vteps[0].host != h then s.vteps[0] else s.vteps[1];
    assert s.vteps[0].host != h || s.vteps[1].host != h;
    ScanAgrees(s.vteps, h);
    AddressOf(P.PeersOf(s.vteps, h), v);
  }

  lemma TwoVteps(env: Env, raw: Declared, s: Segment)
    requires ValidSegments(env.hosts, raw) && Lowered(env.hosts, raw, env.segs) && s in env.segs
    ensures |s.vteps| >= 2 && P.OneVtepPerHost(s.vteps)
  {
    CheckedSegments(env, raw);
    var i :| 0 <= i < |env.segs| && env.segs[i] == s;
    assert LoweredSegment(env.hosts, raw[i].0, raw[i].1, s) && SegmentOk(env.hosts, raw[i].0, raw[i].1);
  }

  /** A flood list removal whose deletions all fail unnoticed, on any deployed Linux testbed under static control: the
      test is reported restored, and its undo has duplicated the flood list. */
  lemma SilentRemovalDuplicates(env: Env, raw: Declared, before: World, site: Site, w: World, f: Fault, o: Outside)
    requires Prepared(env, raw, before, site) && Deployed(env, false, before, site, w) && !env.dpdk
    requires FaultOk(env.segs, false, f) && f.kind.RemoveFdbPeer? && ActionOf(env, f).Ok?
    requires SetupOk(env, f, o) && Restored(env, f, o, w) && o.injection == ReturnsAnyway(w) && o.undoing.TakesEffect?
    ensures Ends(env, f, o, w) != w
  {
    DeployedFaultUndone(env, raw, false, before, site, w, f);
    RestoredExactly(env, f, o, w);
    var s, near, far, mac := ActionAtVtep(env, false, f);
    OneVtepDeployed(env, raw, false, before, site, w, s, near);
    TwoVteps(env, raw, s);
    OtherVtep(s, near.host);
    assert !UndoHarmless(w, ActionOf(env, f).value);
  }
}
