/** Which device a declared fault is injected at, said without the executor's lookups
    (tests/test_fault_injection.py). */
module FaultTargets {
  import opened Text
  import opened Topology
  import opened FaultChecks
  import opened FaultState
  import opened FaultSetup
  import C = ControlPlane
  import F = FrrConfig
  import P = Ports

  // ---------- the ends of a fault and the VTEPs next to them ----------

  /** Segment k is the first of its name. */
  predicate IsSegmentAt(segs: seq<Segment>, name: string, k: int) {
    0 <= k < |segs| && segs[k].name == name && forall j :: 0 <= j < k ==> segs[j].name != name
  }

  ghost predicate IsSegmentOf(segs: seq<Segment>, f: Fault, s: Segment) {
    exists k :: IsSegmentAt(segs, f.segment, k) && segs[k] == s
  }

  /** m is the last of the segment's members under a name. */
  ghost predicate IsEnd(s: Segment, key: string, m: Member) {
    exists k :: 0 <= k < |s.members| && s.members[k] == m && m.host + "." + m.nic == key
                && forall j :: k < j < |s.members| ==> s.members[j].host + "." + s.members[j].nic != key
  }

  ghost predicate IsPair(segs: seq<Segment>, f: Fault, s: Segment, source: Member, destination: Member) {
    && IsSegmentOf(segs, f, s) && |f.pairs| == 1
    && IsEnd(s, f.pairs[0].source, source) && IsEnd(s, f.pairs[0].destination, destination)
  }

  /** VTEP k is the first with a local NIC on a network. */
  predicate IsServerAt(vteps: seq<Vtep>, network: string, k: int) {
    && 0 <= k < |vteps| && (exists n :: n in vteps[k].localNics && n.network == network)
    && forall j, n :: 0 <= j < k && n in vteps[j].localNics ==> n.network != network
  }

  /** v is the first VTEP of the segment with a local NIC on the network of the member's NIC. */
  ghost predicate IsNextTo(hosts: Hosts, s: Segment, m: Member, v: Vtep) {
    var nic := NicOf(hosts, m.host, m.nic);
    nic.Some? && exists k :: IsServerAt(s.vteps, nic.value.network, k) && s.vteps[k] == v
  }

  /** near and far are the VTEPs next to the fault's source and to its destination. */
  ghost predicate IsBetween(hosts: Hosts, segs: seq<Segment>, f: Fault, near: Vtep, far: Vtep) {
    exists s, source, destination ::
      && IsPair(segs, f, s, source, destination)
      && IsNextTo(hosts, s, source, near) && IsNextTo(hosts, s, destination, far)
  }

  lemma {:induction false} SegmentAt(segs: seq<Segment>, name: string) returns (k: nat)
    requires FindSegment(segs, name).Some?
    ensures IsSegmentAt(segs, name, k) && FindSegment(segs, name) == Some(segs[k])
  {
    k := 0;
    if segs[0].name != name {
      var rest := SegmentAt(segs[1..], name);
      k := rest + 1;
      assert forall j :: 0 < j < k ==> segs[j] == segs[1..][j - 1];
    }
  }

  lemma {:induction false} SegmentFound(segs: seq<Segment>, name: string, k: nat)
    requires IsSegmentAt(segs, name, k)
    ensures FindSegment(segs, name) == Some(segs[k])
  {
    if k > 0 { SegmentFound(segs[1..], name, k - 1); }
  }

  lemma SegmentExactly(segs: seq<Segment>, f: Fault, s: Segment)
    ensures FindSegment(segs, f.segment) == Some(s) <==> IsSegmentOf(segs, f, s)
  {
    if FindSegment(segs, f.segment).Some? {
      var k := SegmentAt(segs, f.segment);
    }
    forall k | IsSegmentAt(segs, f.segment, k) ensures FindSegment(segs, f.segment) == Some(segs[k]) {
      SegmentFound(segs, f.segment, k);
    }
  }

  lemma EndExactly(s: Segment, key: string, m: Member)
    ensures key in MemberMap(s.members) && MemberMap(s.members)[key] == m <==> IsEnd(s, key, m)
  {
    forall k | 0 <= k < |s.members| && IsLast(s.members, key, k)
      ensures key in MemberMap(s.members) && MemberMap(s.members)[key] == s.members[k]
    {
      MemberMapLast(s.members, k);
    }
    if key in MemberMap(s.members) && MemberMap(s.members)[key] == m {
      var k := LastExists(s.members, key);
      assert IsLast(s.members, key, k);
    }
    if k :| 0 <= k < |s.members| && s.members[k] == m && m.host + "." + m.nic == key
            && forall j :: k < j < |s.members| ==> s.members[j].host + "." + s.members[j].nic != key {
      assert IsLast(s.members, key, k);
    }
  }

  lemma PairExactly(segs: seq<Segment>, f: Fault, s: Segment, source: Member, destination: Member)
    requires IsPair(segs, f, s, source, destination)
    ensures FindSegment(segs, f.segment) == Some(s) && FaultPair(segs, f) == Ok((source, destination))
  {
    SegmentExactly(segs, f, s);
    EndExactly(s, f.pairs[0].source, source);
    EndExactly(s, f.pairs[0].destination, destination);
  }

  lemma PairFound(segs: seq<Segment>, f: Fault) returns (s: Segment, source: Member, destination: Member)
    requires FaultPair(segs, f).Ok?
    ensures IsPair(segs, f, s, source, destination)
  {
    s := FindSegment(segs, f.segment).value;
    source, destination := FaultPair(segs, f).value.0, FaultPair(segs, f).value.1;
    SegmentExactly(segs, f, s);
    EndExactly(s, f.pairs[0].source, source);
    EndExactly(s, f.pairs[0].destination, destination);
  }

  lemma {:induction false} ServerAt(vteps: seq<Vtep>, network: string) returns (k: nat)
    requires AttachedTo(vteps, network).Some?
    ensures IsServerAt(vteps, network, k) && AttachedTo(vteps, network) == Some(vteps[k])
  {
    k := 0;
    if !exists n :: n in vteps[0].localNics && n.network == network {
      var rest := ServerAt(vteps[1..], network);
      k := rest + 1;
      assert forall j :: 0 < j < k ==> vteps[j] == vteps[1..][j - 1];
    }
  }

  lemma {:induction false} ServerFound(vteps: seq<Vtep>, network: string, k: nat)
    requires IsServerAt(vteps, network, k)
    ensures AttachedTo(vteps, network) == Some(vteps[k])
  {
    if k > 0 { ServerFound(vteps[1..], network, k - 1); }
  }

  lemma NextToExactly(env: Env, s: Segment, m: Member, v: Vtep)
    ensures AttachedVtep(env, s, m) == Some(v) <==> IsNextTo(env.hosts, s, m, v)
  {
    var nic := NicOf(env.hosts, m.host, m.nic);
    if nic.Some? {
      if AttachedTo(s.vteps, nic.value.network).Some? {
        var k := ServerAt(s.vteps, nic.value.network);
      }
      forall k | IsServerAt(s.vteps, nic.value.network, k)
        ensures AttachedTo(s.vteps, nic.value.network) == Some(s.vteps[k])
      {
        ServerFound(s.vteps, nic.value.network, k);
      }
    }
  }

  // ---------- what each fault does there ----------

  /** The addresses of all VTEPs but the one at k, in order. */
  predicate AllBut(vteps: seq<Vtep>, k: int, addresses: seq<string>) {
    && 0 <= k < |vteps| && |addresses| == |vteps| - 1
    && (forall j :: 0 <= j < k ==> addresses[j] == vteps[j].underlayAddress)
    && forall j :: k < j < |vteps| ==> addresses[j - 1] == vteps[j].underlayAddress
  }

  lemma {:induction false} OthersAreAllBut(vteps: seq<Vtep>, k: nat)
    requires P.OneVtepPerHost(vteps) && k < |vteps|
    ensures AllBut(vteps, k, OtherAddresses(vteps, vteps[k].host))
  {
    var h, rest, others := vteps[k].host, vteps[1..], OtherAddresses(vteps, vteps[k].host);
    if k == 0 {
      AllOthers(rest, h);
    } else {
      OthersAreAllBut(rest, k - 1);
      assert others == [vteps[0].underlayAddress] + OtherAddresses(rest, h);
    }
  }

  lemma {:induction false} AllOthers(vteps: seq<Vtep>, h: string)
    requires forall v :: v in vteps ==> v.host != h
    ensures |OtherAddresses(vteps, h)| == |vteps|
    ensures forall j :: 0 <= j < |vteps| ==> OtherAddresses(vteps, h)[j] == vteps[j].underlayAddress
  {
    if vteps != [] {
      AllOthers(vteps[1..], h);
    }
  }

  /** What a fresh VXLAN device of VTEP k floods to: under static control the addresses of all other VTEPs of the
      segment, each once per VTEP that has it, and nothing under EVPN. */
  lemma FloodExactly(s: Segment, k: nat, peers: seq<string>, e: (string, string))
    requires P.OneVtepPerHost(s.vteps) && AllBut(s.vteps, k, peers)
    ensures Flood(s, s.vteps[k].host, LinuxStatic)[e] == if e.0 == "00:00:00:00:00:00" then multiset(peers)[e.1] else 0
    ensures Flood(s, s.vteps[k].host, LinuxEvpn) == multiset{}
  {
    var others := OtherAddresses(s.vteps, s.vteps[k].host);
    OthersAreAllBut(s.vteps, k);
    AllButUnique(s.vteps, k, peers, others);
    ScanAgrees(s.vteps, s.vteps[k].host);
    AppendCount(multiset{}, others, e);
  }

  lemma AllButUnique(vteps: seq<Vtep>, k: int, a: seq<string>, b: seq<string>)
    requires AllBut(vteps, k, a) && AllBut(vteps, k, b)
    ensures a == b
  {
    forall j | 0 <= j < |a| ensures a[j] == b[j] {
      if j >= k { assert a[j] == vteps[j + 1].underlayAddress; }
    }
  }

  /** NIC k of a host is its first of the given name. */
  predicate IsNicAt(nics: seq<Nic>, name: string, k: int) {
    0 <= k < |nics| && nics[k].name == name && forall j :: 0 <= j < k ==> nics[j].name != name
  }

  lemma {:induction false} NicIndexExactly(nics: seq<Nic>, name: string, k: nat)
    ensures NicIndex(nics, name) == Some(k) <==> IsNicAt(nics, name, k)
  {
    if nics != [] {
      NicIndexExactly(nics[1..], name, if k == 0 then 0 else k - 1);
      assert forall j :: 0 < j < |nics| ==> nics[j] == nics[1..][j - 1];
      assert 0 < k < |nics| ==>
          (IsNicAt(nics, name, k) <==> nics[0].name != name && IsNicAt(nics[1..], name, k - 1));
    }
  }

  /** Entry k of a neighbour list is its first for a host. */
  predicate IsPeerAt(peers: seq<C.Peer>, host: string, k: int) {
    0 <= k < |peers| && peers[k].host == host && forall j :: 0 <= j < k ==> peers[j].host != host
  }

  ghost predicate IsListed(peers: seq<C.Peer>, host: string, address: string) {
    exists k :: IsPeerAt(peers, host, k) && peers[k].address == address
  }

  lemma {:induction false} PeerAt(peers: seq<C.Peer>, host: string) returns (k: nat)
    requires F.PeerAddress(peers, host).Ok?
    ensures IsPeerAt(peers, host, k) && F.PeerAddress(peers, host) == Ok(peers[k].address)
  {
    k := 0;
    if peers[0].host != host {
      var rest := PeerAt(peers[1..], host);
      k := rest + 1;
      assert forall j :: 0 < j < k ==> peers[j] == peers[1..][j - 1];
    }
  }

  lemma {:induction false} PeerFound(peers: seq<C.Peer>, host: string, k: nat)
    requires IsPeerAt(peers, host, k)
    ensures F.PeerAddress(peers, host) == Ok(peers[k].address)
  {
    if k > 0 { PeerFound(peers[1..], host, k - 1); }
  }

  lemma ListedExactly(peers: seq<C.Peer>, host: string, address: string)
    ensures F.PeerAddress(peers, host) == Ok(address) <==> IsListed(peers, host, address)
  {
    if F.PeerAddress(peers, host).Ok? {
      var k := PeerAt(peers, host);
    }
    forall k | IsPeerAt(peers, host, k) ensures F.PeerAddress(peers, host) == Ok(peers[k].address) {
      PeerFound(peers, host, k);
    }
  }

  /** An interface fault: it acts on the source member's own interface, found by the member's MAC. */
  ghost predicate AtInterface(env: Env, f: Fault, source: Member, a: Action) {
    (source.host, source.mac) in env.ifaces &&
    var iface := env.ifaces[(source.host, source.mac)];
    match f.kind
    case MtuMismatch =>
      if source.mode != "trunk" then a == LowerMtu(source.host, iface)
      else source.vlan.Vlan? && a == LowerMtu(source.host, iface + "." + DecInt(source.vlan.id))
    case VlanMismatch =>
      && source.mode == "trunk" && source.vlan.Vlan? && a.MoveVlan? && a.wrong != source.vlan.id
      && a == MoveVlan(source.host, iface, source.vlan.id, a.wrong, source.ip)
      && (if f.faultVlan.Vlan? && f.faultVlan.id != 0 then a.wrong == f.faultVlan.id
          else if source.vlan.id < 4094 then a.wrong == source.vlan.id + 1
          else a.wrong == 1)
    case _ => false
  }

  /** A fault at the VTEP next to the source, near; far is the one next to the destination. */
  ghost predicate AtVtep(env: Env, f: Fault, s: Segment, destination: Member, near: Vtep, a: Action) {
    match f.kind
    case RemoveFdbPeer =>
      && (exists far :: IsNextTo(env.hosts, s, destination, far))
      && exists k, peers :: AllBut(s.vteps, k, peers) && s.vteps[k] == near
                            && a == RemoveFdb(near.host, s.vxlan, peers, destination.mac)
    case BounceUnderlay =>
      if env.dpdk then
        && near.host in env.hosts && near.host in env.vmids
        && exists k: nat :: IsNicAt(env.hosts[near.host], near.underlayNic, k)
                            && a == NicLinkDown(env.vmids[near.host], "net" + Dec(k))
      else
        && (near.host, near.underlayMac) in env.ifaces
        && a == LinkDown(near.host, env.ifaces[(near.host, near.underlayMac)])
    case BgpPeerShutdown =>
      near.host in env.plane && exists far, address ::
        && IsNextTo(env.hosts, s, destination, far)
        && IsListed(env.plane[near.host].peers, far.host, address)
        && a == ShutPeer(near.host, address)
    case FrrRestart => a == RestartFrr(near.host)
    case _ => false
  }

  /** What a declared fault is to do, in terms of the declarations. */
  ghost predicate IsActionOf(env: Env, f: Fault, s: Segment, source: Member, destination: Member, a: Action) {
    if f.kind.MtuMismatch? || f.kind.VlanMismatch? then AtInterface(env, f, source, a)
    else exists near :: IsNextTo(env.hosts, s, source, near) && AtVtep(env, f, s, destination, near, a)
  }

  lemma ActionAtInterface(env: Env, f: Fault, s: Segment, source: Member, destination: Member, a: Action)
    requires FindSegment(env.segs, f.segment) == Some(s) && FaultPair(env.segs, f) == Ok((source, destination))
    requires f.kind.MtuMismatch? || f.kind.VlanMismatch?
    ensures ActionOf(env, f) == Ok(a) <==> AtInterface(env, f, source, a)
  {
  }

  lemma RemovalExactly(env: Env, f: Fault, s: Segment, destination: Member, near: Vtep, a: Action)
    requires f.kind.RemoveFdbPeer? && near in s.vteps && P.OneVtepPerHost(s.vteps)
    ensures VtepAction(env, f.kind, s, near, AttachedVtep(env, s, destination), destination.mac) == Ok(a) <==>
            AtVtep(env, f, s, destination, near, a)
  {
    var far := AttachedVtep(env, s, destination);
    if far.Some? { NextToExactly(env, s, destination, far.value); }
    var k :| 0 <= k < |s.vteps| && s.vteps[k] == near;
    var others := OtherAddresses(s.vteps, near.host);
    OthersAreAllBut(s.vteps, k);
    if AtVtep(env, f, s, destination, near, a) {
      var v :| IsNextTo(env.hosts, s, destination, v);
      NextToExactly(env, s, destination, v);
      var k', peers :| AllBut(s.vteps, k', peers) && s.vteps[k'] == near
                       && a == RemoveFdb(near.host, s.vxlan, peers, destination.mac);
      assert k' == k;
      AllButUnique(s.vteps, k, peers, others);
    }
  }

  lemma BounceExactly(env: Env, f: Fault, s: Segment, destination: Member, near: Vtep, far: Option<Vtep>, a: Action)
    requires f.kind.BounceUnderlay?
    ensures VtepAction(env, f.kind, s, near, far, destination.mac) == Ok(a) <==> AtVtep(env, f, s, destination, near, a)
  {
    if env.dpdk && near.host in env.hosts && near.host in env.vmids {
      var index := NicIndex(env.hosts[near.host], near.underlayNic);
      if index.Some? { NicIndexExactly(env.hosts[near.host], near.underlayNic, index.value); }
      forall k: nat | IsNicAt(env.hosts[near.host], near.underlayNic, k) ensures index == Some(k) {
        NicIndexExactly(env.hosts[near.host], near.underlayNic, k);
      }
    }
  }

  lemma ShutdownExactly(env: Env, f: Fault, s: Segment, destination: Member, near: Vtep, a: Action)
    requires f.kind.BgpPeerShutdown?
    ensures VtepAction(env, f.kind, s, near, AttachedVtep(env, s, destination), destination.mac) == Ok(a) <==>
            AtVtep(env, f, s, destination, near, a)
  {
    var far := AttachedVtep(env, s, destination);
    if far.Some? && near.host in env.plane {
      NextToExactly(env, s, destination, far.value);
      var found := F.PeerAddress(env.plane[near.host].peers, far.value.host);
      if found.Ok? { ListedExactly(env.plane[near.host].peers, far.value.host, found.value); }
    }
    if AtVtep(env, f, s, destination, near, a) {
      var v, address :| IsNextTo(env.hosts, s, destination, v) && IsListed(env.plane[near.host].peers, v.host, address)
                        && a == ShutPeer(near.host, address);
      NextToExactly(env, s, destination, v);
      ListedExactly(env.plane[near.host].peers, v.host, address);
    }
  }

  lemma AtVtepExactly(env: Env, f: Fault, s: Segment, destination: Member, near: Vtep, a: Action)
    requires !f.kind.MtuMismatch? && !f.kind.VlanMismatch? && near in s.vteps && P.OneVtepPerHost(s.vteps)
    ensures VtepAction(env, f.kind, s, near, AttachedVtep(env, s, destination), destination.mac) == Ok(a) <==>
            AtVtep(env, f, s, destination, near, a)
  {
    match f.kind
    case RemoveFdbPeer => RemovalExactly(env, f, s, destination, near, a);
    case BounceUnderlay => BounceExactly(env, f, s, destination, near, AttachedVtep(env, s, destination), a);
    case BgpPeerShutdown => ShutdownExactly(env, f, s, destination, near, a);
    case FrrRestart =>
  }

  lemma ActionNearVtep(env: Env, f: Fault, s: Segment, source: Member, destination: Member, a: Action)
    requires FindSegment(env.segs, f.segment) == Some(s) && FaultPair(env.segs, f) == Ok((source, destination))
    requires !f.kind.MtuMismatch? && !f.kind.VlanMismatch? && P.OneVtepPerHost(s.vteps)
    ensures ActionOf(env, f) == Ok(a) <==>
            exists near :: IsNextTo(env.hosts, s, source, near) && AtVtep(env, f, s, destination, near, a)
  {
    var near := AttachedVtep(env, s, source);
    if near.Some? {
      NextToExactly(env, s, source, near.value);
      AtVtepExactly(env, f, s, destination, near.value, a);
    }
    forall v | IsNextTo(env.hosts, s, source, v) ensures near == Some(v) {
      NextToExactly(env, s, source, v);
    }
  }

  /** The executor's action for a fault is what its declaration asks for, and it has none exactly when the declaration
      asks for none: no VTEP serves an end it needs, no interface, NIC or neighbour of that name is known, or the source
      carries no VLAN. */
  lemma ActionExactly(env: Env, f: Fault, a: Action)
    requires forall s :: s in env.segs ==> P.OneVtepPerHost(s.vteps)
    ensures ActionOf(env, f) == Ok(a) <==>
            exists s, source, destination :: IsPair(env.segs, f, s, source, destination)
                                             && IsActionOf(env, f, s, source, destination, a)
  {
    if FaultPair(env.segs, f).Ok? {
      var s, source, destination := PairFound(env.segs, f);
      ActionOfPair(env, f, s, source, destination, a);
    }
    if s, source, destination :| IsPair(env.segs, f, s, source, destination)
                                 && IsActionOf(env, f, s, source, destination, a) {
      ActionOfPair(env, f, s, source, destination, a);
    }
  }

  lemma ActionOfPair(env: Env, f: Fault, s: Segment, source: Member, destination: Member, a: Action)
    requires forall s :: s in env.segs ==> P.OneVtepPerHost(s.vteps)
    requires IsPair(env.segs, f, s, source, destination)
    ensures ActionOf(env, f) == Ok(a) <==> IsActionOf(env, f, s, source, destination, a)
  {
    PairExactly(env.segs, f, s, source, destination);
    if f.kind.MtuMismatch? || f.kind.VlanMismatch? {
      ActionAtInterface(env, f, s, source, destination, a);
    } else {
      ActionNearVtep(env, f, s, source, destination, a);
    }
  }

  /** An accepted fault has its two ends. */
  lemma AcceptedPair(segs: seq<Segment>, evpn: bool, f: Fault)
    requires FaultOk(segs, evpn, f)
    ensures exists s, source, destination :: IsPair(segs, f, s, source, destination)
  {
    var s, source, destination := FaultPairFound(segs, evpn, f);
    var s', source', destination' := PairFound(segs, f);
  }
}
