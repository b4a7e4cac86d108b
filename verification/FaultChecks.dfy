/** Checking declared faults (scripts/render-topology.py) and the lookups the fault executor makes on them
    (tests/test_fault_injection.py). */
module FaultChecks {
  import opened Text
  import opened Topology

  datatype FaultKind = RemoveFdbPeer | MtuMismatch | VlanMismatch | BounceUnderlay | BgpPeerShutdown | FrrRestart

  datatype Impact = Outage | NoOutage

  datatype Pair = Pair(source: string, destination: string)

  datatype Fault = Fault(name: string, kind: FaultKind, segment: string, pairs: seq<Pair>, impact: Impact,
                         faultVlan: VlanField, recoverTimeout: Option<int>)

  function FindSegment(segs: seq<Segment>, name: string): (r: Option<Segment>)
    ensures r.Some? ==> r.value in segs && r.value.name == name
  {
    if segs == [] then None else if segs[0].name == name then Some(segs[0]) else FindSegment(segs[1..], name)
  }

  /** The dict comprehension keyed by "host.nic": a later member replaces an earlier one. */
  function MemberMap(members: seq<Member>): (r: map<string, Member>)
    ensures forall k :: k in r <==> exists m :: m in members && m.Key() == k
    ensures forall k :: k in r ==> r[k] in members && r[k].Key() == k
  {
    if members == [] then map[]
    else
      var last := members[|members| - 1];
      var rest := members[..|members| - 1];
      assert forall m :: m in members <==> m in rest || m == last;
      MemberMap(rest)[last.Key() := last]
  }

  // ---------- accepted faults ----------

  /** Both ends of every pair are members of the segment. */
  predicate PairsOk(s: Segment, f: Fault) {
    forall p :: p in f.pairs ==> IsMemberKey(s, p.source) && IsMemberKey(s, p.destination)
  }

  predicate IsMemberKey(s: Segment, key: string) { exists m :: m in s.members && m.Key() == key }

  /** The source of a VLAN fault, the last member of its name, is a trunk member on another VLAN than the fault's. */
  predicate VlanFaultOk(s: Segment, f: Fault)
    requires |f.pairs| == 1
  {
    var source := f.pairs[0].source;
    exists i :: 0 <= i < |s.members| && IsLast(s.members, source, i) && s.members[i].mode == "trunk"
      && (f.faultVlan.Vlan? ==> f.faultVlan.InRange() && s.members[i].vlan.Vlan? && f.faultVlan != s.members[i].vlan)
  }

  predicate IsLast(members: seq<Member>, key: string, i: int)
    requires 0 <= i < |members|
  {
    members[i].Key() == key && forall j :: i < j < |members| ==> members[j].Key() != key
  }

  predicate FaultOk(segs: seq<Segment>, evpn: bool, f: Fault) {
    && IsName(f.name)
    && (f.kind.BgpPeerShutdown? || f.kind.FrrRestart? ==> evpn)
    && (f.kind.RemoveFdbPeer? ==> !evpn)
    && (f.recoverTimeout.Some? ==> f.recoverTimeout.value >= 1)
    && FindSegment(segs, f.segment).Some?
    && |f.pairs| == 1 && PairsOk(FindSegment(segs, f.segment).value, f)
    && (f.kind.VlanMismatch? ==> VlanFaultOk(FindSegment(segs, f.segment).value, f))
  }

  /** The dictionary finds the last member of a name, and the other way round. */
  lemma {:induction false} MemberMapLast(members: seq<Member>, i: nat)
    requires i < |members| && IsLast(members, members[i].Key(), i)
    ensures members[i].Key() in MemberMap(members) && MemberMap(members)[members[i].Key()] == members[i]
  {
    var last := |members| - 1;
    if i < last {
      assert members[..last][i] == members[i];
      MemberMapLast(members[..last], i);
    }
  }

  lemma {:induction false} LastExists(members: seq<Member>, key: string) returns (i: nat)
    requires exists m :: m in members && m.Key() == key
    ensures i < |members| && IsLast(members, key, i)
  {
    var last := |members| - 1;
    if members[last].Key() == key {
      i := last;
    } else {
      i := LastExists(members[..last], key);
    }
  }

  lemma VlanFaultByDict(s: Segment, f: Fault)
    requires |f.pairs| == 1
    ensures VlanFaultOk(s, f) <==>
            var members, source := MemberMap(s.members), f.pairs[0].source;
            && source in members && members[source].mode == "trunk"
            && (f.faultVlan.Vlan? ==>
                  f.faultVlan.InRange() && members[source].vlan.Vlan? && f.faultVlan != members[source].vlan)
  {
    var members, source := MemberMap(s.members), f.pairs[0].source;
    forall i | 0 <= i < |s.members| && IsLast(s.members, source, i)
      ensures source in members && members[source] == s.members[i]
    {
      MemberMapLast(s.members, i);
    }
    if source in members {
      var i := LastExists(s.members, source);
      assert IsLast(s.members, source, i);
    }
  }

  // ---------- checking ----------

  /** A fault as declared: any text for type and impact, pairs possibly missing. */
  datatype RawFault = RawFault(name: string, kind: string, segment: string, pairs: Option<seq<Pair>>,
                               impact: Option<string>, faultVlan: VlanField, recoverTimeout: Option<int>)

  function KindOf(kind: string): Option<FaultKind> {
    match kind
    case "remove_fdb_peer" => Some(RemoveFdbPeer)
    case "mtu_mismatch" => Some(MtuMismatch)
    case "vlan_mismatch" => Some(VlanMismatch)
    case "bounce_vtep_underlay" => Some(BounceUnderlay)
    case "bgp_peer_shutdown" => Some(BgpPeerShutdown)
    case "frr_restart" => Some(FrrRestart)
    case _ => None
  }

  function ImpactOf(impact: Option<string>): Option<Impact> {
    match impact
    case None => Some(Outage)
    case Some("outage") => Some(Outage)
    case Some("no_outage") => Some(NoOutage)
    case _ => None
  }

  /** The names faults are declared under. */
  lemma KindExactly(kind: string)
    ensures KindOf(kind) == Some(RemoveFdbPeer) <==> kind == "remove_fdb_peer"
    ensures KindOf(kind) == Some(MtuMismatch) <==> kind == "mtu_mismatch"
    ensures KindOf(kind) == Some(VlanMismatch) <==> kind == "vlan_mismatch"
    ensures KindOf(kind) == Some(BounceUnderlay) <==> kind == "bounce_vtep_underlay"
    ensures KindOf(kind) == Some(BgpPeerShutdown) <==> kind == "bgp_peer_shutdown"
    ensures KindOf(kind) == Some(FrrRestart) <==> kind == "frr_restart"
  {
  }

  lemma ImpactExactly(impact: Option<string>)
    ensures ImpactOf(impact) == Some(Outage) <==> impact == None || impact == Some("outage")
    ensures ImpactOf(impact) == Some(NoOutage) <==> impact == Some("no_outage")
  {
  }

  /** The declared fault as later code reads it, when its type and impact are known ones and it has pairs. */
  function Read(raw: RawFault): Option<Fault> {
    var kind, impact := KindOf(raw.kind), ImpactOf(raw.impact);
    if kind.Some? && impact.Some? && raw.pairs.Some?
    then Some(Fault(raw.name, kind.value, raw.segment, raw.pairs.value, impact.value, raw.faultVlan,
                    raw.recoverTimeout))
    else None
  }

  predicate Acceptable(segs: seq<Segment>, evpn: bool, raw: RawFault) {
    Read(raw).Some? && FaultOk(segs, evpn, Read(raw).value)
  }

  predicate FaultsOk(segs: seq<Segment>, evpn: bool, faults: seq<RawFault>) {
    && (forall f :: f in faults ==> Acceptable(segs, evpn, f))
    && forall i, j :: 0 <= i < j < |faults| ==> faults[i].name != faults[j].name
  }

  /** The pair check shared with the segment checks: a set of member keys, and every endpoint looked up in it. */
  method ValidatePairs(s: Segment, pairs: seq<Pair>) returns (ok: bool)
    ensures ok <==> forall p :: p in pairs ==> IsMemberKey(s, p.source) && IsMemberKey(s, p.destination)
  {
    var keys: set<string> := {};
    for k := 0 to |s.members|
      invariant forall x :: x in keys <==> exists m :: m in s.members[..k] && m.Key() == x
    {
      assert s.members[..k + 1] == s.members[..k] + [s.members[k]];
      keys := keys + {s.members[k].Key()};
    }
    assert s.members[..|s.members|] == s.members;
    for k := 0 to |pairs|
      invariant forall p :: p in pairs[..k] ==> IsMemberKey(s, p.source) && IsMemberKey(s, p.destination)
    {
      if pairs[k].source !in keys || pairs[k].destination !in keys {
        return false;
      }
      assert pairs[..k + 1] == pairs[..k] + [pairs[k]];
    }
    assert pairs[..|pairs|] == pairs;
    return true;
  }

  /** The dictionary the VLAN check looks its source up in. */
  method MembersByKey(members: seq<Member>) returns (r: map<string, Member>)
    ensures r == MemberMap(members)
  {
    r := map[];
    for k := 0 to |members|
      invariant r == MemberMap(members[..k])
    {
      assert members[..k + 1][..k] == members[..k];
      r := r[members[k].Key() := members[k]];
    }
    assert members[..|members|] == members;
  }

  method ValidateVlanFault(s: Segment, f: Fault) returns (ok: bool)
    requires |f.pairs| == 1
    ensures ok <==> VlanFaultOk(s, f)
  {
    VlanFaultByDict(s, f);
    var members := MembersByKey(s.members);
    var source := f.pairs[0].source;
    if source !in members || members[source].mode != "trunk" {
      return false;
    }
    if f.faultVlan.Vlan? {
      if !(1 <= f.faultVlan.id <= 4094) || !members[source].vlan.Vlan? {
        return false;
      }
      if f.faultVlan.id == members[source].vlan.id {
        return false;
      }
    }
    return true;
  }

  /** The checks on one fault, in the order they are made. */
  method ValidateFault(segs: seq<Segment>, evpn: bool, raw: RawFault) returns (ok: bool)
    ensures ok <==> Acceptable(segs, evpn, raw)
  {
    var kind := KindOf(raw.kind);
    if !IsName(raw.name) || kind.None? || ImpactOf(raw.impact).None? {
      return false;
    }
    if (kind.value.BgpPeerShutdown? || kind.value.FrrRestart?) && !evpn {
      return false;
    }
    var segment := FindSegment(segs, raw.segment);
    if segment.None? || raw.pairs.None? {
      return false;
    }
    var paired := ValidatePairs(segment.value, raw.pairs.value);
    if !paired || |raw.pairs.value| != 1 {
      return false;
    }
    if kind.value.VlanMismatch? {
      ok := ValidateVlanFault(segment.value, Read(raw).value);
      if !ok {
        return;
      }
    }
    return !(kind.value.RemoveFdbPeer? && evpn) && (raw.recoverTimeout.Some? ==> raw.recoverTimeout.value >= 1);
  }

  /** The checking pass over faults accepts exactly the lists of acceptable faults with distinct names, and returns them
      unchanged. */
  method ValidateFaults(segs: seq<Segment>, evpn: bool, faults: seq<RawFault>) returns (r: Result<seq<RawFault>>)
    ensures r == if FaultsOk(segs, evpn, faults) then Ok(faults) else Die
  {
    var names: seq<string> := [];
    for k := 0 to |faults|
      invariant |names| == k && forall i :: 0 <= i < k ==> names[i] == faults[i].name
      invariant forall f :: f in faults[..k] ==> Acceptable(segs, evpn, f)
    {
      var ok := ValidateFault(segs, evpn, faults[k]);
      if !ok {
        return Die;
      }
      assert faults[..k + 1] == faults[..k] + [faults[k]];
      names := names + [faults[k].name];
    }
    assert faults[..|faults|] == faults;
    var unique := ValidateUnique(names);
    assert unique <==> forall i, j :: 0 <= i < j < |faults| ==> faults[i].name != faults[j].name;
    return if unique then Ok(faults) else Die;
  }

  // ---------- topology references ----------

  /** resolve_token on a text: only texts starting with "@" are looked up. */
  function ResolveText(lookup: string -> string, s: string): (r: string)
    ensures r == if "@" <= s then lookup(s) else s
  {
    if s != "" && s[0] == '@' then lookup(s) else s
  }

  function ResolveFault(lookup: string -> string, f: Fault): Fault {
    f.(name := ResolveText(lookup, f.name), segment := ResolveText(lookup, f.segment),
       pairs := seq(|f.pairs|, i requires 0 <= i < |f.pairs| =>
                      Pair(ResolveText(lookup, f.pairs[i].source), ResolveText(lookup, f.pairs[i].destination))))
  }

  // ---------- the executor's lookups ----------

  function FaultPair(segs: seq<Segment>, f: Fault): Result<(Member, Member)> {
    var s := FindSegment(segs, f.segment);
    if s.None? || |f.pairs| != 1 then Die
    else
      var members := MemberMap(s.value.members);
      if f.pairs[0].source in members && f.pairs[0].destination in members
      then Ok((members[f.pairs[0].source], members[f.pairs[0].destination]))
      else Die
  }

  /** The VLAN a vlan_mismatch fault moves the source to. */
  function WrongVlan(f: Fault, source: Member): Result<int> {
    if source.mode != "trunk" || !source.vlan.Vlan? then Die
    else
      var wrong := if f.faultVlan.Vlan? && f.faultVlan.id != 0 then f.faultVlan.id
                   else if source.vlan.id < 4094 then source.vlan.id + 1 else 1;
      if wrong == source.vlan.id then Die else Ok(wrong)
  }

  predicate HostsNamed(hosts: Hosts) { forall h :: h in hosts ==> IsName(h) }

  lemma KeyIsPlain(host: string, nic: string, lookup: string -> string)
    requires IsName(host)
    ensures ResolveText(lookup, host + "." + nic) == host + "." + nic
  {
    assert (host + "." + nic)[0] == host[0];
  }

  /** What lowering a checked topology guarantees of any member of any segment. */
  predicate MemberChecked(hosts: Hosts, m: Member) {
    && IsName(m.host) && NicOf(hosts, m.host, m.nic).Some?
    && (m.vlan.Vlan? ==> m.vlan.InRange())
  }

  lemma MembersChecked(hosts: Hosts, raw: Declared, segs: seq<Segment>, s: Segment, m: Member)
    requires HostsNamed(hosts) && ValidSegments(hosts, raw) && Lowered(hosts, raw, segs)
    requires s in segs && m in s.members
    ensures IsName(s.name) && MemberChecked(hosts, m)
  {
    var i :| 0 <= i < |segs| && segs[i] == s;
    var j :| 0 <= j < |s.members| && s.members[j] == m;
    assert LoweredSegment(hosts, raw[i].0, raw[i].1, s) && SegmentOk(hosts, raw[i].0, raw[i].1);
    MemberTagging(hosts, raw, segs, i, j);
    MemberRange(hosts, raw[i].1, raw[i].1.members[j], m);
  }

  lemma MemberRange(hosts: Hosts, s: RawSegment, given: RawMember, m: Member)
    requires s.vlan.Vlan? ==> s.vlan.InRange()
    requires given in s.members && MemberOk(hosts, s, given) && LoweredMember(hosts, s, given, m)
    ensures m.host in hosts && NicOf(hosts, m.host, m.nic).Some?
    ensures m.vlan.Vlan? ==> m.vlan.InRange()
  {
  }

  lemma FaultPairFound(segs: seq<Segment>, evpn: bool, f: Fault)
    returns (s: Segment, source: Member, destination: Member)
    requires FaultOk(segs, evpn, f)
    ensures FaultPair(segs, f) == Ok((source, destination))
    ensures FindSegment(segs, f.segment) == Some(s) && s in segs && s.name == f.segment
    ensures source in s.members && destination in s.members
    ensures source.Key() == f.pairs[0].source && destination.Key() == f.pairs[0].destination
    ensures f.kind.VlanMismatch? ==> source.mode == "trunk"
    ensures f.kind.VlanMismatch? && f.faultVlan.Vlan? ==> f.faultVlan.InRange() && f.faultVlan != source.vlan
  {
    s := FindSegment(segs, f.segment).value;
    assert f.pairs[0] in f.pairs;
    if f.kind.VlanMismatch? { VlanFaultByDict(s, f); }
    source, destination := MemberMap(s.members)[f.pairs[0].source], MemberMap(s.members)[f.pairs[0].destination];
  }

  /** Reference resolution leaves an accepted fault as it is, and the executor then finds both endpoints it names,
      as members on NICs the topology declares. */
  lemma AcceptedFaultResolves(hosts: Hosts, raw: Declared, segs: seq<Segment>, evpn: bool, f: Fault,
                              lookup: string -> string)
    requires HostsNamed(hosts) && ValidSegments(hosts, raw) && Lowered(hosts, raw, segs) && FaultOk(segs, evpn, f)
    ensures ResolveFault(lookup, f) == f
    ensures var r := FaultPair(segs, ResolveFault(lookup, f));
            && r.Ok?
            && r.value.0.Key() == f.pairs[0].source && r.value.1.Key() == f.pairs[0].destination
            && MemberChecked(hosts, r.value.0) && MemberChecked(hosts, r.value.1)
  {
    var s, source, destination := FaultPairFound(segs, evpn, f);
    MembersChecked(hosts, raw, segs, s, source);
    MembersChecked(hosts, raw, segs, s, destination);
    ResolvesToItself(f, source, destination, lookup);
  }

  lemma ResolvesToItself(f: Fault, source: Member, destination: Member, lookup: string -> string)
    requires IsName(f.name) && IsName(f.segment) && IsName(source.host) && IsName(destination.host)
    requires |f.pairs| == 1 && f.pairs[0] == Pair(source.Key(), destination.Key())
    ensures ResolveFault(lookup, f) == f
  {
    KeyIsPlain(source.host, source.nic, lookup);
    KeyIsPlain(destination.host, destination.nic, lookup);
    assert ResolveFault(lookup, f).pairs == f.pairs;
  }

  lemma WrongVlanOf(f: Fault, source: Member)
    requires source.mode == "trunk" && (source.vlan.Vlan? ==> source.vlan.InRange())
    requires f.faultVlan.Vlan? ==> f.faultVlan.InRange() && f.faultVlan != source.vlan
    ensures WrongVlan(f, source).Ok? <==> source.vlan.Vlan?
    ensures WrongVlan(f, source).Ok? ==>
              1 <= WrongVlan(f, source).value <= 4094 && WrongVlan(f, source).value != source.vlan.id
  {
  }

  /** An accepted vlan_mismatch fault can be injected exactly when its source member carries a VLAN, and it then
      moves the source to a different VLAN in range. */
  lemma WrongVlanDiffers(hosts: Hosts, raw: Declared, segs: seq<Segment>, evpn: bool, f: Fault)
    requires HostsNamed(hosts) && ValidSegments(hosts, raw) && Lowered(hosts, raw, segs)
    requires FaultOk(segs, evpn, f) && f.kind.VlanMismatch?
    ensures FaultPair(segs, f).Ok?
    ensures var source := FaultPair(segs, f).value.0;
            && (WrongVlan(f, source).Ok? <==> source.vlan.Vlan?)
            && (WrongVlan(f, source).Ok? ==>
                  1 <= WrongVlan(f, source).value <= 4094 && WrongVlan(f, source).value != source.vlan.id)
  {
    var s, source, destination := FaultPairFound(segs, evpn, f);
    MembersChecked(hosts, raw, segs, s, source);
    WrongVlanOf(f, source);
  }
}
