/** The checking pass and the lowering pass over segments and faults (scripts/render-topology.py). */
module Topology {
  import opened Text

  // ---------- what a topology file declares ----------

  datatype Nic = Nic(name: string, network: string, mac: string)

  /** Hosts after rendering: name to NICs. */
  type Hosts = map<string, seq<Nic>>

  /** A vlan key: missing, explicitly null, the empty string, or a number. */
  datatype VlanField = Absent | Null | Empty | Vlan(id: int) {
    predicate InRange() { Vlan? && 1 <= id <= 4094 }

    /** What dict.get reads: a missing key reads as null. */
    function Read(): VlanField { if Absent? then Null else this }
  }

  datatype RawVtep = RawVtep(host: string, underlayNic: string, underlayIp: string, localNics: seq<string>)

  datatype RawMember = RawMember(host: string, nic: string, ip: string, mode: Option<string>, vlan: VlanField) {
    function Mode(): string { if mode.Some? then mode.value else "access" }
  }

  datatype RawSegment = RawSegment(vni: Option<int>, vlan: VlanField, vteps: seq<RawVtep>, members: seq<RawMember>)

  type Declared = seq<(string, RawSegment)>

  // ---------- what the lowering pass produces ----------

  datatype Vtep = Vtep(host: string, underlayNic: string, underlayMac: string, underlayIp: string,
                       underlayAddress: string, localNics: seq<Nic>)

  datatype Member = Member(host: string, nic: string, mac: string, mode: string, vlan: VlanField, ip: string) {
    function Key(): string { host + "." + nic }
  }

  datatype Segment = Segment(name: string, vni: int, vlan: VlanField, bridge: string, vxlan: string,
                             vteps: seq<Vtep>, members: seq<Member>)

  // ---------- lookups ----------

  function FindNic(nics: seq<Nic>, name: string): (r: Option<Nic>)
    ensures r.Some? ==> r.value in nics && r.value.name == name
    ensures r.None? ==> forall n :: n in nics ==> n.name != name
  {
    if nics == [] then None
    else if nics[0].name == name then Some(nics[0])
    else FindNic(nics[1..], name)
  }

  function NicOf(hosts: Hosts, host: string, nic: string): Option<Nic> {
    if host in hosts then FindNic(hosts[host], nic) else None
  }

  // ---------- checking ----------

  predicate VtepOk(hosts: Hosts, v: RawVtep) {
    && v.host != "" && v.underlayNic != "" && v.underlayIp != ""
    && NicOf(hosts, v.host, v.underlayNic).Some?
    && forall n :: n in v.localNics ==> n != v.underlayNic && NicOf(hosts, v.host, n).Some?
  }

  predicate VtepsOk(hosts: Hosts, vteps: seq<RawVtep>) {
    forall i :: 0 <= i < |vteps| ==> VtepOk(hosts, vteps[i])
  }

  predicate MemberOk(hosts: Hosts, s: RawSegment, m: RawMember) {
    && m.host != "" && m.nic != "" && m.ip != ""
    && NicOf(hosts, m.host, m.nic).Some?
    && (m.vlan.Vlan? ==> m.vlan.InRange())
    && ((m.Mode() == "access" && !m.vlan.Vlan?) || (m.Mode() == "trunk" && (m.vlan.Vlan? || s.vlan.Vlan?)))
  }

  predicate DistinctHosts(vteps: seq<RawVtep>) {
    forall i, j :: 0 <= i < j < |vteps| ==> vteps[i].host != vteps[j].host
  }

  predicate SegmentOk(hosts: Hosts, name: string, s: RawSegment) {
    && IsName(name)
    && s.vni.Some? && 1 <= s.vni.value <= 16777215
    && (s.vlan.Vlan? ==> s.vlan.InRange())
    && |s.vteps| >= 2
    && VtepsOk(hosts, s.vteps)
    && DistinctHosts(s.vteps)
    && (forall m :: m in s.members ==> MemberOk(hosts, s, m))
  }

  function AllVteps(raw: Declared): seq<RawVtep> {
    if raw == [] then [] else raw[0].1.vteps + AllVteps(raw[1..])
  }

  /** One address per (host, underlay NIC), across every segment. */
  predicate OneIpPerNic(vteps: seq<RawVtep>) {
    forall v, w :: v in vteps && w in vteps && v.host == w.host && v.underlayNic == w.underlayNic
                   ==> v.underlayIp == w.underlayIp
  }

  /** The declarations the checking pass accepts, whatever order it looks at them in. */
  predicate ValidSegments(hosts: Hosts, raw: Declared) {
    && (forall i :: 0 <= i < |raw| ==> SegmentOk(hosts, raw[i].0, raw[i].1))
    && OneIpPerNic(AllVteps(raw))
    && (forall i, j :: 0 <= i < j < |raw| ==> raw[i].0 != raw[j].0)
    && (forall i, j :: 0 <= i < j < |raw| ==> raw[i].1.vni != raw[j].1.vni)
  }

  method ValidateUnique<T(==)>(values: seq<T>) returns (ok: bool)
    ensures ok <==> Distinct(values)
  {
    var seen: set<T> := {};
    for k := 0 to |values|
      invariant Distinct(values[..k])
      invariant seen == Elements(values[..k])
    {
      if values[k] in seen {
        return false;
      }
      seen := seen + {values[k]};
      assert values[..k + 1] == values[..k] + [values[k]];
    }
    assert values[..|values|] == values;
    return true;
  }

  type UnderlayIps = map<(string, string), string>

  /** The table of addresses seen so far, as the checking pass keeps it. */
  function TableOf(vteps: seq<RawVtep>): UnderlayIps {
    if vteps == [] then map[]
    else
      var v := vteps[|vteps| - 1];
      TableOf(vteps[..|vteps| - 1])[(v.host, v.underlayNic) := v.underlayIp]
  }

  /** OneIpPerNic, built up one VTEP at a time. */
  predicate Consistent(vteps: seq<RawVtep>) {
    vteps == [] || (Consistent(vteps[..|vteps| - 1]) && Fits(vteps[..|vteps| - 1], vteps[|vteps| - 1]))
  }

  predicate Fits(done: seq<RawVtep>, v: RawVtep) {
    forall w :: w in done && w.host == v.host && w.underlayNic == v.underlayNic ==> w.underlayIp == v.underlayIp
  }

  lemma {:induction false} ConsistentIff(vteps: seq<RawVtep>)
    ensures Consistent(vteps) <==> OneIpPerNic(vteps)
  {
    if vteps != [] {
      var rest, v := vteps[..|vteps| - 1], vteps[|vteps| - 1];
      ConsistentIff(rest);
      assert forall w :: w in vteps <==> w in rest || w == v;
    }
  }

  lemma Snoc(done: seq<RawVtep>, v: RawVtep)
    ensures Consistent(done + [v]) <==> Consistent(done) && Fits(done, v)
    ensures TableOf(done + [v]) == TableOf(done)[(v.host, v.underlayNic) := v.underlayIp]
  {
    assert (done + [v])[..|done|] == done;
  }

  predicate Clash(table: UnderlayIps, v: RawVtep) {
    (v.host, v.underlayNic) in table && table[(v.host, v.underlayNic)] != v.underlayIp
  }

  lemma {:induction false} ClashExactly(done: seq<RawVtep>, v: RawVtep)
    requires Consistent(done)
    ensures Clash(TableOf(done), v) <==> !Fits(done, v)
    ensures (v.host, v.underlayNic) !in TableOf(done) ==>
              forall w :: w in done ==> w.host != v.host || w.underlayNic != v.underlayNic
  {
    if done != [] {
      var rest, last := done[..|done| - 1], done[|done| - 1];
      ClashExactly(rest, v);
      assert forall w :: w in done <==> w in rest || w == last;
    }
  }

  lemma {:induction false} ConsistentPrefix(a: seq<RawVtep>, b: seq<RawVtep>)
    requires Consistent(a + b)
    ensures Consistent(a)
    decreases |b|
  {
    if b == [] {
      assert a + b == a;
    } else {
      assert (a + b)[..|a + b| - 1] == a + b[..|b| - 1];
      ConsistentPrefix(a, b[..|b| - 1]);
    }
  }

  /** The table after looking at further VTEPs, or Die at the first clash. */
  function NoteAll(table: UnderlayIps, vteps: seq<RawVtep>): Result<UnderlayIps>
    decreases vteps
  {
    if vteps == [] then Ok(table)
    else if Clash(table, vteps[0]) then Die
    else NoteAll(table[(vteps[0].host, vteps[0].underlayNic) := vteps[0].underlayIp], vteps[1..])
  }

  lemma {:induction false} NoteAllConcat(table: UnderlayIps, a: seq<RawVtep>, b: seq<RawVtep>)
    ensures NoteAll(table, a + b) == if NoteAll(table, a).Die? then Die else NoteAll(NoteAll(table, a).value, b)
    decreases a
  {
    if a == [] {
      assert a + b == b;
    } else {
      assert (a + b)[1..] == a[1..] + b;
      if !Clash(table, a[0]) {
        NoteAllConcat(table[(a[0].host, a[0].underlayNic) := a[0].underlayIp], a[1..], b);
      }
    }
  }

  lemma {:induction false} NoteAllExactly(done: seq<RawVtep>, vteps: seq<RawVtep>)
    requires Consistent(done)
    ensures NoteAll(TableOf(done), vteps).Ok? <==> Consistent(done + vteps)
    decreases vteps
  {
    if vteps == [] {
      assert done + vteps == done;
    } else {
      var v := vteps[0];
      assert done + vteps == (done + [v]) + vteps[1..];
      ClashExactly(done, v);
      Snoc(done, v);
      if Fits(done, v) {
        NoteAllExactly(done + [v], vteps[1..]);
      } else if Consistent(done + vteps) {
        ConsistentPrefix(done + [v], vteps[1..]);
      }
    }
  }

  /** Threading the table through every VTEP succeeds exactly when no two of them disagree. */
  lemma TableThreads(vteps: seq<RawVtep>)
    ensures NoteAll(map[], vteps).Ok? <==> OneIpPerNic(vteps)
  {
    NoteAllExactly([], vteps);
    assert [] + vteps == vteps;
    ConsistentIff(vteps);
  }

  /** The checks on one VTEP, its running address table aside. */
  method ValidateVtep(hosts: Hosts, v: RawVtep) returns (ok: bool)
    ensures ok <==> VtepOk(hosts, v)
  {
    if v.host == "" || v.underlayNic == "" || v.underlayIp == "" || NicOf(hosts, v.host, v.underlayNic).None? {
      return false;
    }
    for k := 0 to |v.localNics|
      invariant forall i :: 0 <= i < k ==> v.localNics[i] != v.underlayNic && NicOf(hosts, v.host, v.localNics[i]).Some?
    {
      if v.localNics[k] == v.underlayNic || NicOf(hosts, v.host, v.localNics[k]).None? {
        return false;
      }
    }
    return true;
  }

  method ValidateVteps(hosts: Hosts, vteps: seq<RawVtep>, table: UnderlayIps) returns (r: Result<UnderlayIps>)
    ensures r == if VtepsOk(hosts, vteps) && DistinctHosts(vteps) then NoteAll(table, vteps) else Die
  {
    var ips := table;
    var vtepHosts: seq<string> := [];
    assert vteps[0..] == vteps;
    for k := 0 to |vteps|
      invariant forall i :: 0 <= i < k ==> VtepOk(hosts, vteps[i])
      invariant |vtepHosts| == k && forall i :: 0 <= i < k ==> vtepHosts[i] == vteps[i].host
      invariant NoteAll(table, vteps) == NoteAll(ips, vteps[k..])
    {
      var v := vteps[k];
      assert vteps[k..][1..] == vteps[k + 1..];
      var ok := ValidateVtep(hosts, v);
      if !ok || Clash(ips, v) {
        return Die;
      }
      ips := ips[(v.host, v.underlayNic) := v.underlayIp];
      vtepHosts := vtepHosts + [v.host];
    }
    var unique := ValidateUnique(vtepHosts);
    return if unique then Ok(ips) else Die;
  }

  /** The checks on one member, in the order they are made. */
  method ValidateMember(hosts: Hosts, s: RawSegment, m: RawMember) returns (ok: bool)
    ensures ok <==> MemberOk(hosts, s, m)
  {
    if m.host == "" || m.nic == "" || m.ip == "" || NicOf(hosts, m.host, m.nic).None? {
      return false;
    }
    var mode := m.Mode();
    if mode != "access" && mode != "trunk" {
      return false;
    }
    if m.vlan.Vlan? && !(1 <= m.vlan.id <= 4094) {
      return false;
    }
    if mode == "access" && m.vlan.Vlan? {
      return false;
    }
    return !(mode == "trunk" && !m.vlan.Vlan? && !s.vlan.Vlan?);
  }

  method ValidateSegment(hosts: Hosts, name: string, s: RawSegment, table: UnderlayIps) returns (r: Result<UnderlayIps>)
    ensures r == if SegmentOk(hosts, name, s) then NoteAll(table, s.vteps) else Die
  {
    if !IsName(name) || s.vni.None? || !(1 <= s.vni.value <= 16777215)
       || (s.vlan.Vlan? && !(1 <= s.vlan.id <= 4094)) || |s.vteps| < 2 {
      return Die;
    }
    r := ValidateVteps(hosts, s.vteps, table);
    if r.Die? {
      return;
    }
    for k := 0 to |s.members|
      invariant forall i :: 0 <= i < k ==> MemberOk(hosts, s, s.members[i])
    {
      var ok := ValidateMember(hosts, s, s.members[k]);
      if !ok {
        return Die;
      }
    }
  }

  method ValidateEach(hosts: Hosts, raw: Declared) returns (ok: bool, names: seq<string>, vnis: seq<Option<int>>)
    ensures ok <==>
            (forall i :: 0 <= i < |raw| ==> SegmentOk(hosts, raw[i].0, raw[i].1)) && NoteAll(map[], AllVteps(raw)).Ok?
    ensures ok ==> |names| == |vnis| == |raw|
    ensures ok ==> forall i :: 0 <= i < |raw| ==> names[i] == raw[i].0 && vnis[i] == raw[i].1.vni
  {
    names, vnis := [], [];
    var ips: UnderlayIps := map[];
    assert raw[0..] == raw;
    for k := 0 to |raw|
      invariant forall i :: 0 <= i < k ==> SegmentOk(hosts, raw[i].0, raw[i].1)
      invariant NoteAll(map[], AllVteps(raw)) == NoteAll(ips, AllVteps(raw[k..]))
      invariant |names| == |vnis| == k && forall i :: 0 <= i < k ==> names[i] == raw[i].0 && vnis[i] == raw[i].1.vni
    {
      assert raw[k..][1..] == raw[k + 1..];
      NoteAllConcat(ips, raw[k].1.vteps, AllVteps(raw[k + 1..]));
      var checked := ValidateSegment(hosts, raw[k].0, raw[k].1, ips);
      if checked.Die? {
        return false, names, vnis;
      }
      ips := checked.value;
      names := names + [raw[k].0];
      vnis := vnis + [raw[k].1.vni];
    }
    return true, names, vnis;
  }

  /** The checking pass accepts exactly the valid declarations. */
  method ValidateSegments(hosts: Hosts, raw: Declared) returns (r: Result<Declared>)
    ensures r == if ValidSegments(hosts, raw) then Ok(raw) else Die
  {
    TableThreads(AllVteps(raw));
    var ok, names, vnis := ValidateEach(hosts, raw);
    if !ok {
      return Die;
    }
    var uniqueNames := ValidateUnique(names);
    var uniqueVnis := ValidateUnique(vnis);
    assert uniqueNames <==> forall i, j :: 0 <= i < j < |raw| ==> raw[i].0 != raw[j].0;
    assert uniqueVnis <==> forall i, j :: 0 <= i < j < |raw| ==> raw[i].1.vni != raw[j].1.vni;
    return if uniqueNames && uniqueVnis then Ok(raw) else Die;
  }

  lemma {:induction false} AllVtepsMember(raw: Declared, v: RawVtep)
    ensures v in AllVteps(raw) <==> exists p :: p in raw && v in p.1.vteps
  {
    if raw != [] {
      AllVtepsMember(raw[1..], v);
      assert forall p :: p in raw <==> p == raw[0] || p in raw[1..];
    }
  }

  // ---------- lowering ----------

  /** The address part of an address given with or without a prefix length: all of it, or what precedes the slash. */
  predicate IsAddressOf(address: string, ip: string) {
    '/' !in address && address <= ip && (address == ip || ip[|address|] == '/')
  }

  function BeforeSlash(s: string): (r: string)
    ensures IsAddressOf(r, s)
  {
    var p := SplitFirst(s, '/');
    if p.Some? then p.value.0 else s
  }

  /** A text has one address part. */
  lemma AddressUnique(a: string, b: string, ip: string)
    requires IsAddressOf(a, ip) && IsAddressOf(b, ip)
    ensures a == b
  {
  }

  /** An address with a prefix length lowers to the address, one without stays as it is, and no other text lowers so. */
  lemma AddressRoundTrip(address: string, length: string)
    requires '/' !in address
    ensures BeforeSlash(address + "/" + length) == address && BeforeSlash(address) == address
  {
    var ip := address + "/" + length;
    assert address <= ip && ip[|address|] == '/';
    AddressUnique(BeforeSlash(ip), address, ip);
    AddressUnique(BeforeSlash(address), address, address);
  }

  predicate LoweredVtep(hosts: Hosts, raw: RawVtep, v: Vtep) {
    && v.host == raw.host && v.underlayNic == raw.underlayNic && v.underlayIp == raw.underlayIp
    && IsAddressOf(v.underlayAddress, raw.underlayIp)
    && NicOf(hosts, raw.host, raw.underlayNic).Some?
    && v.underlayMac == NicOf(hosts, raw.host, raw.underlayNic).value.mac
    && |v.localNics| == |raw.localNics|
    && forall i :: 0 <= i < |raw.localNics| ==> NicOf(hosts, raw.host, raw.localNics[i]) == Some(v.localNics[i])
  }

  function LowerVlan(raw: RawMember, segmentVlan: VlanField): VlanField {
    if raw.Mode() != "trunk" then Null
    else if raw.vlan.Absent? then segmentVlan.Read()
    else raw.vlan
  }

  /** The mode is the declared one, access by default; untagged unless a trunk, and then with its own vlan key, or
      the segment's when it has none. */
  predicate LoweredMember(hosts: Hosts, s: RawSegment, raw: RawMember, m: Member) {
    && m.host == raw.host && m.nic == raw.nic && m.ip == raw.ip
    && NicOf(hosts, raw.host, raw.nic).Some? && m.mac == NicOf(hosts, raw.host, raw.nic).value.mac
    && (raw.mode == Some(m.mode) || (raw.mode == None && m.mode == "access"))
    && (m.mode != "trunk" ==> m.vlan == Null)
    && (m.mode == "trunk" && !raw.vlan.Absent? ==> m.vlan == raw.vlan)
    && (m.mode == "trunk" && raw.vlan.Absent? ==> m.vlan == if s.vlan.Absent? then Null else s.vlan)
  }

  predicate LoweredSegment(hosts: Hosts, name: string, raw: RawSegment, s: Segment) {
    && s.name == name && raw.vni == Some(s.vni) && s.vlan == raw.vlan.Read()
    && s.bridge == "br-" + DecInt(s.vni) && s.vxlan == "vx-" + DecInt(s.vni)
    && |s.vteps| == |raw.vteps|
    && (forall i :: 0 <= i < |raw.vteps| ==> LoweredVtep(hosts, raw.vteps[i], s.vteps[i]))
    && |s.members| == |raw.members|
    && (forall i :: 0 <= i < |raw.members| ==> LoweredMember(hosts, raw, raw.members[i], s.members[i]))
  }

  predicate Lowered(hosts: Hosts, raw: Declared, out: seq<Segment>) {
    |out| == |raw| && forall i :: 0 <= i < |raw| ==> LoweredSegment(hosts, raw[i].0, raw[i].1, out[i])
  }

  predicate RefsResolve(hosts: Hosts, s: RawSegment) {
    && (forall v :: v in s.vteps ==>
          NicOf(hosts, v.host, v.underlayNic).Some? && forall n :: n in v.localNics ==> NicOf(hosts, v.host, n).Some?)
    && (forall m :: m in s.members ==> NicOf(hosts, m.host, m.nic).Some?)
  }

  method ResolveVtep(hosts: Hosts, raw: RawVtep) returns (r: Result<Vtep>)
    ensures r.Ok? <==> NicOf(hosts, raw.host, raw.underlayNic).Some?
                       && forall n :: n in raw.localNics ==> NicOf(hosts, raw.host, n).Some?
    ensures r.Ok? ==> LoweredVtep(hosts, raw, r.value)
  {
    var underlay := NicOf(hosts, raw.host, raw.underlayNic);
    if underlay.None? {
      return Die;
    }
    var localNics: seq<Nic> := [];
    for k := 0 to |raw.localNics|
      invariant |localNics| == k
      invariant forall i :: 0 <= i < k ==> NicOf(hosts, raw.host, raw.localNics[i]) == Some(localNics[i])
    {
      var nic := NicOf(hosts, raw.host, raw.localNics[k]);
      if nic.None? {
        return Die;
      }
      localNics := localNics + [nic.value];
    }
    return Ok(Vtep(raw.host, raw.underlayNic, underlay.value.mac, raw.underlayIp, BeforeSlash(raw.underlayIp),
                   localNics));
  }

  method ResolveSegment(hosts: Hosts, name: string, raw: RawSegment) returns (r: Result<Segment>)
    ensures r.Ok? <==> raw.vni.Some? && RefsResolve(hosts, raw)
    ensures r.Ok? ==> LoweredSegment(hosts, name, raw, r.value)
  {
    if raw.vni.None? {
      return Die;
    }
    var vteps: seq<Vtep> := [];
    for k := 0 to |raw.vteps|
      invariant |vteps| == k && forall i :: 0 <= i < k ==> LoweredVtep(hosts, raw.vteps[i], vteps[i])
      invariant forall i :: 0 <= i < k ==>
                  forall n :: n in raw.vteps[i].localNics ==> NicOf(hosts, raw.vteps[i].host, n).Some?
    {
      var v := ResolveVtep(hosts, raw.vteps[k]);
      if v.Die? {
        return Die;
      }
      vteps := vteps + [v.value];
    }
    var members: seq<Member> := [];
    for k := 0 to |raw.members|
      invariant |members| == k && forall i :: 0 <= i < k ==> LoweredMember(hosts, raw, raw.members[i], members[i])
    {
      var m := raw.members[k];
      var nic := NicOf(hosts, m.host, m.nic);
      if nic.None? {
        return Die;
      }
      members := members + [Member(m.host, m.nic, nic.value.mac, m.Mode(), LowerVlan(m, raw.vlan), m.ip)];
    }
    var vni := raw.vni.value;
    return Ok(Segment(name, vni, raw.vlan.Read(), "br-" + DecInt(vni), "vx-" + DecInt(vni), vteps, members));
  }

  /** The lowering pass: fails only on a reference that does not resolve, and otherwise keeps every declared
      reference, address and VLAN in place. */
  method ResolveSegments(hosts: Hosts, raw: Declared) returns (r: Result<seq<Segment>>)
    ensures r.Ok? <==> forall i :: 0 <= i < |raw| ==> raw[i].1.vni.Some? && RefsResolve(hosts, raw[i].1)
    ensures r.Ok? ==> Lowered(hosts, raw, r.value)
  {
    var out: seq<Segment> := [];
    for k := 0 to |raw|
      invariant |out| == k
      invariant forall i :: 0 <= i < k ==> raw[i].1.vni.Some? && RefsResolve(hosts, raw[i].1)
      invariant forall i :: 0 <= i < k ==> LoweredSegment(hosts, raw[i].0, raw[i].1, out[i])
    {
      var s := ResolveSegment(hosts, raw[k].0, raw[k].1);
      if s.Die? {
        return Die;
      }
      out := out + [s.value];
    }
    return Ok(out);
  }

  /** The two passes in sequence, as render runs them: whatever is accepted is lowered. */
  method CheckAndLower(hosts: Hosts, raw: Declared) returns (r: Result<seq<Segment>>)
    ensures r.Ok? <==> ValidSegments(hosts, raw)
    ensures r.Ok? ==> Lowered(hosts, raw, r.value)
  {
    var checked := ValidateSegments(hosts, raw);
    if checked.Die? {
      return Die;
    }
    r := ResolveSegments(hosts, checked.value);
  }

  /** Generated device names never clash, neither within a kind nor across the two kinds. */
  lemma DeviceNamesDistinct(hosts: Hosts, raw: Declared, out: seq<Segment>)
    requires ValidSegments(hosts, raw) && Lowered(hosts, raw, out)
    ensures forall i, j :: 0 <= i < |out| && 0 <= j < |out| ==> out[i].bridge != out[j].vxlan
    ensures forall i, j :: 0 <= i < j < |out| ==> out[i].bridge != out[j].bridge && out[i].vxlan != out[j].vxlan
  {
    forall i, j | 0 <= i < j < |out|
      ensures out[i].bridge != out[j].bridge && out[i].vxlan != out[j].vxlan
    {
      assert raw[i].1.vni != raw[j].1.vni;
      DecIntInjective(out[i].vni, out[j].vni);
      assert out[i].bridge[3..] == DecInt(out[i].vni) && out[j].bridge[3..] == DecInt(out[j].vni);
      assert out[i].vxlan[3..] == DecInt(out[i].vni) && out[j].vxlan[3..] == DecInt(out[j].vni);
    }
    forall i, j | 0 <= i < |out| && 0 <= j < |out| ensures out[i].bridge != out[j].vxlan {
      assert out[i].bridge[0] == 'b' && out[j].vxlan[0] == 'v';
    }
  }

  /** Access members are untagged. A trunk member has the VLAN it declares, or its segment's when it has no vlan key, so
      that it has one in range exactly when its own vlan key is absent or a number: an explicit null or empty vlan slips
      past the segment default. */
  lemma MemberTagging(hosts: Hosts, raw: Declared, out: seq<Segment>, i: nat, j: nat)
    requires ValidSegments(hosts, raw) && Lowered(hosts, raw, out)
    requires i < |out| && j < |out[i].members|
    ensures var m, given := out[i].members[j], raw[i].1.members[j];
            && (m.mode == "trunk" <==> given.mode == Some("trunk"))
            && (m.mode == "access" <==> given.mode == None || given.mode == Some("access"))
            && (m.mode == "access" || m.mode == "trunk")
            && (m.mode == "access" ==> m.vlan == Null)
            && (m.mode == "trunk" && given.vlan.Vlan? ==> m.vlan == given.vlan)
            && (m.mode == "trunk" && given.vlan.Absent? ==> m.vlan == raw[i].1.vlan && out[i].vlan == m.vlan)
            && (m.mode == "trunk" ==> (m.vlan.InRange() <==> given.vlan.Absent? || given.vlan.Vlan?))
  {
    var given := raw[i].1.members[j];
    assert LoweredSegment(hosts, raw[i].0, raw[i].1, out[i]);
    assert LoweredMember(hosts, raw[i].1, given, out[i].members[j]);
    assert given in raw[i].1.members && MemberOk(hosts, raw[i].1, given);
  }

  /** A topology the checking pass accepts whose only trunk member ends up with no VLAN at all. */
  lemma NullVlanSlipsThrough() returns (hosts: Hosts, raw: Declared)
    ensures ValidSegments(hosts, raw)
    ensures |raw| == 1 && |raw[0].1.members| == 1 && raw[0].1.members[0].Mode() == "trunk"
    ensures forall out: seq<Segment> :: Lowered(hosts, raw, out) ==> out[0].members[0].vlan == Null
  {
    var u := Nic("u", "n", "m");
    hosts := map["a" := [u], "b" := [u]];
    var s := RawSegment(Some(1), Vlan(10), [RawVtep("a", "u", "1", []), RawVtep("b", "u", "2", [])],
                        [RawMember("a", "u", "3", Some("trunk"), Null)]);
    raw := [("t", s)];
    assert NicOf(hosts, "a", "u") == Some(u) && NicOf(hosts, "b", "u") == Some(u);
    AllVtepsOfOne(raw[0]);
    assert raw == [raw[0]];
    forall out: seq<Segment> | Lowered(hosts, raw, out) ensures out[0].members[0].vlan == Null {
      assert LoweredSegment(hosts, raw[0].0, raw[0].1, out[0]);
      assert LoweredMember(hosts, s, s.members[0], out[0].members[0]);
    }
  }

  lemma AllVtepsOfOne(s: (string, RawSegment))
    ensures AllVteps([s]) == s.1.vteps
  {
    assert [s][1..] == [];
  }
}
