/** Small concrete topologies that the checking pass accepts: two hosts "a" and "b" with one NIC each, both VTEPs of
    every segment. */
module Examples {
  import opened Text
  import opened Topology

  const NIC := Nic("u", "n", "m")
  const TWO_HOSTS: Hosts := map["a" := [NIC], "b" := [NIC]]

  function RawPair(vni: int, p: string, q: string, members: seq<RawMember>): RawSegment {
    RawSegment(Some(vni), Absent, [RawVtep("a", "u", p, []), RawVtep("b", "u", q, [])], members)
  }

  function LoweredOf(ms: seq<RawMember>): seq<Member> {
    seq(|ms|, i requires 0 <= i < |ms| =>
      Member(ms[i].host, ms[i].nic, "m", ms[i].Mode(), LowerVlan(ms[i], Absent), ms[i].ip))
  }

  function PairOf(name: string, vni: int, p: string, q: string, ms: seq<RawMember>): Segment {
    Segment(name, vni, Null, "br-" + DecInt(vni), "vx-" + DecInt(vni),
            [Vtep("a", "u", "m", p, BeforeSlash(p), []), Vtep("b", "u", "m", q, BeforeSlash(q), [])], LoweredOf(ms))
  }

  /** A member on one of the two NICs, with an address, and a VLAN exactly on a trunk. */
  predicate Plain(m: RawMember) {
    && (m.host == "a" || m.host == "b") && m.nic == "u" && m.ip != ""
    && ((m.Mode() == "access" && !m.vlan.Vlan?) || (m.Mode() == "trunk" && m.vlan.InRange()))
  }

  predicate PairOk(name: string, vni: int, p: string, q: string, ms: seq<RawMember>) {
    IsName(name) && 1 <= vni <= 16777215 && p != "" && q != "" && forall m :: m in ms ==> Plain(m)
  }

  lemma NicFound(h: string)
    requires h == "a" || h == "b"
    ensures NicOf(TWO_HOSTS, h, "u") == Some(NIC)
  {
  }

  lemma PairChecked(name: string, vni: int, p: string, q: string, ms: seq<RawMember>)
    requires PairOk(name, vni, p, q, ms)
    ensures SegmentOk(TWO_HOSTS, name, RawPair(vni, p, q, ms))
  {
    NicFound("a");
    NicFound("b");
  }

  lemma PairLowered(name: string, vni: int, p: string, q: string, ms: seq<RawMember>)
    requires PairOk(name, vni, p, q, ms)
    ensures LoweredSegment(TWO_HOSTS, name, RawPair(vni, p, q, ms), PairOf(name, vni, p, q, ms))
  {
    NicFound("a");
    NicFound("b");
    assert forall i :: 0 <= i < |ms| ==> Plain(ms[i]);
  }

  lemma OneIp(vteps: seq<RawVtep>, p: string, q: string)
    requires forall v :: v in vteps ==> v == RawVtep("a", "u", p, []) || v == RawVtep("b", "u", q, [])
    ensures OneIpPerNic(vteps)
  {
  }

  /** One such segment is accepted and lowered as it says. */
  lemma OneAccepted(name: string, vni: int, p: string, q: string, ms: seq<RawMember>)
    requires PairOk(name, vni, p, q, ms)
    ensures ValidSegments(TWO_HOSTS, [(name, RawPair(vni, p, q, ms))])
    ensures Lowered(TWO_HOSTS, [(name, RawPair(vni, p, q, ms))], [PairOf(name, vni, p, q, ms)])
  {
    PairChecked(name, vni, p, q, ms);
    PairLowered(name, vni, p, q, ms);
    AllVtepsOfOne((name, RawPair(vni, p, q, ms)));
    OneIp(AllVteps([(name, RawPair(vni, p, q, ms))]), p, q);
  }

  /** And so are two of them, on the same underlay addresses. */
  lemma TwoAccepted(name: string, vni: int, ms: seq<RawMember>, other: string, vni': int, ns: seq<RawMember>,
                    p: string, q: string)
    requires PairOk(name, vni, p, q, ms) && PairOk(other, vni', p, q, ns) && name != other && vni != vni'
    ensures ValidSegments(TWO_HOSTS, [(name, RawPair(vni, p, q, ms)), (other, RawPair(vni', p, q, ns))])
    ensures Lowered(TWO_HOSTS, [(name, RawPair(vni, p, q, ms)), (other, RawPair(vni', p, q, ns))],
                    [PairOf(name, vni, p, q, ms), PairOf(other, vni', p, q, ns)])
  {
    PairChecked(name, vni, p, q, ms);
    PairLowered(name, vni, p, q, ms);
    PairChecked(other, vni', p, q, ns);
    PairLowered(other, vni', p, q, ns);
    var raw := [(name, RawPair(vni, p, q, ms)), (other, RawPair(vni', p, q, ns))];
    assert raw[1..] == [raw[1]];
    AllVtepsOfOne(raw[1]);
    assert AllVteps(raw) == raw[0].1.vteps + raw[1].1.vteps;
    OneIp(AllVteps(raw), p, q);
  }
}
