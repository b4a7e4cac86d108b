/** Whole lives of runs on one cluster: create followed by destroy, and two runs whose generated names coincide
    (scripts/pve-create-run.sh, scripts/pve-destroy-run.sh). */
module Runs {
  import opened Text
  import opened Identifiers
  import opened Cluster
  import opened Restart
  import opened Destroy

  // ---------- create, then destroy ----------

  /** Nothing of the run is on the cluster and nothing is in its place. */
  predicate Clear(t: Topo, c: Pve) {
    && (forall h :: h in t.hosts ==> t.VmidOf(h) !in c.vms)
    && (t.qinq ==> Zone(t.run) !in c.zones && VnetNames(t, |t.networks|) !! c.vnets.Keys)
  }

  /** The SDN objects a program may make. */
  lemma {:induction false} RunAdds(template: Vm, prog: seq<Command>, c: Pve, z: string)
    ensures var c' := Run(template, prog, c).0;
            && (z in c'.zones && z !in c.zones ==> exists s :: s in prog && s.MakeZone? && s.zone == z)
            && (z in c'.vnets && z !in c.vnets ==> exists s :: s in prog && s.MakeVnet? && s.vnet == z)
  {
    if prog != [] && Exec(template, prog[0], c).Ok? {
      RunAdds(template, prog[1..], Exec(template, prog[0], c).value, z);
      assert prog[0] in prog && forall s :: s in prog[1..] ==> s in prog;
    }
  }

  lemma CreateAdds(template: Vm, t: Topo, c: Pve, z: string)
    requires t.Rendered()
    ensures var c' := Run(template, Program(t), c).0;
            && (z in c'.zones && z !in c.zones ==> t.qinq && z == Zone(t.run))
            && (z in c'.vnets && z !in c.vnets ==> t.qinq && z in VnetNames(t, |t.networks|))
  {
    RunAdds(template, Program(t), c, z);
    forall s | s in Program(t) && (s.MakeZone? || s.MakeVnet?)
      ensures t.qinq
      ensures s.MakeZone? ==> s.zone == Zone(t.run)
      ensures s.MakeVnet? ==> s.vnet in VnetNames(t, |t.networks|)
    {
      SdnCommandOf(t, s);
    }
  }

  lemma SdnCommandOf(t: Topo, s: Command)
    requires s in Program(t) && (s.MakeZone? || s.MakeVnet?)
    ensures t.qinq
    ensures s.MakeZone? ==> s.zone == Zone(t.run)
    ensures s.MakeVnet? ==> s.vnet in VnetNames(t, |t.networks|)
  {
    ShapesExactly(t, t.hosts, s);
    TailCommands(t, s);
    if s.MakeVnet? {
      var n :| n in t.networks && s.vnet == Vnet(n.prefix, t.run);
      var i :| 0 <= i < |t.networks| && t.networks[i] == n;
    }
  }

  lemma CreateOthers(template: Vm, t: Topo, c: Pve, v: int)
    requires !IsJobVmid(JobsOf(t), v)
    ensures var c' := Run(template, Program(t), c).0;
            (v in c'.vms <==> v in c.vms) && (v in c.vms ==> c'.vms[v] == c.vms[v])
  {
    forall h | h in t.hosts ensures t.VmidOf(h) != v {
      var i :| 0 <= i < |t.hosts| && t.hosts[i] == h;
      assert JobsOf(t)[i].vmid == t.VmidOf(h);
    }
    CreateTouchesOnly(template, t, c, v);
  }

  lemma CreatedVms(template: Vm, t: Topo, c: Pve, after: map<int, Vm>)
    requires t.Rendered() && Clear(t, c) && Run(template, Program(t), c).1
    requires Outcome(JobsOf(t), NOTHING_FAILS, Run(template, Program(t), c).0.vms, after)
    ensures after == c.vms
  {
    var c' := Run(template, Program(t), c).0;
    CreateAchieves(template, t, c);
    forall v ensures Same(c.vms, after, v) {
      if IsJobVmid(JobsOf(t), v) {
        var i :| 0 <= i < |t.hosts| && JobsOf(t)[i].vmid == v;
        assert HostUp(t, t.hosts[i], c') && t.hosts[i] in t.hosts;
        assert Settled(c'.vms, NOTHING_FAILS, after, JobsOf(t)[i]);
      } else {
        CreateOthers(template, t, c, v);
      }
    }
    SameEverywhere(c.vms, after);
  }

  lemma CreatedSdn(template: Vm, t: Topo, c: Pve)
    requires t.Rendered() && Clear(t, c)
    ensures var c' := Run(template, Program(t), c).0;
            && c.zones == c'.zones - (if t.qinq then {Zone(t.run)} else {})
            && c.vnets == c'.vnets - (if t.qinq then VnetNames(t, |t.networks|) else {})
  {
    var c' := Run(template, Program(t), c).0;
    SdnKept(template, t, c);
    forall z ensures z in c'.zones - (if t.qinq then {Zone(t.run)} else {}) <==> z in c.zones
             ensures z in c'.vnets - (if t.qinq then VnetNames(t, |t.networks|) else {}) <==> z in c.vnets {
      CreateAdds(template, t, c, z);
    }
  }

  lemma {:induction false} RunKeepsSdn(template: Vm, prog: seq<Command>, c: Pve)
    ensures var c' := Run(template, prog, c).0;
            && (forall z :: z in c.zones ==> z in c'.zones && c'.zones[z] == c.zones[z])
            && (forall z :: z in c.vnets ==> z in c'.vnets && c'.vnets[z] == c.vnets[z])
  {
    if prog != [] && Exec(template, prog[0], c).Ok? {
      RunKeepsSdn(template, prog[1..], Exec(template, prog[0], c).value);
    }
  }

  lemma SdnKept(template: Vm, t: Topo, c: Pve)
    ensures var c' := Run(template, Program(t), c).0;
            && (forall z :: z in c.zones ==> z in c'.zones && c'.zones[z] == c.zones[z])
            && (forall z :: z in c.vnets ==> z in c'.vnets && c'.vnets[z] == c.vnets[z])
  {
    RunKeepsSdn(template, Program(t), c);
  }

  /** Creating a run on a cluster clear of it and destroying it again gives that very cluster back: both succeed, for
      any schedule of the workers. */
  lemma CreateDestroyRoundTrip(template: Vm, t: Topo, c: Pve, after: Pve, ok: bool)
    requires t.Rendered() && Clear(t, c)
    requires Destroys(t, NOTHING_FAILS, Run(template, Program(t), c).0, after, ok)
    ensures Run(template, Program(t), c).1 && ok && after == c
  {
    var c' := Run(template, Program(t), c).0;
    SucceedsWithoutConflict(template, t, c);
    CreateAchieves(template, t, c);
    UnsafeIsConflict(t, NOTHING_FAILS, c');
    CreatedVms(template, t, c, after.vms);
    CreatedSdn(template, t, c);
    assert VnetNames(t, |t.networks|) - NOTHING_FAILS.vnets == VnetNames(t, |t.networks|);
    assert {Zone(t.run)} - NOTHING_FAILS.zones == {Zone(t.run)};
  }

  // ---------- two runs with the same SDN names ----------

  predicate Shared(t: Topo, other: Topo) { t.run != other.run && Zone(t.run) == Zone(other.run) }

  /** The two runs' VMIDs meet exactly in common offsets, and their VM names never. */
  lemma SharedVmids(t: Topo, h: HostSpec, other: Topo, g: HostSpec)
    requires Shared(t, other)
    ensures t.VmidOf(h) == other.VmidOf(g) <==> h.offset == g.offset
    ensures t.NameOf(h) != other.NameOf(g)
  {
    SharedSuffixSharesVmids(t.run, other.run, h.offset);
    VmNameRecovers(t.run, h.name, other.run, g.name);
  }

  predicate HasPrefix(t: Topo, prefix: string) { exists n :: n in t.networks && n.prefix == prefix }

  lemma VnetShared(t: Topo, other: Topo, prefix: string)
    requires Shared(t, other)
    ensures Vnet(prefix, other.run) in VnetNames(t, |t.networks|) <==> HasPrefix(t, prefix)
  {
    VnetRecovers("pq", t.run, "pq", other.run);
    if HasPrefix(t, prefix) {
      var n :| n in t.networks && n.prefix == prefix;
      var i :| 0 <= i < |t.networks| && t.networks[i] == n;
      VnetRecovers(prefix, t.run, prefix, other.run);
    }
    if Vnet(prefix, other.run) in VnetNames(t, |t.networks|) {
      var i :| 0 <= i < |t.networks| && Vnet(prefix, other.run) == Vnet(t.networks[i].prefix, t.run);
      VnetRecovers(prefix, other.run, t.networks[i].prefix, t.run);
    }
  }

  /** Destroying t takes the other run's zone, and its VNet of any prefix, exactly when t is a QinQ run, destroy
      succeeds and the deletion does not fail; a VNet of a prefix t does not have stays in any case. */
  lemma SharedSdnExactly(t: Topo, other: Topo, failing: Failing, before: Pve, after: Pve, ok: bool, prefix: string)
    requires Shared(t, other) && Destroys(t, failing, before, after, ok)
    ensures Zone(other.run) in before.zones ==>
              (Zone(other.run) in after.zones <==>
                !t.qinq || Zone(other.run) in failing.zones || !Succeeds(failing, before.vms, JobsOf(t)))
    ensures Vnet(prefix, other.run) in before.vnets ==>
              (Vnet(prefix, other.run) in after.vnets <==>
                || !t.qinq || !HasPrefix(t, prefix) || Vnet(prefix, other.run) in failing.vnets
                || !Succeeds(failing, before.vms, JobsOf(t)))
  {
    VnetShared(t, other, prefix);
  }

  /** A VMID of t is held under another name. */
  predicate Held(t: Topo, c: Pve) { exists h :: h in t.hosts && !OwnOrFree(t, c, h) }

  /** When queries are answered: the other run's zone survives exactly if t is no QinQ run, the zone cannot be deleted,
      or one of t's VMIDs is held under another name, whoever holds it. */
  lemma SharedZoneSurvives(t: Topo, other: Topo, failing: Failing, before: Pve, after: Pve, ok: bool)
    requires Shared(t, other) && Destroys(t, failing, before, after, ok) && failing.Answers()
    requires Zone(other.run) in before.zones
    ensures Zone(other.run) in after.zones <==> !t.qinq || Zone(other.run) in failing.zones || Held(t, before)
  {
    SharedSdnExactly(t, other, failing, before, after, ok, "");
    UnsafeIsConflict(t, failing, before);
  }

  /** All VMs on the cluster are the other run's. */
  predicate Alone(other: Topo, c: Pve) {
    forall v :: v in c.vms ==> exists g :: g in other.hosts && other.VmidOf(g) == v && c.vms[v].name == other.NameOf(g)
  }

  /** The two topologies share the offset of a host of the other run whose VM is there. */
  predicate Overlap(t: Topo, other: Topo, c: Pve) {
    exists h, g :: h in t.hosts && g in other.hosts && h.offset == g.offset && Live(other, g, c)
  }

  lemma OverlapHeld(t: Topo, other: Topo, c: Pve)
    requires Shared(t, other)
    ensures Overlap(t, other, c) ==> Held(t, c)
    ensures Alone(other, c) && Held(t, c) ==> Overlap(t, other, c)
  {
    forall h, g | h in t.hosts && g in other.hosts && h.offset == g.offset && Live(other, g, c)
      ensures !OwnOrFree(t, c, h)
    {
      SharedVmids(t, h, other, g);
    }
    if Alone(other, c) && Held(t, c) {
      var h :| h in t.hosts && !OwnOrFree(t, c, h);
      var g :| g in other.hosts && other.VmidOf(g) == t.VmidOf(h) && c.vms[t.VmidOf(h)].name == other.NameOf(g);
      SharedVmids(t, h, other, g);
      assert Live(other, g, c);
    }
  }

  /** If the other run's VMs are the only ones: destroying t spares its zone exactly when the topologies share the
      offset of a live host. */
  lemma SharedZoneAlone(t: Topo, other: Topo, failing: Failing, before: Pve, after: Pve, ok: bool)
    requires Shared(t, other) && Destroys(t, failing, before, after, ok) && failing.Answers() && Alone(other, before)
    requires t.qinq && Zone(other.run) in before.zones && Zone(other.run) !in failing.zones
    ensures Zone(other.run) in after.zones <==> Overlap(t, other, before)
  {
    SharedZoneSurvives(t, other, failing, before, after, ok);
    OverlapHeld(t, other, before);
  }

  /** The other run's VMs survive in any case, whatever fails; and if one of them is in t's place, destroy reports
      failure and deletes no SDN object, unless the worker's query about it fails. */
  lemma SharedNamesDestroy(t: Topo, other: Topo, failing: Failing, before: Pve, after: Pve, ok: bool, g: HostSpec)
    requires Shared(t, other) && Destroys(t, failing, before, after, ok) && g in other.hosts && Live(other, g, before)
    ensures Live(other, g, after) && after.vms[other.VmidOf(g)] == before.vms[other.VmidOf(g)]
    ensures (exists h :: h in t.hosts && h.offset == g.offset) && other.VmidOf(g) !in failing.status ==>
              !ok && after.zones == before.zones && after.vnets == before.vnets
  {
    var v := other.VmidOf(g);
    if IsJobVmid(JobsOf(t), v) {
      var i :| 0 <= i < |t.hosts| && JobsOf(t)[i].vmid == v;
      SharedVmids(t, t.hosts[i], other, g);
      assert Verdict(failing, before.vms, JobsOf(t)[i]) != Destroyed;
      if Verified(failing, before.vms, JobsOf(t)) {
        assert Settled(before.vms, failing, after.vms, JobsOf(t)[i]);
      }
    }
    forall h | h in t.hosts && h.offset == g.offset && v !in failing.status ensures !ok {
      var i :| 0 <= i < |t.hosts| && t.hosts[i] == h;
      SharedVmids(t, h, other, g);
      assert Verdict(failing, before.vms, JobsOf(t)[i]).Fails();
    }
  }

  /** Creating t next to the other run gets through exactly when none of its VMIDs is held under another name, and then
      it has taken over the other run's zone as it is, with its VNets of common prefixes. */
  lemma SharedNamesCreate(template: Vm, t: Topo, other: Topo, c: Pve, prefix: string)
    requires t.Rendered() && Shared(t, other) && t.qinq && Zone(other.run) in c.zones
    ensures var (c', ok) := Run(template, Program(t), c);
            && (ok <==> !Held(t, c))
            && Zone(t.run) in c'.zones && c'.zones[Zone(t.run)] == c.zones[Zone(other.run)]
            && (HasPrefix(t, prefix) && Vnet(prefix, other.run) in c.vnets ==>
                  Vnet(prefix, t.run) in c'.vnets && c'.vnets[Vnet(prefix, t.run)] == c.vnets[Vnet(prefix, other.run)])
  {
    SucceedsWithoutConflict(template, t, c);
    SdnKept(template, t, c);
    VnetRecovers("pq", t.run, "pq", other.run);
    VnetRecovers(prefix, t.run, prefix, other.run);
  }

  lemma ZoneLostFor(template: Vm, t: Topo, other: Topo, g: HostSpec, before: Pve)
    requires t.Rendered() && t.qinq && Shared(t, other) && g in other.hosts && Live(other, g, before)
    requires Zone(other.run) in before.zones && forall h :: h in t.hosts ==> t.VmidOf(h) !in before.vms
    ensures Run(template, Program(t), before).1 && Run(template, Program(t), before).0.zones == before.zones
    ensures forall after, ok :: Destroys(t, NOTHING_FAILS, before, after, ok) ==>
              ok && Live(other, g, after) && Zone(other.run) !in after.zones
  {
    assert !Held(t, before);
    SucceedsWithoutConflict(template, t, before);
    ZonesAsBefore(template, t, other, before);
    forall after, ok | Destroys(t, NOTHING_FAILS, before, after, ok)
      ensures ok && Live(other, g, after) && Zone(other.run) !in after.zones
    {
      SharedNamesDestroy(t, other, NOTHING_FAILS, before, after, ok, g);
      SharedZoneSurvives(t, other, NOTHING_FAILS, before, after, ok);
      UnsafeIsConflict(t, NOTHING_FAILS, before);
    }
  }

  lemma MillionApart(run: nat)
    ensures Zone(run) == Zone(run + 1000000)
  {
    SameRemainder(run);
    VnetRecovers("pq", run, "pq", run + 1000000);
  }

  lemma SameRemainder(run: nat)
    ensures (run + 1000000) % 1000000 == run % 1000000
  {
  }

  lemma ExampleRuns() returns (t: Topo, other: Topo)
    ensures t.Rendered() && other.Rendered() && Shared(t, other) && t.qinq && other.qinq
    ensures |t.hosts| == |other.hosts| == 1 && t.hosts[0].offset != other.hosts[0].offset
    ensures t.VmidOf(t.hosts[0]) != other.VmidOf(other.hosts[0])
  {
    t, other := ExampleTopo(1000001, 2), ExampleTopo(1, 1);
    ExampleRendered(1000001, 2);
    ExampleRendered(1, 1);
    MillionApart(1);
  }

  /** Two runs with different offsets, as 1 and 1000001: creating the second takes over the first one's zone, and
      destroying it deletes that zone, while the first one's VM lives. */
  lemma SharedZoneLost(template: Vm) returns (t: Topo, other: Topo, before: Pve)
    ensures t.Rendered() && other.Rendered() && Shared(t, other) && t.qinq && |other.hosts| == 1
    ensures Live(other, other.hosts[0], before) && Zone(other.run) in before.zones
    ensures Run(template, Program(t), before).1 && Run(template, Program(t), before).0.zones == before.zones
    ensures forall after, ok :: Destroys(t, NOTHING_FAILS, before, after, ok) ==>
              ok && Live(other, other.hosts[0], after) && Zone(other.run) !in after.zones
  {
    t, other := ExampleRuns();
    var g := other.hosts[0];
    var zone := Zone(other.run);
    before := Pve(map[other.VmidOf(g) := ExampleVm(other.NameOf(g))], map[zone := Sdn(zone, other.serviceVlan)], map[]);
    ZoneLostFor(template, t, other, g, before);
  }

  lemma ZonesAsBefore(template: Vm, t: Topo, other: Topo, c: Pve)
    requires t.Rendered() && Shared(t, other) && Zone(other.run) in c.zones
    ensures Run(template, Program(t), c).0.zones == c.zones
  {
    var c' := Run(template, Program(t), c).0;
    SdnKept(template, t, c);
    forall z ensures z in c'.zones <==> z in c.zones {
      CreateAdds(template, t, c, z);
    }
  }

  /** With no common offset a third VM can still protect the zone: t's own VMID may be held by anyone. */
  lemma ThirdPartyProtects() returns (t: Topo, other: Topo, before: Pve)
    ensures t.Rendered() && other.Rendered() && Shared(t, other) && t.qinq && Zone(other.run) in before.zones
    ensures !Overlap(t, other, before)
    ensures forall after, ok :: Destroys(t, NOTHING_FAILS, before, after, ok) ==> Zone(other.run) in after.zones
  {
    t, other := ExampleRuns();
    var h := t.hosts[0];
    var zone := Zone(other.run);
    before := Pve(map[t.VmidOf(h) := ExampleVm("other")], map[zone := Sdn(zone, other.serviceVlan)], map[]);
    assert t.NameOf(h)[0] == 'p';
    HeldProtects(t, other, h, before);
  }

  lemma HeldProtects(t: Topo, other: Topo, h: HostSpec, before: Pve)
    requires Shared(t, other) && Zone(other.run) in before.zones && h in t.hosts && !OwnOrFree(t, before, h)
    ensures forall after, ok :: Destroys(t, NOTHING_FAILS, before, after, ok) ==> Zone(other.run) in after.zones
  {
    forall after, ok | Destroys(t, NOTHING_FAILS, before, after, ok) ensures Zone(other.run) in after.zones {
      SharedZoneSurvives(t, other, NOTHING_FAILS, before, after, ok);
    }
  }
}
