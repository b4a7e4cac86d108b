/** Re-running create after an interruption, and two runs that share generated names
    (scripts/pve-create-run.sh, scripts/pve-destroy-run.sh). */
module Restart {
  import opened Text
  import opened Identifiers
  import opened Cluster

  // ---------- commands are settled once done ----------

  /** The effect of a command is in place. */
  predicate Done(s: Command, c: Pve) {
    match s
    case Clone(vmid, name) => vmid in c.vms && c.vms[vmid].name == name
    case MakeZone(zone, _) => zone in c.zones
    case MakeVnet(vnet, _, _) => vnet in c.vnets
    case Size(vmid) => vmid in c.vms && c.vms[vmid].sized
    case Serial(vmid) => vmid in c.vms && c.vms[vmid].serial
    case SetNet(vmid, i, x) => vmid in c.vms && i in c.vms[vmid].nets && c.vms[vmid].nets[i] == x
    case Start(vmid) => vmid in c.vms && c.vms[vmid].running
  }

  /** Only two settings of the same NIC to different values undo each other. */
  predicate Compatible(s: Command, t: Command) {
    s.SetNet? && t.SetNet? && s.vmid == t.vmid && s.index == t.index ==> s.value == t.value
  }

  predicate Coherent(prog: seq<Command>) {
    forall s, t :: s in prog && t in prog ==> Compatible(s, t)
  }

  lemma ExecSettles(template: Vm, s: Command, c: Pve)
    requires Exec(template, s, c).Ok?
    ensures Done(s, Exec(template, s, c).value)
  {
  }

  lemma DoneIsNoop(template: Vm, s: Command, c: Pve)
    requires Done(s, c)
    ensures Exec(template, s, c) == Ok(c)
  {
    match s
    case SetNet(vmid, i, x) =>
      assert c.vms[vmid].nets[i := x] == c.vms[vmid].nets;
      assert c.vms[vmid := c.vms[vmid]] == c.vms;
    case Size(vmid) => assert c.vms[vmid := c.vms[vmid]] == c.vms;
    case Serial(vmid) => assert c.vms[vmid := c.vms[vmid]] == c.vms;
    case _ =>
  }

  lemma DoneSurvives(template: Vm, s: Command, t: Command, c: Pve)
    requires Done(s, c) && Compatible(s, t) && Exec(template, t, c).Ok?
    ensures Done(s, Exec(template, t, c).value)
  {
  }

  lemma {:induction false} DoneSurvivesRun(template: Vm, s: Command, prog: seq<Command>, c: Pve)
    requires Done(s, c) && forall t :: t in prog ==> Compatible(s, t)
    ensures Done(s, Run(template, prog, c).0)
  {
    if prog != [] {
      match Exec(template, prog[0], c)
      case Die =>
      case Ok(c') =>
        assert prog[0] in prog;
        DoneSurvives(template, s, prog[0], c);
        DoneSurvivesRun(template, s, prog[1..], c');
    }
  }

  lemma {:induction false} DoneProgramIsNoop(template: Vm, prog: seq<Command>, c: Pve)
    requires forall s :: s in prog ==> Done(s, c)
    ensures Run(template, prog, c) == (c, true)
  {
    if prog != [] {
      DoneIsNoop(template, prog[0], c);
      DoneProgramIsNoop(template, prog[1..], c);
    }
  }

  lemma {:induction false} CompletedIsDone(template: Vm, prog: seq<Command>, c: Pve)
    requires Coherent(prog) && Run(template, prog, c).1
    ensures forall s :: s in prog ==> Done(s, Run(template, prog, c).0)
  {
    if prog != [] {
      var c' := Exec(template, prog[0], c).value;
      ExecSettles(template, prog[0], c);
      DoneSurvivesRun(template, prog[0], prog[1..], c');
      CompletedIsDone(template, prog[1..], c');
    }
  }

  /** Interrupted after k commands. */
  function Interrupted(template: Vm, prog: seq<Command>, k: nat, c: Pve): Pve {
    Run(template, prog[..if k <= |prog| then k else |prog|], c).0
  }

  /** A fresh start after any interruption ends exactly as the uninterrupted run would have: the same cluster, and the
      same verdict. */
  lemma {:induction false} RestartOnce(template: Vm, prog: seq<Command>, k: nat, c: Pve)
    requires Coherent(prog)
    ensures Run(template, prog, Interrupted(template, prog, k, c)) == Run(template, prog, c)
    decreases k
  {
    if k > |prog| {
      RestartOnce(template, prog, |prog|, c);
    } else {
      var p, q := prog[..k], prog[k..];
      assert prog == p + q;
      var (c1, ok) := Run(template, p, c);
      RunConcat(template, p, q, c);
      if ok {
        assert Coherent(p);
        CompletedIsDone(template, p, c);
        DoneProgramIsNoop(template, p, c1);
        RunConcat(template, p, q, c1);
      } else {
        DiedAt(template, p, c);
        var j :| 0 <= j < |p| && Run(template, p[..j], c) == (c1, true);
        assert prog[..j] == p[..j];
        RestartOnce(template, prog, j, c);
      }
    }
  }

  lemma {:induction false} DiedAt(template: Vm, p: seq<Command>, c: Pve)
    requires !Run(template, p, c).1
    ensures exists j :: 0 <= j < |p| && Run(template, p[..j], c) == (Run(template, p, c).0, true)
  {
    match Exec(template, p[0], c)
    case Die =>
      assert Run(template, p[..0], c) == (c, true);
    case Ok(c') =>
      DiedAt(template, p[1..], c');
      var j :| 0 <= j < |p[1..]| && Run(template, p[1..][..j], c') == (Run(template, p, c).0, true);
      assert p[..j + 1][0] == p[0] && p[..j + 1][1..] == p[1..][..j];
  }

  /** The cluster after any number of attempts, each cut short somewhere. */
  function Attempts(template: Vm, prog: seq<Command>, cuts: seq<nat>, c: Pve): Pve {
    if cuts == [] then c else Attempts(template, prog, cuts[1..], Interrupted(template, prog, cuts[0], c))
  }

  lemma {:induction false} RestartAnyTimes(template: Vm, prog: seq<Command>, cuts: seq<nat>, c: Pve)
    requires Coherent(prog)
    ensures Run(template, prog, Attempts(template, prog, cuts, c)) == Run(template, prog, c)
  {
    if cuts != [] {
      RestartAnyTimes(template, prog, cuts[1..], Interrupted(template, prog, cuts[0], c));
      RestartOnce(template, prog, cuts[0], c);
    }
  }

  // ---------- the create program is coherent ----------

  lemma {:induction false} NetsSettings(vmid: int, from: nat, nets: seq<string>, s: Command)
    requires s in Nets(vmid, from, nets)
    ensures s.SetNet? && s.vmid == vmid && from <= s.index < from + |nets| && s.value == nets[s.index - from]
    decreases nets
  {
    if s in Nets(vmid, from + 1, nets[1..]) {
      NetsSettings(vmid, from + 1, nets[1..], s);
    }
  }

  lemma {:induction false} NoSettings(t: Topo, hosts: seq<HostSpec>, networks: seq<NetSpec>)
    ensures forall s :: s in Clones(t, hosts) || s in Starts(t, hosts) || s in Vnets(t, networks) ==> !s.SetNet?
    decreases |hosts| + |networks|
  {
    if hosts != [] {
      NoSettings(t, hosts[1..], networks);
    } else if networks != [] {
      NoSettings(t, hosts, networks[1..]);
    }
  }

  ghost predicate SettingOf(t: Topo, h: HostSpec, s: Command) {
    s.SetNet? && s.vmid == t.VmidOf(h) && s.index < |h.nets| && s.value == h.nets[s.index]
  }

  lemma {:induction false} ShapesSettings(t: Topo, hosts: seq<HostSpec>, s: Command)
    requires s in Shapes(t, hosts) && s.SetNet?
    ensures exists h :: h in hosts && SettingOf(t, h, s)
  {
    if s in Shape(t, hosts[0]) {
      NetsSettings(t.VmidOf(hosts[0]), 0, hosts[0].nets, s);
      assert hosts[0] in hosts && SettingOf(t, hosts[0], s);
    } else {
      ShapesSettings(t, hosts[1..], s);
      var h :| h in hosts[1..] && SettingOf(t, h, s);
      assert h in hosts;
    }
  }

  lemma ProgramCoherent(t: Topo)
    requires t.Rendered()
    ensures Coherent(Program(t))
  {
    NoSettings(t, t.hosts, t.networks);
    forall s, u | s in Program(t) && u in Program(t) ensures Compatible(s, u) {
      if s.SetNet? && u.SetNet? && s.vmid == u.vmid && s.index == u.index {
        ShapesSettings(t, t.hosts, s);
        ShapesSettings(t, t.hosts, u);
        var h :| h in t.hosts && SettingOf(t, h, s);
        var g :| g in t.hosts && SettingOf(t, g, u);
        assert h.offset == g.offset;
      }
    }
  }

  /** Crash-restart convergence of create, for any rendered topology, any initial cluster and any interruptions. */
  lemma CreateConverges(template: Vm, t: Topo, cuts: seq<nat>, c: Pve)
    requires t.Rendered()
    ensures Run(template, Program(t), Attempts(template, Program(t), cuts, c)) == Run(template, Program(t), c)
  {
    ProgramCoherent(t);
    RestartAnyTimes(template, Program(t), cuts, c);
  }

  // ---------- foreign VMs ----------

  predicate OwnOrFree(t: Topo, c: Pve, h: HostSpec) {
    t.VmidOf(h) in c.vms ==> c.vms[t.VmidOf(h)].name == t.NameOf(h)
  }

  /** Every VMID of the topology is free or already carries this run's VM. */
  predicate NoConflict(t: Topo, c: Pve) {
    forall h :: h in t.hosts ==> OwnOrFree(t, c, h)
  }

  predicate Keeps(c: Pve, c': Pve) {
    c'.zones == c.zones && c'.vnets == c.vnets && forall v :: v in c.vms ==> v in c'.vms && c'.vms[v] == c.vms[v]
  }

  lemma {:induction false} CloneLoop(template: Vm, t: Topo, hosts: seq<HostSpec>, c: Pve)
    requires forall i, j :: 0 <= i < j < |hosts| ==> hosts[i].offset != hosts[j].offset
    ensures Keeps(c, Run(template, Clones(t, hosts), c).0)
    ensures Run(template, Clones(t, hosts), c).1 <==> forall h :: h in hosts ==> OwnOrFree(t, c, h)
  {
    if hosts != [] {
      var s := Clone(t.VmidOf(hosts[0]), t.NameOf(hosts[0]));
      assert hosts[0] in hosts;
      if Exec(template, s, c).Ok? {
        var c' := Exec(template, s, c).value;
        CloneLoop(template, t, hosts[1..], c');
        forall h | h in hosts[1..] ensures OwnOrFree(t, c', h) <==> OwnOrFree(t, c, h) {
          assert h.offset != hosts[0].offset;
        }
      }
    }
  }

  /** Create gets past its clone loop exactly when no VMID is taken under another name. Otherwise it dies there: no
      zone, no VNet and no VM that existed before is touched. */
  lemma CreateStopsAtConflict(template: Vm, t: Topo, c: Pve)
    requires t.Rendered()
    ensures var (c', ok) := Run(template, Program(t), c);
            !NoConflict(t, c) ==> !ok && Keeps(c, c')
    ensures Run(template, Clones(t, t.hosts), c).1 <==> NoConflict(t, c)
  {
    CloneLoop(template, t, t.hosts, c);
    RunConcat(template, Clones(t, t.hosts), SdnCommands(t) + (Shapes(t, t.hosts) + Starts(t, t.hosts)), c);
  }

  // ---------- what create achieves, and what it leaves alone ----------

  /** The command's VM, if it needs one, exists. */
  predicate HasTarget(s: Command, c: Pve) {
    match s
    case Clone(_, _) => false
    case MakeZone(_, _) | MakeVnet(_, _, _) => true
    case Size(v) => v in c.vms
    case Serial(v) => v in c.vms
    case SetNet(v, _, _) => v in c.vms
    case Start(v) => v in c.vms
  }

  lemma {:induction false} TargetsSuffice(template: Vm, prog: seq<Command>, c: Pve)
    requires forall s :: s in prog ==> HasTarget(s, c)
    ensures Run(template, prog, c).1
  {
    if prog != [] {
      assert prog[0] in prog;
      var c' := Exec(template, prog[0], c).value;
      forall s | s in prog[1..] ensures HasTarget(s, c') {
        assert s in prog;
      }
      TargetsSuffice(template, prog[1..], c');
    }
  }

  /** s is one of the commands create issues for host h once its VM exists. */
  ghost predicate ShapesHost(t: Topo, h: HostSpec, s: Command) {
    match s
    case Size(v) => v == t.VmidOf(h) && h.sized
    case Serial(v) => v == t.VmidOf(h)
    case SetNet(v, i, x) => v == t.VmidOf(h) && i < |h.nets| && x == h.nets[i]
    case Start(v) => v == t.VmidOf(h)
    case _ => false
  }

  ghost predicate MakesSdn(t: Topo, s: Command) {
    t.qinq && ((s.MakeZone? && s.zone == Zone(t.run))
               || (s.MakeVnet? && exists n :: n in t.networks && s.vnet == Vnet(n.prefix, t.run)))
  }

  lemma {:induction false} NetsExactly(vmid: int, from: nat, nets: seq<string>, s: Command)
    ensures s in Nets(vmid, from, nets) <==>
            s.SetNet? && s.vmid == vmid && from <= s.index < from + |nets| && s.value == nets[s.index - from]
    decreases nets
  {
    if nets != [] {
      NetsExactly(vmid, from + 1, nets[1..], s);
    }
  }

  lemma {:induction false} ShapesExactly(t: Topo, hosts: seq<HostSpec>, s: Command)
    ensures s in Shapes(t, hosts) || s in Starts(t, hosts) <==> exists h :: h in hosts && ShapesHost(t, h, s)
    ensures s in Clones(t, hosts) <==> exists h :: h in hosts && s == Clone(t.VmidOf(h), t.NameOf(h))
  {
    if hosts != [] {
      var h := hosts[0];
      ShapesExactly(t, hosts[1..], s);
      NetsExactly(t.VmidOf(h), 0, h.nets, s);
      assert s in Shape(t, h) || s == Start(t.VmidOf(h)) <==> ShapesHost(t, h, s);
      assert forall g :: g in hosts <==> g == h || g in hosts[1..];
    }
  }

  lemma {:induction false} VnetsExactly(t: Topo, networks: seq<NetSpec>, s: Command)
    ensures s in Vnets(t, networks) <==>
            exists n :: n in networks && s == MakeVnet(Vnet(n.prefix, t.run), Zone(t.run), n.innerVlan)
  {
    if networks != [] {
      VnetsExactly(t, networks[1..], s);
      assert forall n :: n in networks <==> n == networks[0] || n in networks[1..];
    }
  }

  /** The commands of create after its clone loop. */
  lemma TailCommands(t: Topo, s: Command)
    ensures s in SdnCommands(t) + (Shapes(t, t.hosts) + Starts(t, t.hosts)) ==>
              MakesSdn(t, s) || exists h :: h in t.hosts && ShapesHost(t, h, s)
    ensures (exists h :: h in t.hosts && ShapesHost(t, h, s)) ==> s in Program(t)
    ensures t.qinq ==> MakeZone(Zone(t.run), t.serviceVlan) in Program(t)
    ensures forall n :: n in t.networks && t.qinq ==>
              MakeVnet(Vnet(n.prefix, t.run), Zone(t.run), n.innerVlan) in Program(t)
  {
    ShapesExactly(t, t.hosts, s);
    VnetsExactly(t, t.networks, s);
    forall n | n in t.networks && t.qinq
      ensures MakeVnet(Vnet(n.prefix, t.run), Zone(t.run), n.innerVlan) in Program(t)
    {
      VnetsExactly(t, t.networks, MakeVnet(Vnet(n.prefix, t.run), Zone(t.run), n.innerVlan));
    }
  }

  /** Without outside failures create gets through exactly on a cluster without conflict. */
  lemma SucceedsWithoutConflict(template: Vm, t: Topo, c: Pve)
    requires t.Rendered()
    ensures Run(template, Program(t), c).1 <==> NoConflict(t, c)
  {
    CreateStopsAtConflict(template, t, c);
    if NoConflict(t, c) {
      var tail := SdnCommands(t) + (Shapes(t, t.hosts) + Starts(t, t.hosts));
      var c1 := Run(template, Clones(t, t.hosts), c).0;
      RunConcat(template, Clones(t, t.hosts), tail, c);
      ClonesExist(template, t, c);
      forall s | s in tail ensures HasTarget(s, c1) {
        TailCommands(t, s);
      }
      TargetsSuffice(template, tail, c1);
    }
  }

  /** A run in which the commands at the positions in failing, counted from the given one, fail for outside reasons: the
      script ends there. */
  function RunFailing(template: Vm, prog: seq<Command>, at: nat, failing: set<nat>, c: Pve): (Pve, bool)
    decreases prog
  {
    if prog == [] then (c, true)
    else if at in failing then (c, false)
    else
      match Exec(template, prog[0], c)
      case Die => (c, false)
      case Ok(c') => RunFailing(template, prog[1..], at + 1, failing, c')
  }

  lemma {:induction false} FailingRun(template: Vm, prog: seq<Command>, at: nat, failing: set<nat>, c: Pve)
    returns (cut: nat)
    ensures RunFailing(template, prog, at, failing, c).1 <==>
            Run(template, prog, c).1 && forall k :: at <= k < at + |prog| ==> k !in failing
    ensures cut <= |prog| && RunFailing(template, prog, at, failing, c).0 == Run(template, prog[..cut], c).0
    decreases prog
  {
    cut := 0;
    if prog != [] && at !in failing && Exec(template, prog[0], c).Ok? {
      var rest := FailingRun(template, prog[1..], at + 1, failing, Exec(template, prog[0], c).value);
      cut := rest + 1;
      assert prog[..cut][0] == prog[0] && prog[..cut][1..] == prog[1..][..rest];
    }
  }

  /** Create gets through exactly when no VMID is held under another name and no command fails for outside reasons; and
      whatever failed, running it again gives what an undisturbed create would have given. */
  lemma CreateSucceedsExactly(template: Vm, t: Topo, failing: set<nat>, c: Pve)
    requires t.Rendered()
    ensures var (c', ok) := RunFailing(template, Program(t), 0, failing, c);
            && (ok <==> NoConflict(t, c) && forall k :: 0 <= k < |Program(t)| ==> k !in failing)
            && Run(template, Program(t), c') == Run(template, Program(t), c)
  {
    SucceedsWithoutConflict(template, t, c);
    var cut := FailingRun(template, Program(t), 0, failing, c);
    ProgramCoherent(t);
    RestartOnce(template, Program(t), cut, c);
  }

  lemma ClonesExist(template: Vm, t: Topo, c: Pve)
    requires Run(template, Clones(t, t.hosts), c).1
    ensures forall h :: h in t.hosts ==> t.VmidOf(h) in Run(template, Clones(t, t.hosts), c).0.vms
  {
    NoSettings(t, t.hosts, t.networks);
    CompletedIsDone(template, Clones(t, t.hosts), c);
    forall h | h in t.hosts ensures t.VmidOf(h) in Run(template, Clones(t, t.hosts), c).0.vms {
      ShapesExactly(t, t.hosts, Clone(t.VmidOf(h), t.NameOf(h)));
      assert Done(Clone(t.VmidOf(h), t.NameOf(h)), Run(template, Clones(t, t.hosts), c).0);
    }
  }

  /** A VM of run t for host h is on the cluster. */
  predicate Live(t: Topo, h: HostSpec, c: Pve) {
    t.VmidOf(h) in c.vms && c.vms[t.VmidOf(h)].name == t.NameOf(h)
  }

  /** A host's VM as it must be before it is started: its own, with exactly the declared value on every declared NIC. */
  predicate HostShaped(t: Topo, h: HostSpec, c: Pve) {
    && Live(t, h, c)
    && var vm := c.vms[t.VmidOf(h)];
       && vm.serial && (h.sized ==> vm.sized)
       && forall i :: 0 <= i < |h.nets| ==> i in vm.nets && vm.nets[i] == h.nets[i]
  }

  /** A host as create leaves it: shaped and running. */
  predicate HostUp(t: Topo, h: HostSpec, c: Pve) { HostShaped(t, h, c) && c.vms[t.VmidOf(h)].running }

  /** An SDN object as create leaves it: one that existed is reused as it is, a new one carries this run's zone and the
      declared tag. */
  predicate SdnMade(before: map<string, Sdn>, after: map<string, Sdn>, name: string, made: Sdn) {
    name in after && after[name] == if name in before then before[name] else made
  }

  lemma {:induction false} ZonesMade(template: Vm, prog: seq<Command>, c: Pve, name: string, made: Sdn)
    requires forall s :: s in prog && s.MakeZone? && s.zone == name ==> made == Sdn(s.zone, s.tag)
    ensures var c' := Run(template, prog, c).0;
            name in c'.zones ==> SdnMade(c.zones, c'.zones, name, made)
  {
    if prog != [] && Exec(template, prog[0], c).Ok? {
      assert prog[0] in prog;
      ZonesMade(template, prog[1..], Exec(template, prog[0], c).value, name, made);
    }
  }

  lemma {:induction false} VnetsMade(template: Vm, prog: seq<Command>, c: Pve, name: string, made: Sdn)
    requires forall s :: s in prog && s.MakeVnet? && s.vnet == name ==> made == Sdn(s.zone, s.tag)
    ensures var c' := Run(template, prog, c).0;
            name in c'.vnets ==> SdnMade(c.vnets, c'.vnets, name, made)
  {
    if prog != [] && Exec(template, prog[0], c).Ok? {
      assert prog[0] in prog;
      VnetsMade(template, prog[1..], Exec(template, prog[0], c).value, name, made);
    }
  }

  /** A successful create brings up every host and every SDN object. */
  lemma CreateAchieves(template: Vm, t: Topo, c: Pve)
    requires t.Rendered() && Run(template, Program(t), c).1
    ensures var c' := Run(template, Program(t), c).0;
            && (forall h :: h in t.hosts ==> HostUp(t, h, c'))
            && (t.qinq ==>
                  && SdnMade(c.zones, c'.zones, Zone(t.run), Sdn(Zone(t.run), t.serviceVlan))
                  && forall n :: n in t.networks ==>
                       SdnMade(c.vnets, c'.vnets, Vnet(n.prefix, t.run), Sdn(Zone(t.run), n.innerVlan)))
  {
    var c' := Run(template, Program(t), c).0;
    ProgramCoherent(t);
    CompletedIsDone(template, Program(t), c);
    forall h | h in t.hosts ensures HostUp(t, h, c') {
      HostDone(t, h, c');
    }
    if t.qinq {
      TailCommands(t, MakeZone(Zone(t.run), t.serviceVlan));
      assert Done(MakeZone(Zone(t.run), t.serviceVlan), c');
      OneZoneOnly(t);
      ZonesMade(template, Program(t), c, Zone(t.run), Sdn(Zone(t.run), t.serviceVlan));
      forall n | n in t.networks
        ensures SdnMade(c.vnets, c'.vnets, Vnet(n.prefix, t.run), Sdn(Zone(t.run), n.innerVlan))
      {
        assert Done(MakeVnet(Vnet(n.prefix, t.run), Zone(t.run), n.innerVlan), c');
        OneVnetOnly(t, n);
        VnetsMade(template, Program(t), c, Vnet(n.prefix, t.run), Sdn(Zone(t.run), n.innerVlan));
      }
    }
  }

  lemma {:induction false} OneZoneOnly(t: Topo)
    ensures forall s :: s in Program(t) && s.MakeZone? ==> s == MakeZone(Zone(t.run), t.serviceVlan)
  {
    forall s | s in Program(t) && s.MakeZone? ensures s == MakeZone(Zone(t.run), t.serviceVlan) {
      ShapesExactly(t, t.hosts, s);
      VnetsExactly(t, t.networks, s);
    }
  }

  /** VNets of different networks have different names, so each is made from its own network only. */
  lemma OneVnetOnly(t: Topo, n: NetSpec)
    requires t.Rendered() && n in t.networks
    ensures forall s :: s in Program(t) && s.MakeVnet? && s.vnet == Vnet(n.prefix, t.run) ==>
              s.zone == Zone(t.run) && s.tag == n.innerVlan
  {
    forall s | s in Program(t) && s.MakeVnet? && s.vnet == Vnet(n.prefix, t.run)
      ensures s.zone == Zone(t.run) && s.tag == n.innerVlan
    {
      var m := VnetFrom(t, s);
      VnetRecovers(n.prefix, t.run, m.prefix, t.run);
      SamePrefix(t, n, m);
    }
  }

  lemma VnetFrom(t: Topo, s: Command) returns (m: NetSpec)
    requires s in Program(t) && s.MakeVnet?
    ensures m in t.networks && s == MakeVnet(Vnet(m.prefix, t.run), Zone(t.run), m.innerVlan)
  {
    ShapesExactly(t, t.hosts, s);
    VnetsExactly(t, t.networks, s);
    m :| m in t.networks && s == MakeVnet(Vnet(m.prefix, t.run), Zone(t.run), m.innerVlan);
  }

  lemma SamePrefix(t: Topo, n: NetSpec, m: NetSpec)
    requires t.Rendered() && n in t.networks && m in t.networks && n.prefix == m.prefix
    ensures n == m
  {
  }

  lemma HostDone(t: Topo, h: HostSpec, c: Pve)
    requires h in t.hosts && forall s :: s in Program(t) ==> Done(s, c)
    ensures HostUp(t, h, c)
  {
    var v := t.VmidOf(h);
    ShapesExactly(t, t.hosts, Clone(v, t.NameOf(h)));
    assert Done(Clone(v, t.NameOf(h)), c);
    forall s | ShapesHost(t, h, s) ensures Done(s, c) {
      TailCommands(t, s);
    }
    assert Done(Start(v), c) && Done(Serial(v), c);
    if h.sized { assert Done(Size(v), c); }
    forall i: nat | i < |h.nets| ensures i in c.vms[v].nets && c.vms[v].nets[i] == h.nets[i] {
      assert Done(SetNet(v, i, h.nets[i]), c);
    }
  }

  /** The VM a command may change. */
  predicate Touches(s: Command, v: int) {
    match s
    case Clone(u, _) => u == v
    case Size(u) => u == v
    case Serial(u) => u == v
    case SetNet(u, _, _) => u == v
    case Start(u) => u == v
    case _ => false
  }

  lemma {:induction false} RunFrame(template: Vm, prog: seq<Command>, c: Pve, v: int)
    requires forall s :: s in prog ==> !Touches(s, v)
    ensures var c' := Run(template, prog, c).0;
            && (v in c'.vms <==> v in c.vms) && (v in c.vms ==> c'.vms[v] == c.vms[v])
            && (forall z :: z in c.zones ==> z in c'.zones && c'.zones[z] == c.zones[z])
            && (forall z :: z in c.vnets ==> z in c'.vnets && c'.vnets[z] == c.vnets[z])
  {
    if prog != [] && Exec(template, prog[0], c).Ok? {
      assert prog[0] in prog;
      RunFrame(template, prog[1..], Exec(template, prog[0], c).value, v);
    }
  }

  /** Create, successful or not, leaves every VM of another VMID and every existing zone and VNet as they were. */
  lemma CreateTouchesOnly(template: Vm, t: Topo, c: Pve, v: int)
    requires forall h :: h in t.hosts ==> t.VmidOf(h) != v
    ensures var c' := Run(template, Program(t), c).0;
            && (v in c'.vms <==> v in c.vms) && (v in c.vms ==> c'.vms[v] == c.vms[v])
            && (forall z :: z in c.zones ==> z in c'.zones && c'.zones[z] == c.zones[z])
            && (forall z :: z in c.vnets ==> z in c'.vnets && c'.vnets[z] == c.vnets[z])
  {
    forall s | s in Program(t) ensures !Touches(s, v) {
      ShapesExactly(t, t.hosts, s);
      TailCommands(t, s);
    }
    RunFrame(template, Program(t), c, v);
  }

  /** The VM that ends up under a VMID: the one that was there, or else a clone of the template. */
  function Origin(template: Vm, c: Pve, v: int): Vm { if v in c.vms then c.vms[v] else template }

  predicate SameNic(a: Vm, b: Vm, i: nat) { (i in b.nets <==> i in a.nets) && (i in a.nets ==> b.nets[i] == a.nets[i]) }

  lemma StepOrigin(template: Vm, s: Command, c: Pve, v: int, i: nat)
    requires Exec(template, s, c).Ok?
    ensures var c' := Exec(template, s, c).value;
            var a, b := Origin(template, c, v), Origin(template, c', v);
            && (SameNic(a, b, i) || (s.SetNet? && s.vmid == v && s.index == i))
            && (b.sized == a.sized || s == Size(v)) && (v in c.vms ==> v in c'.vms && b.name == a.name)
  {
  }

  lemma {:induction false} RunOrigin(template: Vm, prog: seq<Command>, c: Pve, v: int, i: nat)
    requires forall s :: s in prog && s.SetNet? ==> s.vmid != v || s.index != i
    ensures var c' := Run(template, prog, c).0;
            var a, b := Origin(template, c, v), Origin(template, c', v);
            && SameNic(a, b, i) && (b.sized == a.sized || Size(v) in prog)
            && (v in c.vms ==> v in c'.vms && b.name == a.name)
  {
    if prog != [] && Exec(template, prog[0], c).Ok? {
      assert prog[0] in prog && forall s :: s in prog[1..] ==> s in prog;
      StepOrigin(template, prog[0], c, v, i);
      RunOrigin(template, prog[1..], Exec(template, prog[0], c).value, v, i);
    }
  }

  /** Create renames no VM, and leaves every NIC beyond the declared ones, and the size of every host that is not to be
      sized, as on the VM that was there or on the template. */
  lemma CreateLeaves(template: Vm, t: Topo, c: Pve, h: HostSpec, i: nat)
    requires t.Rendered() && h in t.hosts && i >= |h.nets| && t.VmidOf(h) in Run(template, Program(t), c).0.vms
    ensures var vm, origin := Run(template, Program(t), c).0.vms[t.VmidOf(h)], Origin(template, c, t.VmidOf(h));
            && (t.VmidOf(h) in c.vms ==> vm.name == origin.name)
            && SameNic(origin, vm, i) && (!h.sized ==> vm.sized == origin.sized)
  {
    var v := t.VmidOf(h);
    forall s | s in Program(t) ensures s.SetNet? ==> s.vmid != v || s.index != i ensures s == Size(v) ==> h.sized {
      if s.SetNet? || s.Size? {
        ShapesExactly(t, t.hosts, s);
        VnetsExactly(t, t.networks, s);
        var g :| g in t.hosts && ShapesHost(t, g, s);
        if s.vmid == v { SameOffset(t, g, h); }
      }
    }
    RunOrigin(template, Program(t), c, v, i);
  }

  lemma SameOffset(t: Topo, g: HostSpec, h: HostSpec)
    requires t.Rendered() && g in t.hosts && h in t.hosts && t.VmidOf(g) == t.VmidOf(h)
    ensures g == h
  {
  }

  // ---------- the order of the stages ----------

  predicate SdnThere(t: Topo, c: Pve) {
    t.qinq ==> Zone(t.run) in c.zones && forall n :: n in t.networks ==> Vnet(n.prefix, t.run) in c.vnets
  }

  /** A VM runs that did not run before. */
  predicate NewlyRuns(c: Pve, c': Pve, v: int) {
    v in c'.vms && c'.vms[v].running && !(v in c.vms && c.vms[v].running)
  }

  predicate Changed(c: Pve, c': Pve, v: int) { v in c.vms && (v !in c'.vms || c'.vms[v] != c.vms[v]) }

  lemma {:induction false} NothingStarted(template: Vm, prog: seq<Command>, c: Pve, v: int)
    requires forall s :: s in prog ==> !s.Start?
    ensures !NewlyRuns(c, Run(template, prog, c).0, v)
  {
    if prog != [] && Exec(template, prog[0], c).Ok? {
      assert prog[0] in prog;
      NothingStarted(template, prog[1..], Exec(template, prog[0], c).value, v);
    }
  }

  lemma {:induction false} NothingChanged(template: Vm, prog: seq<Command>, c: Pve, v: int)
    requires forall s :: s in prog ==> s.Clone? || s.MakeZone? || s.MakeVnet?
    ensures !Changed(c, Run(template, prog, c).0, v)
  {
    if prog != [] && Exec(template, prog[0], c).Ok? {
      assert prog[0] in prog;
      NothingChanged(template, prog[1..], Exec(template, prog[0], c).value, v);
    }
  }

  /** An interrupted run either has not reached the second half of the program, or has completed the first. */
  lemma Halfway(template: Vm, p: seq<Command>, q: seq<Command>, k: nat, c: Pve) returns (reached: bool, m: nat)
    requires Coherent(p + q)
    ensures m <= if reached then |q| else |p|
    ensures !reached ==> Interrupted(template, p + q, k, c) == Run(template, p[..m], c).0
    ensures reached ==> forall s :: s in p ==> Done(s, Interrupted(template, p + q, k, c))
  {
    var cut := if k <= |p + q| then k else |p + q|;
    assert Interrupted(template, p + q, k, c) == Run(template, (p + q)[..cut], c).0;
    if cut <= |p| {
      reached, m := false, cut;
      assert (p + q)[..cut] == p[..cut];
    } else {
      assert (p + q)[..cut] == p + q[..cut - |p|];
      var (c1, ok) := Run(template, p, c);
      RunConcat(template, p, q[..cut - |p|], c);
      reached, m := ok, if ok then cut - |p| else |p|;
      assert p[..|p|] == p;
      if ok {
        assert Coherent(p);
        CompletedIsDone(template, p, c);
        forall s | s in p ensures Done(s, Run(template, q[..cut - |p|], c1).0) {
          DoneSurvivesRun(template, s, q[..cut - |p|], c1);
        }
      }
    }
  }

  lemma {:induction false} ShapesOnly(t: Topo, hosts: seq<HostSpec>, s: Command)
    ensures s in Shapes(t, hosts) ==> s.Size? || s.Serial? || s.SetNet?
    ensures s in Starts(t, hosts) ==> s.Start?
  {
    if hosts != [] {
      NetsExactly(t.VmidOf(hosts[0]), 0, hosts[0].nets, s);
      ShapesOnly(t, hosts[1..], s);
    }
  }

  /** Wherever create is cut short, no VM of the cluster runs that did not run before unless every host's VM is shaped:
      under its own name, with every declared NIC set to its value, its serial port and its size. And no VM that was
      there before is changed unless the zone and all VNets are there. */
  lemma StartsLast(template: Vm, t: Topo, k: nat, c: Pve, v: int)
    requires t.Rendered()
    ensures var c' := Interrupted(template, Program(t), k, c);
            && (NewlyRuns(c, c', v) ==> SdnThere(t, c') && forall h :: h in t.hosts ==> HostShaped(t, h, c'))
            && (Changed(c, c', v) ==> SdnThere(t, c'))
  {
    ProgramCoherent(t);
    BeforeStarts(template, t, k, c, v);
    BeforeShapes(template, t, k, c, v);
  }

  lemma BeforeStarts(template: Vm, t: Topo, k: nat, c: Pve, v: int)
    requires Coherent(Program(t))
    ensures var c' := Interrupted(template, Program(t), k, c);
            NewlyRuns(c, c', v) ==> forall h :: h in t.hosts ==> HostShaped(t, h, c')
    ensures var c' := Interrupted(template, Program(t), k, c);
            NewlyRuns(c, c', v) ==> SdnThere(t, c')
  {
    var p := Clones(t, t.hosts) + (SdnCommands(t) + Shapes(t, t.hosts));
    assert Program(t) == p + Starts(t, t.hosts);
    var reached, m := Halfway(template, p, Starts(t, t.hosts), k, c);
    if reached {
      AllShaped(t, p, Interrupted(template, Program(t), k, c));
      SdnDone(t, p, Interrupted(template, Program(t), k, c));
    } else {
      forall s | s in p[..m] ensures !s.Start? {
        assert s in p;
        ShapesOnly(t, t.hosts, s);
        ShapesExactly(t, t.hosts, s);
        VnetsExactly(t, t.networks, s);
      }
      NothingStarted(template, p[..m], c, v);
    }
  }

  lemma BeforeShapes(template: Vm, t: Topo, k: nat, c: Pve, v: int)
    requires Coherent(Program(t))
    ensures var c' := Interrupted(template, Program(t), k, c);
            Changed(c, c', v) ==> SdnThere(t, c')
  {
    var p := Clones(t, t.hosts) + SdnCommands(t);
    assert Program(t) == p + (Shapes(t, t.hosts) + Starts(t, t.hosts));
    var reached, m := Halfway(template, p, Shapes(t, t.hosts) + Starts(t, t.hosts), k, c);
    if reached {
      SdnDone(t, p, Interrupted(template, Program(t), k, c));
    } else {
      forall s | s in p[..m] ensures s.Clone? || s.MakeZone? || s.MakeVnet? {
        assert s in p;
        ShapesExactly(t, t.hosts, s);
        VnetsExactly(t, t.networks, s);
      }
      NothingChanged(template, p[..m], c, v);
    }
  }

  lemma SdnDone(t: Topo, p: seq<Command>, c: Pve)
    requires forall s :: s in SdnCommands(t) ==> s in p
    requires forall s :: s in p ==> Done(s, c)
    ensures SdnThere(t, c)
  {
    if t.qinq {
      assert Done(MakeZone(Zone(t.run), t.serviceVlan), c);
      forall n | n in t.networks ensures Vnet(n.prefix, t.run) in c.vnets {
        VnetsExactly(t, t.networks, MakeVnet(Vnet(n.prefix, t.run), Zone(t.run), n.innerVlan));
        assert Done(MakeVnet(Vnet(n.prefix, t.run), Zone(t.run), n.innerVlan), c);
      }
    }
  }

  lemma AllShaped(t: Topo, p: seq<Command>, c: Pve)
    requires forall s :: s in Clones(t, t.hosts) || s in Shapes(t, t.hosts) ==> s in p
    requires forall s :: s in p ==> Done(s, c)
    ensures forall h :: h in t.hosts ==> HostShaped(t, h, c)
  {
    forall h | h in t.hosts ensures HostShaped(t, h, c) {
      forall s | (ShapesHost(t, h, s) && !s.Start?) || s == Clone(t.VmidOf(h), t.NameOf(h)) ensures Done(s, c) {
        ShapesExactly(t, t.hosts, s);
        ShapesOnly(t, t.hosts, s);
      }
      var v := t.VmidOf(h);
      assert Done(Clone(v, t.NameOf(h)), c) && Done(Serial(v), c);
      if h.sized { assert Done(Size(v), c); }
      forall i: nat | i < |h.nets| ensures i in c.vms[v].nets && c.vms[v].nets[i] == h.nets[i] {
        assert Done(SetNet(v, i, h.nets[i]), c);
      }
    }
  }

  // ---------- runs that share names ----------

  /** Two different runs whose SDN names coincide: wherever their topologies share an offset, a live VM of one is a
      conflict for the other. */
  lemma SharedNamesConflict(t: Topo, h: HostSpec, other: Topo, g: HostSpec, c: Pve)
    requires t.run != other.run && Zone(t.run) == Zone(other.run)
    requires h in t.hosts && g in other.hosts && h.offset == g.offset
    requires Live(other, g, c)
    ensures !NoConflict(t, c)
  {
    SharedSuffixSharesVmids(t.run, other.run, h.offset);
    VmNameRecovers(t.run, h.name, other.run, g.name);
    assert !OwnOrFree(t, c, h);
  }

  /** Such a run never reuses or changes the live run's zone, VNets or VMs: create dies with all of them as they
      were. */
  lemma SharedNamesCreateHarmless(template: Vm, t: Topo, h: HostSpec, other: Topo, g: HostSpec, c: Pve)
    requires t.Rendered() && t.run != other.run && Zone(t.run) == Zone(other.run)
    requires h in t.hosts && g in other.hosts && h.offset == g.offset
    requires Live(other, g, c)
    ensures var (c', ok) := Run(template, Program(t), c);
            !ok && Keeps(c, c')
  {
    SharedNamesConflict(t, h, other, g, c);
    CreateStopsAtConflict(template, t, c);
  }
}
