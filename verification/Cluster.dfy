/** What the lifecycle scripts see of Proxmox, what a rendered topology asks of it, and the create script
    (scripts/pve-create-run.sh) as a sequence of primitive commands. */
module Cluster {
  import opened Text
  import opened Identifiers

  datatype Vm = Vm(name: string, nets: map<nat, string>, serial: bool, sized: bool, running: bool)

  datatype Sdn = Sdn(zone: string, tag: int)

  datatype Pve = Pve(vms: map<int, Vm>, zones: map<string, Sdn>, vnets: map<string, Sdn>)

  // ---------- rendered topology ----------

  datatype HostSpec = HostSpec(name: string, offset: int, nets: seq<string>, sized: bool)

  datatype NetSpec = NetSpec(prefix: string, innerVlan: int)

  datatype Topo = Topo(run: nat, qinq: bool, hosts: seq<HostSpec>, networks: seq<NetSpec>, serviceVlan: int) {
    /** What render insists on: distinct offsets and prefixes, well-formed names. */
    predicate Rendered() {
      && (forall i, j :: 0 <= i < j < |hosts| ==> hosts[i].offset != hosts[j].offset)
      && (forall i, j :: 0 <= i < j < |hosts| ==> hosts[i].name != hosts[j].name)
      && (forall h :: h in hosts ==> IsName(h.name))
      && (forall n :: n in networks ==> IsPrefix(n.prefix))
      && (forall i, j :: 0 <= i < j < |networks| ==> networks[i].prefix != networks[j].prefix)
    }

    function VmidOf(h: HostSpec): int { Vmid(run, h.offset) }

    function NameOf(h: HostSpec): string { VmName(run, h.name) }
  }

  // ---------- primitive commands ----------

  datatype Command = Clone(vmid: int, name: string)
                   | MakeZone(zone: string, tag: int)
                   | MakeVnet(vnet: string, zone: string, tag: int)
                   | Size(vmid: int)
                   | Serial(vmid: int)
                   | SetNet(vmid: int, index: nat, value: string)
                   | Start(vmid: int)

  function WithVm(c: Pve, vmid: int, vm: Vm): Pve { c.(vms := c.vms[vmid := vm]) }

  /** One command with the checks the script makes around it. An existing VM is reused under its own name only; an
      existing zone or VNet is reused whatever it is; a running VM is not started again. */
  function Exec(template: Vm, s: Command, c: Pve): Result<Pve> {
    match s
    case Clone(vmid, name) =>
      if vmid in c.vms then (if c.vms[vmid].name == name then Ok(c) else Die)
      else Ok(WithVm(c, vmid, template.(name := name, running := false)))
    case MakeZone(zone, tag) => Ok(if zone in c.zones then c else c.(zones := c.zones[zone := Sdn(zone, tag)]))
    case MakeVnet(vnet, zone, tag) => Ok(if vnet in c.vnets then c else c.(vnets := c.vnets[vnet := Sdn(zone, tag)]))
    case Size(vmid) => if vmid in c.vms then Ok(WithVm(c, vmid, c.vms[vmid].(sized := true))) else Die
    case Serial(vmid) => if vmid in c.vms then Ok(WithVm(c, vmid, c.vms[vmid].(serial := true))) else Die
    case SetNet(vmid, i, x) =>
      if vmid in c.vms then Ok(WithVm(c, vmid, c.vms[vmid].(nets := c.vms[vmid].nets[i := x]))) else Die
    case Start(vmid) =>
      if vmid !in c.vms then Die
      else if c.vms[vmid].running then Ok(c)
      else Ok(WithVm(c, vmid, c.vms[vmid].(running := true)))
  }

  /** Runs commands until one dies; the flag says whether all went through. */
  function Run(template: Vm, prog: seq<Command>, c: Pve): (Pve, bool) {
    if prog == [] then (c, true)
    else
      match Exec(template, prog[0], c)
      case Die => (c, false)
      case Ok(c') => Run(template, prog[1..], c')
  }

  lemma {:induction false} RunConcat(template: Vm, p: seq<Command>, q: seq<Command>, c: Pve)
    ensures var (c1, ok) := Run(template, p, c);
            Run(template, p + q, c) == if ok then Run(template, q, c1) else (c1, false)
  {
    if p == [] {
      assert p + q == q;
    } else {
      assert (p + q)[1..] == p[1..] + q;
      match Exec(template, p[0], c)
      case Die =>
      case Ok(c') => RunConcat(template, p[1..], q, c');
    }
  }

  // ---------- the create program ----------

  function Clones(t: Topo, hosts: seq<HostSpec>): seq<Command> {
    if hosts == [] then [] else [Clone(t.VmidOf(hosts[0]), t.NameOf(hosts[0]))] + Clones(t, hosts[1..])
  }

  function Vnets(t: Topo, networks: seq<NetSpec>): seq<Command> {
    if networks == [] then []
    else [MakeVnet(Vnet(networks[0].prefix, t.run), Zone(t.run), networks[0].innerVlan)] + Vnets(t, networks[1..])
  }

  function SdnCommands(t: Topo): seq<Command> {
    if t.qinq then [MakeZone(Zone(t.run), t.serviceVlan)] + Vnets(t, t.networks) else []
  }

  /** The NICs of one VM, numbered from a given index. */
  function Nets(vmid: int, from: nat, nets: seq<string>): seq<Command>
    decreases nets
  {
    if nets == [] then [] else [SetNet(vmid, from, nets[0])] + Nets(vmid, from + 1, nets[1..])
  }

  function Shape(t: Topo, h: HostSpec): seq<Command> {
    (if h.sized then [Size(t.VmidOf(h))] else []) + ([Serial(t.VmidOf(h))] + Nets(t.VmidOf(h), 0, h.nets))
  }

  function Shapes(t: Topo, hosts: seq<HostSpec>): seq<Command> {
    if hosts == [] then [] else Shape(t, hosts[0]) + Shapes(t, hosts[1..])
  }

  function Starts(t: Topo, hosts: seq<HostSpec>): seq<Command> {
    if hosts == [] then [] else [Start(t.VmidOf(hosts[0]))] + Starts(t, hosts[1..])
  }

  /** Clone every VM, then the SDN objects, then shape every VM, then start every VM. */
  function Program(t: Topo): seq<Command> {
    Clones(t, t.hosts) + (SdnCommands(t) + (Shapes(t, t.hosts) + Starts(t, t.hosts)))
  }

  // ---------- the script itself ----------

  class Proxmox {
    var vms: map<int, Vm>
    var zones: map<string, Sdn>
    var vnets: map<string, Sdn>
    const template: Vm

    function State(): Pve
      reads this
    {
      Pve(vms, zones, vnets)
    }

    method CloneVm(vmid: int, name: string) returns (ok: bool)
      modifies this
      ensures Exec(template, Clone(vmid, name), old(State())) == if ok then Ok(State()) else Die
      ensures !ok ==> State() == old(State())
    {
      if vmid in vms {
        return vms[vmid].name == name;
      }
      vms := vms[vmid := template.(name := name, running := false)];
      return true;
    }

    method CreateSdnQinq(t: Topo)
      requires t.qinq
      modifies this
      ensures (State(), true) == Run(template, SdnCommands(t), old(State()))
    {
      var zone := Zone(t.run);
      if zone !in zones {
        zones := zones[zone := Sdn(zone, t.serviceVlan)];
      }
      assert SdnCommands(t)[1..] == Vnets(t, t.networks[0..]);
      for k := 0 to |t.networks|
        invariant Run(template, SdnCommands(t), old(State())) == Run(template, Vnets(t, t.networks[k..]), State())
      {
        var vnet := Vnet(t.networks[k].prefix, t.run);
        Unfold(template, Vnets(t, t.networks[k..]), State());
        if vnet !in vnets {
          vnets := vnets[vnet := Sdn(zone, t.networks[k].innerVlan)];
        }
        assert t.networks[k..][1..] == t.networks[k + 1..];
      }
    }

    method ShapeVm(t: Topo, h: HostSpec) returns (ok: bool)
      modifies this
      ensures (State(), ok) == Run(template, Shape(t, h), old(State()))
    {
      var vmid := t.VmidOf(h);
      ghost var nets := Nets(vmid, 0, h.nets);
      if h.sized {
        assert Shape(t, h)[1..] == [Serial(vmid)] + nets;
      } else {
        assert Shape(t, h) == [Serial(vmid)] + nets;
      }
      if vmid !in vms {
        return false;
      }
      if h.sized {
        vms := vms[vmid := vms[vmid].(sized := true)];
      }
      assert Run(template, Shape(t, h), old(State())) == Run(template, [Serial(vmid)] + nets, State());
      assert ([Serial(vmid)] + nets)[1..] == nets;
      vms := vms[vmid := vms[vmid].(serial := true)];
      assert h.nets[0..] == h.nets;
      for k := 0 to |h.nets|
        invariant vmid in vms
        invariant Run(template, Shape(t, h), old(State())) == Run(template, Nets(vmid, k, h.nets[k..]), State())
      {
        Unfold(template, Nets(vmid, k, h.nets[k..]), State());
        vms := vms[vmid := vms[vmid].(nets := vms[vmid].nets[k := h.nets[k]])];
        assert h.nets[k..][1..] == h.nets[k + 1..];
      }
      return true;
    }

    method CloneAll(t: Topo) returns (ok: bool)
      modifies this
      ensures (State(), ok) == Run(template, Clones(t, t.hosts), old(State()))
    {
      assert t.hosts[0..] == t.hosts;
      for k := 0 to |t.hosts|
        invariant Run(template, Clones(t, t.hosts), old(State())) == Run(template, Clones(t, t.hosts[k..]), State())
      {
        assert t.hosts[k..][1..] == t.hosts[k + 1..];
        Unfold(template, Clones(t, t.hosts[k..]), State());
        ok := CloneVm(t.VmidOf(t.hosts[k]), t.NameOf(t.hosts[k]));
        if !ok {
          return;
        }
      }
      return true;
    }

    method ShapeAll(t: Topo) returns (ok: bool)
      modifies this
      ensures (State(), ok) == Run(template, Shapes(t, t.hosts), old(State()))
    {
      assert t.hosts[0..] == t.hosts;
      for k := 0 to |t.hosts|
        invariant Run(template, Shapes(t, t.hosts), old(State())) == Run(template, Shapes(t, t.hosts[k..]), State())
      {
        assert t.hosts[k..][1..] == t.hosts[k + 1..];
        RunConcat(template, Shape(t, t.hosts[k]), Shapes(t, t.hosts[k + 1..]), State());
        ok := ShapeVm(t, t.hosts[k]);
        if !ok {
          return;
        }
      }
      return true;
    }

    method StartAll(t: Topo) returns (ok: bool)
      modifies this
      ensures (State(), ok) == Run(template, Starts(t, t.hosts), old(State()))
    {
      assert t.hosts[0..] == t.hosts;
      for k := 0 to |t.hosts|
        invariant Run(template, Starts(t, t.hosts), old(State())) == Run(template, Starts(t, t.hosts[k..]), State())
      {
        var vmid := t.VmidOf(t.hosts[k]);
        assert t.hosts[k..][1..] == t.hosts[k + 1..];
        Unfold(template, Starts(t, t.hosts[k..]), State());
        if vmid !in vms {
          return false;
        }
        if !vms[vmid].running {
          vms := vms[vmid := vms[vmid].(running := true)];
        }
      }
      return true;
    }

    /** The script is its program: same final cluster, and it gets through exactly when every command does. */
    method Create(t: Topo) returns (ok: bool)
      modifies this
      ensures (State(), ok) == Run(template, Program(t), old(State()))
    {
      ghost var tail := Shapes(t, t.hosts) + Starts(t, t.hosts);
      RunConcat(template, Clones(t, t.hosts), SdnCommands(t) + tail, State());
      ok := CloneAll(t);
      if !ok {
        return;
      }
      RunConcat(template, SdnCommands(t), tail, State());
      if t.qinq {
        CreateSdnQinq(t);
      }
      RunConcat(template, Shapes(t, t.hosts), Starts(t, t.hosts), State());
      ok := ShapeAll(t);
      if !ok {
        return;
      }
      ok := StartAll(t);
    }
  }

  lemma Unfold(template: Vm, prog: seq<Command>, c: Pve)
    requires prog != []
    ensures Run(template, prog, c) ==
            match Exec(template, prog[0], c) case Die => (c, false) case Ok(c') => Run(template, prog[1..], c')
  {
  }
}
