/** The per-run lifecycle record (scripts/run-state.py): what each command does to artifacts/run-state.json. */
module RunState {
  import opened Text

  // ---------- the two files ----------

  datatype HostRec = HostRec(vmid: int, vmName: string, ip: string)

  /** The parts of the resolved topology the record is built from; vnets maps a VNet to its network and inner VLAN. */
  datatype TopoFile = TopoFile(run: nat, hosts: map<string, HostRec>, zone: string, vnets: map<string, (string, int)>)

  datatype VmRec = VmRec(vmid: Option<int>, name: Option<string>, ip: Option<string>, status: Option<string>)

  datatype VnetRec = VnetRec(network: Option<string>, innerVlan: Option<int>, status: Option<string>)

  datatype Entry = Entry(name: string, status: string, at: int, message: string)

  datatype State = State(run: nat, createdAt: int, phase: string, phases: seq<Entry>, vms: map<string, VmRec>,
                         zone: string, zoneStatus: Option<string>, vnets: map<string, VnetRec>)

  const NO_VM := VmRec(None, None, None, None)
  const NO_VNET := VnetRec(None, None, None)

  // ---------- commands ----------

  /** runArg is the --run-id argument; the empty text asks for no check. */
  datatype Command = Init(phase: string)
                   | Phase(name: string, status: string, message: string, runArg: string)
                   | SetVm(host: string, vmStatus: string, ip: string, runArg: string)
                   | SetZone(sdnStatus: string, runArg: string)
                   | SetVnet(vnet: string, sdnStatus: string, runArg: string)
                   | SyncTopology(runArg: string)

  function DeclaredVm(h: HostRec): VmRec { VmRec(Some(h.vmid), Some(h.vmName), Some(h.ip), Some("declared")) }

  function DeclaredVms(t: TopoFile): map<string, VmRec> {
    map h | h in t.hosts :: DeclaredVm(t.hosts[h])
  }

  function DeclaredVnets(t: TopoFile): map<string, VnetRec> {
    map v | v in t.vnets :: VnetRec(Some(t.vnets[v].0), Some(t.vnets[v].1), Some("declared"))
  }

  function OrElse<T>(o: Option<T>, d: Option<T>): Option<T> { if o.Some? then o else d }

  function MergeVm(declared: VmRec, previous: VmRec): VmRec {
    declared.(status := OrElse(previous.status, declared.status), ip := OrElse(previous.ip, declared.ip))
  }

  /** Status and address of a previous record win over the declared ones. */
  function Merge(declared: map<string, VmRec>, previous: map<string, VmRec>): map<string, VmRec> {
    map h | h in declared :: if h in previous then MergeVm(declared[h], previous[h]) else declared[h]
  }

  function At<V>(m: map<string, V>, k: string, d: V): V { if k in m then m[k] else d }

  function SyncIps(vms: map<string, VmRec>, hosts: map<string, HostRec>): map<string, VmRec> {
    map h | h in vms.Keys + hosts.Keys ::
      if h in hosts then At(vms, h, NO_VM).(ip := Some(hosts[h].ip)) else vms[h]
  }

  predicate RunMatches(runArg: string, run: nat) { runArg == "" || runArg == Dec(run) }

  /** ensure_state: the stored record, or a fresh one from the topology; dies on a run ID that does not match. */
  function Ensure(topo: Option<TopoFile>, stored: Option<State>, runArg: string, now: int): Result<State> {
    if stored.Some? then (if RunMatches(runArg, stored.value.run) then Ok(stored.value) else Die)
    else if topo.None? then Die
    else
      var t := topo.value;
      if RunMatches(runArg, t.run)
      then Ok(State(t.run, now, "initialized", [], DeclaredVms(t), t.zone, None, DeclaredVnets(t)))
      else Die
  }

  function InitState(t: TopoFile, stored: Option<State>, phase: string, now: int): State {
    var entry := Entry(phase, "started", now, "");
    if stored.Some? && stored.value.run == t.run then
      State(t.run, stored.value.createdAt, phase, stored.value.phases + [entry],
            Merge(DeclaredVms(t), stored.value.vms), t.zone, None, DeclaredVnets(t))
    else State(t.run, now, phase, [entry], DeclaredVms(t), t.zone, None, DeclaredVnets(t))
  }

  /** The record a command writes; on Die the file is left alone. */
  function Apply(c: Command, topo: Option<TopoFile>, stored: Option<State>, now: int): Result<State> {
    if c.Init? then (if topo.None? then Die else Ok(InitState(topo.value, stored, c.phase, now)))
    else
      var ensured := Ensure(topo, stored, c.runArg, now);
      if ensured.Die? then Die
      else
        var s := ensured.value;
        match c
        case Phase(name, status, message, _) =>
          Ok(s.(phase := name, phases := s.phases + [Entry(name, status, now, message)]))
        case SetVm(host, status, ip, _) =>
          var vm := At(s.vms, host, NO_VM).(status := Some(status));
          Ok(s.(vms := s.vms[host := if ip == "" then vm else vm.(ip := Some(ip))]))
        case SetZone(status, _) => Ok(s.(zoneStatus := Some(status)))
        case SetVnet(vnet, status, _) =>
          Ok(s.(vnets := s.vnets[vnet := At(s.vnets, vnet, NO_VNET).(status := Some(status))]))
        case SyncTopology(_) => Ok(s.(vms := SyncIps(s.vms, if topo.Some? then topo.value.hosts else map[])))
  }

  /** A command together with the topology file and the time it finds. */
  datatype Event = Event(c: Command, topo: Option<TopoFile>, now: int)

  function After(e: Event, stored: Option<State>): Option<State> {
    var r := Apply(e.c, e.topo, stored, e.now);
    if r.Ok? then Some(r.value) else stored
  }

  function AfterAll(events: seq<Event>, stored: Option<State>): Option<State> {
    if events == [] then stored else AfterAll(events[1..], After(events[0], stored))
  }

  /** The script run against its file, the topology file being whatever it is at the time. */
  class StateFile {
    var stored: Option<State>

    method InitCommand(topo: Option<TopoFile>, phase: string, now: int) returns (ok: bool)
      modifies this
      ensures var r := Apply(Init(phase), topo, old(stored), now);
              ok == r.Ok? && stored == if ok then Some(r.value) else old(stored)
    {
      if topo.None? {
        return false;
      }
      var t := topo.value;
      var previous := if stored.Some? && stored.value.run == t.run then stored else None;
      var vms := DeclareVms(t, SortedOf(t.hosts.Keys));
      if previous.Some? {
        vms := MergeVms(vms, previous.value.vms, SortedOf(vms.Keys));
      }
      var entry := Entry(phase, "started", now, "");
      var createdAt := if previous.Some? then previous.value.createdAt else now;
      var phases := if previous.Some? then previous.value.phases else [];
      assert previous.None? ==> phases + [entry] == [entry];
      stored := Some(State(t.run, createdAt, phase, phases + [entry], vms, t.zone, None, DeclaredVnets(t)));
      return true;
    }

    method PhaseCommand(topo: Option<TopoFile>, name: string, status: string, message: string, runArg: string, now: int)
      returns (ok: bool)
      modifies this
      ensures var r := Apply(Phase(name, status, message, runArg), topo, old(stored), now);
              ok == r.Ok? && stored == if ok then Some(r.value) else old(stored)
    {
      var s := Ensure(topo, stored, runArg, now);
      if s.Die? {
        return false;
      }
      stored := Some(s.value.(phase := name, phases := s.value.phases + [Entry(name, status, now, message)]));
      return true;
    }

    method VmCommand(topo: Option<TopoFile>, host: string, status: string, ip: string, runArg: string, now: int)
      returns (ok: bool)
      modifies this
      ensures var r := Apply(SetVm(host, status, ip, runArg), topo, old(stored), now);
              ok == r.Ok? && stored == if ok then Some(r.value) else old(stored)
    {
      var s := Ensure(topo, stored, runArg, now);
      if s.Die? {
        return false;
      }
      var vm := At(s.value.vms, host, NO_VM).(status := Some(status));
      if ip != "" {
        vm := vm.(ip := Some(ip));
      }
      stored := Some(s.value.(vms := s.value.vms[host := vm]));
      return true;
    }

    method SdnCommand(topo: Option<TopoFile>, zone: bool, name: string, status: string, runArg: string, now: int)
      returns (ok: bool)
      modifies this
      ensures var c := if zone then SetZone(status, runArg) else SetVnet(name, status, runArg);
              var r := Apply(c, topo, old(stored), now);
              ok == r.Ok? && stored == if ok then Some(r.value) else old(stored)
    {
      var s := Ensure(topo, stored, runArg, now);
      if s.Die? {
        return false;
      }
      if zone {
        stored := Some(s.value.(zoneStatus := Some(status)));
      } else {
        var vnet := At(s.value.vnets, name, NO_VNET).(status := Some(status));
        stored := Some(s.value.(vnets := s.value.vnets[name := vnet]));
      }
      return true;
    }

    method SyncCommand(topo: Option<TopoFile>, runArg: string, now: int) returns (ok: bool)
      modifies this
      ensures var r := Apply(SyncTopology(runArg), topo, old(stored), now);
              ok == r.Ok? && stored == if ok then Some(r.value) else old(stored)
    {
      var s := Ensure(topo, stored, runArg, now);
      if s.Die? {
        return false;
      }
      var hosts: map<string, HostRec> := if topo.Some? then topo.value.hosts else map[];
      var vms := SyncVms(s.value.vms, hosts, SortedOf(hosts.Keys));
      stored := Some(s.value.(vms := vms));
      return true;
    }

    /** One invocation of the script. */
    method Invoke(c: Command, topo: Option<TopoFile>, now: int) returns (ok: bool)
      modifies this
      ensures var r := Apply(c, topo, old(stored), now);
              ok == r.Ok? && stored == if ok then Some(r.value) else old(stored)
    {
      match c
      case Init(phase) => ok := InitCommand(topo, phase, now);
      case Phase(name, status, message, runArg) => ok := PhaseCommand(topo, name, status, message, runArg, now);
      case SetVm(host, status, ip, runArg) => ok := VmCommand(topo, host, status, ip, runArg, now);
      case SetZone(status, runArg) => ok := SdnCommand(topo, true, "", status, runArg, now);
      case SetVnet(vnet, status, runArg) => ok := SdnCommand(topo, false, vnet, status, runArg, now);
      case SyncTopology(runArg) => ok := SyncCommand(topo, runArg, now);
    }

    /** Any number of invocations, failing ones included, with the topology file changing in between. */
    method InvokeAll(events: seq<Event>)
      modifies this
      ensures stored == AfterAll(events, old(stored))
    {
      assert events[0..] == events;
      for k := 0 to |events|
        invariant AfterAll(events, old(stored)) == AfterAll(events[k..], stored)
      {
        assert events[k..][1..] == events[k + 1..];
        var ok := Invoke(events[k].c, events[k].topo, events[k].now);
      }
    }
  }

  method DeclareVms(t: TopoFile, names: seq<string>) returns (vms: map<string, VmRec>)
    requires Elements(names) == t.hosts.Keys
    ensures vms == DeclaredVms(t)
  {
    vms := map[];
    for k := 0 to |names|
      invariant vms.Keys == Elements(names[..k])
      invariant forall h :: h in vms ==> h in t.hosts && vms[h] == DeclaredVm(t.hosts[h])
    {
      OneMoreName(names, k);
      vms := vms[names[k] := DeclaredVm(t.hosts[names[k]])];
    }
    assert names[..|names|] == names;
  }

  method MergeVms(declared: map<string, VmRec>, previous: map<string, VmRec>, names: seq<string>)
    returns (vms: map<string, VmRec>)
    requires Elements(names) == declared.Keys
    ensures vms == Merge(declared, previous)
  {
    vms := declared;
    for k := 0 to |names|
      invariant vms.Keys == declared.Keys
      invariant forall h :: h in vms ==>
                  vms[h] == if h in Elements(names[..k]) && h in previous then MergeVm(declared[h], previous[h])
                            else declared[h]
    {
      OneMoreName(names, k);
      if names[k] in previous {
        vms := vms[names[k] := MergeVm(vms[names[k]], previous[names[k]])];
      }
    }
    assert names[..|names|] == names;
  }

  method SyncVms(before: map<string, VmRec>, hosts: map<string, HostRec>, names: seq<string>)
    returns (vms: map<string, VmRec>)
    requires Elements(names) == hosts.Keys
    ensures vms == SyncIps(before, hosts)
  {
    vms := before;
    for k := 0 to |names|
      invariant vms.Keys == before.Keys + Elements(names[..k])
      invariant forall h :: h in vms ==>
                  vms[h] == if h in Elements(names[..k]) then At(before, h, NO_VM).(ip := Some(hosts[h].ip))
                            else before[h]
    {
      OneMoreName(names, k);
      vms := vms[names[k] := At(vms, names[k], NO_VM).(ip := Some(hosts[names[k]].ip))];
    }
    assert names[..|names|] == names;
  }

  lemma OneMoreName(names: seq<string>, k: nat)
    requires k < |names|
    ensures Elements(names[..k + 1]) == Elements(names[..k]) + {names[k]}
    ensures names[k] in Elements(names) && Elements(names[..k]) <= Elements(names)
  {
    assert names[..k + 1] == names[..k] + [names[k]];
  }

  // ---------- single commands ----------

  /** Only the decimal form of the record's own run ID gets past the check. */
  lemma OneRunGetsThrough(c: Command, topo: Option<TopoFile>, s: State, now: int, run: nat)
    requires !c.Init? && c.runArg == Dec(run)
    ensures Apply(c, topo, Some(s), now).Ok? <==> run == s.run
  {
    DecInjective(run, s.run);
  }

  /** Re-initialising the same run: VM status and address survive for exactly the hosts still declared; every SDN
      status goes back to declared; all else is as the topology now has it, and the history gets one more entry. */
  lemma ReinitKeeps(t: TopoFile, s: State, phase: string, now: int)
    requires s.run == t.run
    ensures var s' := InitState(t, Some(s), phase, now);
            && s'.vms.Keys == t.hosts.Keys
            && (forall h :: h in t.hosts && h in s.vms && s.vms[h].status.Some? ==> s'.vms[h].status == s.vms[h].status)
            && (forall h :: h in t.hosts && h in s.vms && s.vms[h].ip.Some? ==> s'.vms[h].ip == s.vms[h].ip)
            && (forall h :: h in t.hosts && h !in s.vms ==>
                  s'.vms[h].status == Some("declared") && s'.vms[h].ip == Some(t.hosts[h].ip))
            && s'.zoneStatus == None && s'.vnets.Keys == t.vnets.Keys
            && (forall v :: v in s'.vnets ==> s'.vnets[v].status == Some("declared"))
            && s'.createdAt == s.createdAt && s'.phases == s.phases + [Entry(phase, "started", now, "")]
    ensures var s' := InitState(t, Some(s), phase, now);
            && s'.run == t.run && s'.phase == phase && s'.zone == t.zone
            && (forall h :: h in t.hosts ==>
                  s'.vms[h].vmid == Some(t.hosts[h].vmid) && s'.vms[h].name == Some(t.hosts[h].vmName))
            && forall v :: v in t.vnets ==>
                 s'.vnets[v].network == Some(t.vnets[v].0) && s'.vnets[v].innerVlan == Some(t.vnets[v].1)
  {
  }

  // ---------- sequences of commands ----------

  predicate PhaseIsLast(s: State) {
    s.phase == if s.phases == [] then "initialized" else s.phases[|s.phases| - 1].name
  }

  /** Over every sequence of commands, the phase is the name of the last history entry. */
  lemma {:induction false} PhaseAlwaysLast(events: seq<Event>, stored: Option<State>)
    requires stored.Some? ==> PhaseIsLast(stored.value)
    ensures AfterAll(events, stored).Some? ==> PhaseIsLast(AfterAll(events, stored).value)
  {
    if events != [] {
      PhaseAlwaysLast(events[1..], After(events[0], stored));
    }
  }

  /** Events that never re-initialise for another run. */
  predicate StaysInRun(events: seq<Event>, run: nat) {
    forall e :: e in events && e.c.Init? && e.topo.Some? ==> e.topo.value.run == run
  }

  lemma OneEventAppends(e: Event, s: State)
    requires e.c.Init? && e.topo.Some? ==> e.topo.value.run == s.run
    ensures After(e, Some(s)).Some?
    ensures var s' := After(e, Some(s)).value;
            && s'.run == s.run && s'.createdAt == s.createdAt
            && |s.phases| <= |s'.phases| <= |s.phases| + 1 && s'.phases[..|s.phases|] == s.phases
  {
  }

  /** While the run stays the same, history is append-only and the creation time constant. */
  lemma {:induction false} HistoryAppendOnly(events: seq<Event>, s: State)
    requires StaysInRun(events, s.run)
    ensures AfterAll(events, Some(s)).Some?
    ensures var s' := AfterAll(events, Some(s)).value;
            && s'.run == s.run && s'.createdAt == s.createdAt
            && |s.phases| <= |s'.phases| && s'.phases[..|s.phases|] == s.phases
  {
    if events != [] {
      assert events[0] in events;
      OneEventAppends(events[0], s);
      var s1 := After(events[0], Some(s)).value;
      HistoryAppendOnly(events[1..], s1);
      var s2 := AfterAll(events[1..], Some(s1)).value;
      assert s2.phases[..|s.phases|] == s2.phases[..|s1.phases|][..|s.phases|];
    }
  }

  /** A command that carries the run ID of another run. */
  predicate Foreign(e: Event, run: nat) {
    !e.c.Init? && e.c.runArg != "" && e.c.runArg != Dec(run)
  }

  function WithoutForeign(events: seq<Event>, run: nat): seq<Event> {
    if events == [] then []
    else (if Foreign(events[0], run) then [] else [events[0]]) + WithoutForeign(events[1..], run)
  }

  /** Commands of other runs might as well not have been given: wherever they occur in a sequence, the record ends up
      the same without them. */
  lemma {:induction false} MismatchChangesNothing(events: seq<Event>, s: State)
    requires StaysInRun(events, s.run)
    ensures AfterAll(events, Some(s)) == AfterAll(WithoutForeign(events, s.run), Some(s))
  {
    if events != [] {
      var e, rest := events[0], WithoutForeign(events[1..], s.run);
      assert e in events;
      OneEventAppends(e, s);
      MismatchChangesNothing(events[1..], After(e, Some(s)).value);
      if Foreign(e, s.run) {
        assert WithoutForeign(events, s.run) == rest;
      } else {
        assert WithoutForeign(events, s.run)[1..] == rest;
      }
    }
  }
}
