/** What a sequence of commands leaves in the run record, said without the commands' code (scripts/run-state.py). */
module RunHistory {
  import opened Text
  import opened RunState

  /** On a record of the given run the command is carried out: init when there is a topology file, any other command
      when it names this run or none. */
  predicate Heard(e: Event, run: nat) {
    if e.c.Init? then e.topo.Some? else e.c.runArg == "" || e.c.runArg == Dec(run)
  }

  // ---------- one command ----------

  /** A carried-out command changes what it names and nothing else: a phase command appends exactly its entry, a zone or
      VNet command sets that object's status, a VM command sets that VM's status and, if it gives one, its address, and
      sync sets the addresses of the declared hosts. A command that is not carried out changes nothing. */
  lemma CommandExactly(e: Event, s: State)
    requires !e.c.Init?
    ensures After(e, Some(s)).Some?
    ensures !Heard(e, s.run) ==> After(e, Some(s)) == Some(s)
    ensures Heard(e, s.run) ==>
              var s', c := After(e, Some(s)).value, e.c;
              && s'.run == s.run && s'.createdAt == s.createdAt && s'.zone == s.zone
              && s'.phase == (if c.Phase? then c.name else s.phase)
              && s'.phases == s.phases + (if c.Phase? then [Entry(c.name, c.status, e.now, c.message)] else [])
              && s'.zoneStatus == (if c.SetZone? then Some(c.sdnStatus) else s.zoneStatus)
              && VnetsSet(s.vnets, s'.vnets, c) && VmsSet(s.vms, s'.vms, c)
              && (if c.SyncTopology? && e.topo.Some? then AddressesSet(s.vms, s'.vms, e.topo.value.hosts)
                  else c.SyncTopology? ==> s'.vms == s.vms)
  {
  }

  predicate VnetsSet(before: map<string, VnetRec>, after: map<string, VnetRec>, c: Command) {
    if c.SetVnet? then
      && after.Keys == before.Keys + {c.vnet} && after[c.vnet].status == Some(c.sdnStatus)
      && after[c.vnet].network == (if c.vnet in before then before[c.vnet].network else None)
      && after[c.vnet].innerVlan == (if c.vnet in before then before[c.vnet].innerVlan else None)
      && forall v :: v in before && v != c.vnet ==> after[v] == before[v]
    else after == before
  }

  predicate VmsSet(before: map<string, VmRec>, after: map<string, VmRec>, c: Command) {
    if c.SetVm? then
      && after.Keys == before.Keys + {c.host} && after[c.host].status == Some(c.vmStatus)
      && after[c.host].ip == (if c.ip != "" then Some(c.ip) else if c.host in before then before[c.host].ip else None)
      && after[c.host].vmid == (if c.host in before then before[c.host].vmid else None)
      && after[c.host].name == (if c.host in before then before[c.host].name else None)
      && forall h :: h in before && h != c.host ==> after[h] == before[h]
    else c.SyncTopology? || after == before
  }

  predicate AddressesSet(before: map<string, VmRec>, after: map<string, VmRec>, hosts: map<string, HostRec>) {
    && after.Keys == before.Keys + hosts.Keys
    && (forall h :: h in hosts ==> after[h].ip == Some(hosts[h].ip))
    && (forall h :: h in hosts && h in before ==> after[h] == before[h].(ip := after[h].ip))
    && (forall h :: h in hosts && h !in before ==> after[h] == VmRec(None, None, after[h].ip, None))
    && forall h :: h in before && h !in hosts ==> after[h] == before[h]
  }

  /** All of a topology as first recorded. */
  predicate AsDeclared(t: TopoFile, s: State) {
    && s.run == t.run && s.zone == t.zone && s.zoneStatus == None
    && s.vms.Keys == t.hosts.Keys && s.vnets.Keys == t.vnets.Keys
    && (forall h :: h in t.hosts ==>
          s.vms[h] == VmRec(Some(t.hosts[h].vmid), Some(t.hosts[h].vmName), Some(t.hosts[h].ip), Some("declared")))
    && forall v :: v in t.vnets ==> s.vnets[v] == VnetRec(Some(t.vnets[v].0), Some(t.vnets[v].1), Some("declared"))
  }

  /** Initialising for a run that has no record yet, or in place of another run's record, starts a new one. */
  lemma InitExactly(t: TopoFile, stored: Option<State>, phase: string, now: int)
    requires stored.Some? ==> stored.value.run != t.run
    ensures var after := After(Event(Init(phase), Some(t), now), stored);
            after.Some? && AsDeclared(t, after.value) && after.value.createdAt == now
            && after.value.phase == phase && after.value.phases == [Entry(phase, "started", now, "")]
  {
  }

  /** Without a record, a command starts from a new one, with an empty history, if there is a topology file and the
      command names its run or none; otherwise it leaves none. */
  lemma FirstCommandExactly(e: Event)
    requires !e.c.Init?
    ensures After(e, None).Some? <==> e.topo.Some? && Heard(e, e.topo.value.run)
    ensures After(e, None).Some? ==>
              exists s: State :: AsDeclared(e.topo.value, s) && s.createdAt == e.now && s.phase == "initialized"
                                 && s.phases == [] && After(e, None) == After(e, Some(s))
  {
    if e.topo.Some? && Heard(e, e.topo.value.run) {
      var s := Ensure(e.topo, None, e.c.runArg, e.now).value;
      assert AsDeclared(e.topo.value, s) && After(e, None) == After(e, Some(s));
    }
  }

  // ---------- a field over a sequence of commands ----------

  /** A field of the record that commands set. */
  datatype Field = VnetStatus(vnet: string) | ZoneStatus | VmStatus(host: string) | VmIp(host: string)

  function ValueOf(s: State, f: Field): Option<string> {
    match f
    case VnetStatus(v) => if v in s.vnets then s.vnets[v].status else None
    case ZoneStatus => s.zoneStatus
    case VmStatus(h) => if h in s.vms then s.vms[h].status else None
    case VmIp(h) => if h in s.vms then s.vms[h].ip else None
  }

  /** What a command does to a field: it sets or clears it, fills it in if it is not set, or leaves it alone. */
  datatype Effect = Sets(value: Option<string>) | FillsIn(text: string) | Leaves

  function EffectOf(e: Event, run: nat, f: Field): Effect {
    if !Heard(e, run) then Leaves
    else
      match f
      case VnetStatus(v) =>
        if e.c.Init? then Sets(if v in e.topo.value.vnets then Some("declared") else None)
        else if e.c.SetVnet? && e.c.vnet == v then Sets(Some(e.c.sdnStatus))
        else Leaves
      case ZoneStatus =>
        if e.c.Init? then Sets(None) else if e.c.SetZone? then Sets(Some(e.c.sdnStatus)) else Leaves
      case VmStatus(h) =>
        if e.c.Init? then (if h in e.topo.value.hosts then FillsIn("declared") else Sets(None))
        else if e.c.SetVm? && e.c.host == h then Sets(Some(e.c.vmStatus))
        else Leaves
      case VmIp(h) =>
        if e.c.Init? then (if h in e.topo.value.hosts then FillsIn(e.topo.value.hosts[h].ip) else Sets(None))
        else if e.c.SetVm? && e.c.host == h && e.c.ip != "" then Sets(Some(e.c.ip))
        else if e.c.SyncTopology? && e.topo.Some? && h in e.topo.value.hosts then Sets(Some(e.topo.value.hosts[h].ip))
        else Leaves
  }

  lemma OneEffect(e: Event, s: State, f: Field)
    requires e.c.Init? && e.topo.Some? ==> e.topo.value.run == s.run
    ensures After(e, Some(s)).Some? && After(e, Some(s)).value.run == s.run
    ensures var now := ValueOf(After(e, Some(s)).value, f);
            match EffectOf(e, s.run, f)
            case Sets(x) => now == x
            case FillsIn(x) => now == if ValueOf(s, f).Some? then ValueOf(s, f) else Some(x)
            case Leaves => now == ValueOf(s, f)
  {
    OneEventAppends(e, s);
  }

  /** Over any sequence of commands on one run's record, failing and foreign ones included: a field has the value of the
      last carried-out command that sets or clears it, or the one it had before when there is none; and if that leaves
      it unset, the value of the first init after it that declares the host, if there is one. So the status of a VNet or
      of the zone is that of the last command for that very object since the last init, and the status of a VM that of
      its last command, inits that still declare it notwithstanding. */
  lemma {:induction false} LastWord(events: seq<Event>, s: State, f: Field, k: int)
    requires StaysInRun(events, s.run)
    requires -1 <= k < |events| && (k >= 0 ==> EffectOf(events[k], s.run, f).Sets?)
    requires forall j :: k < j < |events| ==> !EffectOf(events[j], s.run, f).Sets?
    ensures AfterAll(events, Some(s)).Some?
    ensures var last := if k >= 0 then EffectOf(events[k], s.run, f).value else ValueOf(s, f);
            var now := ValueOf(AfterAll(events, Some(s)).value, f);
            && (last.Some? ==> now == last)
            && (last.None? && (forall j :: k < j < |events| ==> EffectOf(events[j], s.run, f).Leaves?) ==> now == None)
            && (last.None? ==> forall i :: k < i < |events| && EffectOf(events[i], s.run, f).FillsIn?
                                           && (forall j :: k < j < i ==> EffectOf(events[j], s.run, f).Leaves?) ==>
                                 now == Some(EffectOf(events[i], s.run, f).text))
  {
    if events != [] {
      var e, rest := events[0], events[1..];
      assert e in events && forall x :: x in rest ==> x in events;
      assert forall j :: 0 < j < |events| ==> events[j] == rest[j - 1];
      OneEffect(e, s, f);
      var s1 := After(e, Some(s)).value;
      LastWord(rest, s1, f, if k <= 0 then -1 else k - 1);
    }
  }
}
