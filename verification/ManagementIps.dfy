/** Management addresses live in two files, the topology and the run record: who keeps them equal
    (scripts/render-topology.py, scripts/run-state.py, scripts/pve-wait-ssh.sh). */
module ManagementIps {
  import opened Text
  import opened RunState

  function TopoIp(t: TopoFile, h: string): string { if h in t.hosts then t.hosts[h].ip else "" }

  function RecordedIp(s: State, h: string): string {
    if h in s.vms && s.vms[h].ip.Some? then s.vms[h].ip.value else ""
  }

  ghost predicate Agree(t: TopoFile, s: State) {
    s.run == t.run && forall h :: RecordedIp(s, h) == TopoIp(t, h)
  }

  // ---------- update-ips ----------

  function SetIp(t: TopoFile, h: string, ip: string): TopoFile
    requires h in t.hosts
  {
    t.(hosts := t.hosts[h := t.hosts[h].(ip := ip)])
  }

  /** What update-ips makes of its host=ip arguments, left to right; an argument without "=" or with an unknown host
      ends it with nothing written. */
  function UpdateIps(t: TopoFile, args: seq<string>): Result<TopoFile>
    decreases args
  {
    if args == [] then Ok(t)
    else
      var p := SplitFirst(args[0], '=');
      if p.None? || p.value.0 !in t.hosts then Die
      else UpdateIps(SetIp(t, p.value.0, p.value.1), args[1..])
  }

  class TopologyFile {
    var data: TopoFile

    method UpdateIpsCommand(args: seq<string>) returns (ok: bool)
      modifies this
      ensures ok == UpdateIps(old(data), args).Ok?
      ensures data == if ok then UpdateIps(old(data), args).value else old(data)
    {
      var loaded := data;
      assert args[0..] == args;
      for k := 0 to |args|
        invariant data == old(data)
        invariant UpdateIps(old(data), args) == UpdateIps(loaded, args[k..])
      {
        var p := SplitFirst(args[k], '=');
        if p.None? || p.value.0 !in loaded.hosts {
          return false;
        }
        loaded := SetIp(loaded, p.value.0, p.value.1);
        assert args[k..][1..] == args[k + 1..];
      }
      data := loaded;
      return true;
    }
  }

  // ---------- wait-ssh ----------

  /** The script's results: one address per host, in the order of the topology. */
  datatype Found = Found(host: string, ip: string) {
    function Arg(): string { host + "=" + ip }
  }

  function Args(found: seq<Found>): seq<string> {
    if found == [] then [] else [found[0].Arg()] + Args(found[1..])
  }

  function SetAll(t: TopoFile, found: seq<Found>): TopoFile
    requires forall f :: f in found ==> f.host in t.hosts
    decreases found
  {
    if found == [] then t
    else
      assert forall f :: f in found[1..] ==> f in found;
      SetAll(SetIp(t, found[0].host, found[0].ip), found[1..])
  }

  /** vm <host> ssh-ready --management-ip <ip>, for each result in turn; Die when a command does not get through. */
  function ReadyAll(s: State, found: seq<Found>, runArg: string, now: int): Result<State>
    decreases found
  {
    if found == [] then Ok(s)
    else
      match Apply(SetVm(found[0].host, "ssh-ready", found[0].ip, runArg), None, Some(s), now)
      case Die => Die
      case Ok(next) => ReadyAll(next, found[1..], runArg, now)
  }

  lemma {:induction false} ArgsSet(t: TopoFile, found: seq<Found>)
    requires forall f :: f in found ==> f.host in t.hosts && IsName(f.host)
    ensures UpdateIps(t, Args(found)) == Ok(SetAll(t, found))
    decreases found
  {
    if found != [] {
      assert found[0] in found && forall f :: f in found[1..] ==> f in found;
      assert '=' !in found[0].host;
      SplitFirstOf(found[0].host, found[0].ip, '=');
      ArgsSet(SetIp(t, found[0].host, found[0].ip), found[1..]);
    }
  }

  lemma {:induction false} SetAllFinds(t: TopoFile, found: seq<Found>, h: string)
    requires forall f :: f in found ==> f.host in t.hosts
    requires forall i, j :: 0 <= i < j < |found| ==> found[i].host != found[j].host
    ensures SetAll(t, found).hosts.Keys == t.hosts.Keys && SetAll(t, found).run == t.run
    ensures (forall f :: f in found ==> f.host != h) ==> TopoIp(SetAll(t, found), h) == TopoIp(t, h)
    ensures forall f :: f in found && f.host == h ==> TopoIp(SetAll(t, found), h) == f.ip
    decreases found
  {
    if found != [] {
      assert found[0] in found && forall f :: f in found[1..] ==> f in found;
      SetAllFinds(SetIp(t, found[0].host, found[0].ip), found[1..], h);
    }
  }

  lemma {:induction false} ReadyAllKeeps(s: State, found: seq<Found>, runArg: string, now: int, h: string)
    requires RunMatches(runArg, s.run) && forall f :: f in found ==> RecordedIp(s, f.host) == f.ip
    ensures ReadyAll(s, found, runArg, now).Ok?
    ensures var s' := ReadyAll(s, found, runArg, now).value;
            && s'.run == s.run && RecordedIp(s', h) == RecordedIp(s, h)
            && forall f :: f in found && f.host == h ==> h in s'.vms && s'.vms[h].status == Some("ssh-ready")
    decreases found
  {
    if found != [] {
      assert found[0] in found && forall f :: f in found[1..] ==> f in found;
      var next := Apply(SetVm(found[0].host, "ssh-ready", found[0].ip, runArg), None, Some(s), now).value;
      assert forall g :: RecordedIp(next, g) == RecordedIp(s, g);
      ReadyAllKeeps(next, found[1..], runArg, now, h);
      if h == found[0].host && forall f :: f in found[1..] ==> f.host != h {
        ReadyAllOthers(next, found[1..], runArg, now, h);
      }
    }
  }

  lemma {:induction false} ReadyAllOthers(s: State, found: seq<Found>, runArg: string, now: int, h: string)
    requires RunMatches(runArg, s.run) && forall f :: f in found ==> f.host != h
    ensures ReadyAll(s, found, runArg, now).Ok?
    ensures var s' := ReadyAll(s, found, runArg, now).value;
            (h in s'.vms <==> h in s.vms) && (h in s.vms ==> s'.vms[h] == s.vms[h])
    decreases found
  {
    if found != [] {
      assert found[0] in found && forall f :: f in found[1..] ==> f in found;
      var next := Apply(SetVm(found[0].host, "ssh-ready", found[0].ip, runArg), None, Some(s), now).value;
      ReadyAllOthers(next, found[1..], runArg, now, h);
    }
  }

  /** No address recorded for a host the topology does not declare. */
  ghost predicate NoStray(t: TopoFile, s: State) {
    forall h :: h !in t.hosts ==> RecordedIp(s, h) == ""
  }

  /** A completed wait-ssh (one address per host): update-ips, then sync-topology, then ssh-ready for every host. Every
      command gets through. The addresses found are in the topology, the record agrees with it on every declared host
      and marks every host found ready, and the files agree altogether exactly when no address was recorded for an
      undeclared host. */
  lemma WaitSshAgrees(t: TopoFile, s: State, found: seq<Found>, runArg: string, now: int)
    requires s.run == t.run && RunMatches(runArg, s.run)
    requires forall f :: f in found ==> f.host in t.hosts && IsName(f.host)
    requires forall i, j :: 0 <= i < j < |found| ==> found[i].host != found[j].host
    ensures UpdateIps(t, Args(found)).Ok?
    ensures var t' := UpdateIps(t, Args(found)).value;
            var synced := Apply(SyncTopology(runArg), Some(t'), Some(s), now);
            && synced.Ok? && ReadyAll(synced.value, found, runArg, now).Ok?
            && var s' := ReadyAll(synced.value, found, runArg, now).value;
               && (forall f :: f in found ==> TopoIp(t', f.host) == f.ip)
               && (forall f :: f in found ==> f.host in s'.vms && s'.vms[f.host].status == Some("ssh-ready"))
               && (forall h :: h in t.hosts ==> RecordedIp(s', h) == TopoIp(t', h))
               && (Agree(t', s') <==> NoStray(t, s))
  {
    var t' := SetAll(t, found);
    FoundAreSet(t, found);
    var synced := Apply(SyncTopology(runArg), Some(t'), Some(s), now).value;
    assert forall h :: RecordedIp(synced, h) == if h in t.hosts then TopoIp(t', h) else RecordedIp(s, h);
    AllReady(synced, found, runArg, now);
    var s' := ReadyAll(synced, found, runArg, now).value;
    assert forall h :: h !in t.hosts ==> TopoIp(t', h) == "" && RecordedIp(s', h) == RecordedIp(s, h);
  }

  lemma FoundAreSet(t: TopoFile, found: seq<Found>)
    requires forall f :: f in found ==> f.host in t.hosts && IsName(f.host)
    requires forall i, j :: 0 <= i < j < |found| ==> found[i].host != found[j].host
    ensures UpdateIps(t, Args(found)) == Ok(SetAll(t, found))
    ensures SetAll(t, found).hosts.Keys == t.hosts.Keys && SetAll(t, found).run == t.run
    ensures forall f :: f in found ==> TopoIp(SetAll(t, found), f.host) == f.ip
  {
    ArgsSet(t, found);
    SetAllFinds(t, found, "");
    forall f | f in found ensures TopoIp(SetAll(t, found), f.host) == f.ip {
      SetAllFinds(t, found, f.host);
    }
  }

  lemma AllReady(s: State, found: seq<Found>, runArg: string, now: int)
    requires RunMatches(runArg, s.run) && forall f :: f in found ==> RecordedIp(s, f.host) == f.ip
    ensures ReadyAll(s, found, runArg, now).Ok?
    ensures var s' := ReadyAll(s, found, runArg, now).value;
            && s'.run == s.run && (forall h :: RecordedIp(s', h) == RecordedIp(s, h))
            && forall f :: f in found ==> f.host in s'.vms && s'.vms[f.host].status == Some("ssh-ready")
  {
    ReadyAllKeeps(s, found, runArg, now, "");
    var s' := ReadyAll(s, found, runArg, now).value;
    forall h ensures RecordedIp(s', h) == RecordedIp(s, h) { ReadyAllKeeps(s, found, runArg, now, h); }
    forall f | f in found ensures f.host in s'.vms && s'.vms[f.host].status == Some("ssh-ready") {
      ReadyAllKeeps(s, found, runArg, now, f.host);
    }
  }

  // ---------- rendering again ----------

  /** Re-rendering: addresses are carried over from the previous topology of the same run only. */
  function Render(previous: Option<TopoFile>, run: nat, declared: map<string, HostRec>, zone: string,
                  vnets: map<string, (string, int)>): TopoFile {
    TopoFile(run,
             map h | h in declared ::
               declared[h].(ip := if previous.Some? && previous.value.run == run then TopoIp(previous.value, h)
                                  else ""),
             zone, vnets)
  }

  /** Re-rendering followed by re-initialising keeps the two files in agreement, for the same run or a new one and
      whatever hosts are declared now. */
  lemma RerenderReinitAgrees(t: TopoFile, s: State, run: nat, declared: map<string, HostRec>, zone: string,
                             vnets: map<string, (string, int)>, phase: string, now: int)
    requires Agree(t, s)
    ensures var t' := Render(Some(t), run, declared, zone, vnets);
            Agree(t', InitState(t', Some(s), phase, now))
  {
    var t' := Render(Some(t), run, declared, zone, vnets);
    var s' := InitState(t', Some(s), phase, now);
    forall h ensures RecordedIp(s', h) == TopoIp(t', h) {
      assert RecordedIp(s, h) == TopoIp(t, h);
    }
  }

  // ---------- update-ips on its own ----------

  /** The address the last argument for a host gives it. */
  function Given(args: seq<string>, h: string): Option<string> {
    if args == [] then None
    else
      var later := Given(args[1..], h);
      var p := SplitFirst(args[0], '=');
      if later.None? && p.Some? && p.value.0 == h then Some(p.value.1) else later
  }

  /** update-ips changes addresses only: every host has the one its last argument gives, or the one it had. */
  lemma {:induction false} UpdateIpsExactly(t: TopoFile, args: seq<string>, h: string)
    requires UpdateIps(t, args).Ok?
    ensures var t' := UpdateIps(t, args).value;
            && t' == t.(hosts := t'.hosts) && t'.hosts.Keys == t.hosts.Keys && (Given(args, h).Some? ==> h in t.hosts)
            && (h in t.hosts ==> t'.hosts[h] == t.hosts[h].(ip := TopoIp(t', h)))
            && TopoIp(t', h) == (if Given(args, h).Some? then Given(args, h).value else TopoIp(t, h))
    decreases args
  {
    if args != [] {
      var p := SplitFirst(args[0], '=').value;
      UpdateIpsExactly(SetIp(t, p.0, p.1), args[1..], h);
    }
  }

  /** update-ips on its own keeps the agreement exactly when the last argument for every host repeats the address it
      already has. */
  lemma UpdateAloneBreaks(t: TopoFile, s: State, args: seq<string>)
    requires Agree(t, s) && UpdateIps(t, args).Ok?
    ensures Agree(UpdateIps(t, args).value, s) <==>
            forall h :: Given(args, h).Some? ==> Given(args, h).value == TopoIp(t, h)
  {
    var t' := UpdateIps(t, args).value;
    UpdateIpsExactly(t, args, "");
    forall h
      ensures RecordedIp(s, h) == TopoIp(t, h)
      ensures RecordedIp(s, h) == TopoIp(t', h) <==> (Given(args, h).Some? ==> Given(args, h).value == TopoIp(t, h))
    {
      UpdateIpsExactly(t, args, h);
    }
  }

  // ---------- who has an address ----------

  /** What the test suite insists on before anything else. */
  predicate AllAddressed(t: TopoFile) { forall h :: h in t.hosts ==> t.hosts[h].ip != "" }

  /** After wait-ssh found an address for every host, every host has one unless an empty one was found. */
  lemma WaitSshAddresses(t: TopoFile, found: seq<Found>)
    requires forall f :: f in found ==> f.host in t.hosts && IsName(f.host)
    requires forall i, j :: 0 <= i < j < |found| ==> found[i].host != found[j].host
    requires forall h :: h in t.hosts ==> exists f :: f in found && f.host == h
    ensures UpdateIps(t, Args(found)).Ok?
    ensures AllAddressed(UpdateIps(t, Args(found)).value) <==> forall f :: f in found ==> f.ip != ""
  {
    FoundAreSet(t, found);
    var t' := SetAll(t, found);
    forall f | f in found ensures t'.hosts[f.host].ip == f.ip {
      assert TopoIp(t', f.host) == f.ip;
    }
  }

  /** After rendering, exactly the hosts that had an address in a previous topology of the same run have one, the same;
      a first rendering leaves every host without. All else is as declared. */
  lemma RenderAddresses(previous: Option<TopoFile>, run: nat, declared: map<string, HostRec>, zone: string,
                        vnets: map<string, (string, int)>)
    ensures AllAddressed(Render(previous, run, declared, zone, vnets)) <==>
            declared == map[] || (previous.Some? && previous.value.run == run
                                  && forall h :: h in declared ==> TopoIp(previous.value, h) != "")
    ensures var t := Render(previous, run, declared, zone, vnets);
            && t.run == run && t.zone == zone && t.vnets == vnets && t.hosts.Keys == declared.Keys
            && forall h :: h in declared ==>
                 && t.hosts[h].vmid == declared[h].vmid && t.hosts[h].vmName == declared[h].vmName
                 && t.hosts[h].ip == if previous.Some? && previous.value.run == run && h in previous.value.hosts
                                     then previous.value.hosts[h].ip else ""
  {
    var t' := Render(previous, run, declared, zone, vnets);
    forall h | h in declared
      ensures t'.hosts[h].ip == if previous.Some? && previous.value.run == run then TopoIp(previous.value, h) else ""
    {}
    assert t'.hosts.Keys == declared.Keys;
    if declared != map[] {
      var h :| h in declared;
      assert h in t'.hosts;
    }
  }
}
