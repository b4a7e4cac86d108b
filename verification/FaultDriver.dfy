/** The fault protocol: health check, inject, observe, restore, recover, record, where every command on a host may fail
    or raise (tests/test_fault_injection.py). */
module FaultDriver {
  import opened Text
  import opened Topology
  import opened FaultChecks
  import opened FaultState
  import opened FaultSetup
  import opened Deployment
  import opened ManagementIps
  import S = RunState

  /** A ping command: its return code, or an exception (a timeout). */
  datatype Ping = Code(rc: int) | Raised

  /** How the injector's commands went: they took effect and it returned; it returned although some of them failed
      unnoticed, leaving any state at all; or one failed, timed out or was cut off, leaving any state at all, and the
      injector raised without returning an undo. */
  datatype Injection = Returns | ReturnsAnyway(left: World) | Raises(left: World)

  /** How the undo went: its commands took effect; they failed, which is not checked, leaving any state at all; or it
      raised. */
  datatype Undoing = TakesEffect | FailsSilently(left: World) | UndoRaises(left: World)

  /** Everything outside the driver's control: which addresses parse, the pings that fit before each deadline, the ping
      during the fault, and how injecting and undoing went. */
  datatype Outside = Outside(parses: string -> bool, before: seq<Ping>, injection: Injection, during: Ping,
                             undoing: Undoing, after: seq<Ping>)

  datatype FaultResult = FaultResult(name: string, expected: Impact, restored: bool, recovered: bool,
                                     reachable: Option<bool>)

  /** The observed return code matches the declared impact; 255 is an ssh failure and matches nothing. */
  predicate ImpactMatches(rc: int, expected: Impact) {
    rc != 255 && (expected.Outage? <==> rc != 0)
  }

  predicate Recovers(pings: seq<Ping>) {
    exists i :: 0 <= i < |pings| && pings[i] == Code(0) && forall j :: 0 <= j < i ==> pings[j].Code?
  }

  method WaitReachable(pings: seq<Ping>) returns (ok: bool)
    ensures ok <==> Recovers(pings)
  {
    for k := 0 to |pings|
      invariant forall j :: 0 <= j < k ==> pings[j].Code? && pings[j].rc != 0
    {
      if pings[k].Raised? {
        return false;
      }
      if pings[k].rc == 0 {
        return true;
      }
    }
    return false;
  }

  /** _assert_fault_impact, test by test. */
  method AssertImpact(rc: int, expected: Impact) returns (ok: bool)
    ensures ok <==> ImpactMatches(rc, expected)
    ensures expected.Outage? ==> (ok <==> rc != 0 && rc != 255)
    ensures expected.NoOutage? ==> (ok <==> rc == 0)
  {
    if rc == 255 {
      return false;
    }
    if expected.Outage? && rc == 0 {
      return false;
    }
    if expected.NoOutage? && rc != 0 {
      return false;
    }
    return true;
  }

  /** What the driver needs before it enters its try block: the topology fixture insists on management addresses. */
  predicate SetupOk(env: Env, f: Fault, o: Outside) {
    AllAddressed(env.file) && FaultPair(env.segs, f).Ok? && o.parses(FaultPair(env.segs, f).value.1.ip)
  }

  /** The injector returns: its lookups succeed, its devices are there, and its commands get through. */
  predicate Injects(env: Env, f: Fault, o: Outside, w: World) {
    ActionOf(env, f).Ok? && !o.injection.Raises? && Inject(w, ActionOf(env, f).value).Ok?
  }

  /** What an injector that raises has already changed: a VLAN move whose last command fails has still run the
      others. */
  function Aborted(w: World, a: Action): World {
    if a.MoveVlan? then
      var correct, wrong := (a.host, SubIf(a.base, a.vlan)), (a.host, SubIf(a.base, a.wrong));
      w.(links := VlanMoved(w.links, (a.host, a.base), correct, wrong, a.ip))
    else w
  }

  /** An injector that raises for want of its target has changed nothing, except that a VLAN move without the interface
      to move to has taken all addresses off the source's VLAN interface. */
  lemma AbortedExactly(w: World, a: Action)
    requires Inject(w, a).Die?
    ensures !a.MoveVlan? ==> Aborted(w, a) == w
    ensures a.MoveVlan? ==>
              var d := (a.host, a.base + "." + DecInt(a.vlan));
              Aborted(w, a) == if d in w.links then w.(links := w.links[d := w.links[d].(addrs := {})]) else w
  {
  }

  /** The state the injector and the undo, if there is one, leave behind. */
  function Left(env: Env, f: Fault, o: Outside, w: World): World {
    if ActionOf(env, f).Die? then w
    else if o.injection.Raises? then o.injection.left
    else
      match Inject(w, ActionOf(env, f).value)
      case Die => Aborted(w, ActionOf(env, f).value)
      case Ok((injected, undo)) =>
        var faulty := if o.injection.ReturnsAnyway? then o.injection.left else injected;
        if o.undoing.TakesEffect? then Restore(faulty, undo) else o.undoing.left
  }

  /** The flags and the impact verdict the protocol is to record. */
  predicate Restored(env: Env, f: Fault, o: Outside, w: World) {
    Recovers(o.before) && Injects(env, f, o, w) && !o.undoing.UndoRaises?
  }

  predicate ShowsImpact(f: Fault, o: Outside) { o.during.Code? && ImpactMatches(o.during.rc, f.impact) }

  predicate Recovered(env: Env, f: Fault, o: Outside, w: World) {
    Restored(env, f, o, w) && ShowsImpact(f, o) && Recovers(o.after)
  }

  /** The state a whole test leaves behind. */
  function Ends(env: Env, f: Fault, o: Outside, w: World): World {
    if SetupOk(env, f, o) && Recovers(o.before) then Left(env, f, o, w) else w
  }

  class Driver {
    var w: World
    var results: seq<FaultResult>

    /** The injector for the fault's type: an undo, or an exception. */
    method InjectFault(env: Env, f: Fault, o: Outside) returns (undo: Option<Undo>)
      modifies this`w
      ensures undo.Some? <==> Injects(env, f, o, old(w))
      ensures undo.Some? ==>
                var (injected, u) := Inject(old(w), ActionOf(env, f).value).value;
                undo.value == u && w == if o.injection.ReturnsAnyway? then o.injection.left else injected
      ensures undo.None? ==> w == Left(env, f, o, old(w))
    {
      var action := ActionOf(env, f);
      if action.Die? {
        return None;
      }
      if o.injection.Raises? {
        w := o.injection.left;
        return None;
      }
      match Inject(w, action.value)
      case Die =>
        w := Aborted(w, action.value);
        return None;
      case Ok((injected, u)) =>
        w := if o.injection.ReturnsAnyway? then o.injection.left else injected;
        return Some(u);
    }

    /** The inner try block with its finally: inject, ping, check the impact, and restore whatever happened. Whenever
        the injector returned its undo is run, also when the ping raised or the impact assertion failed, and the result
        says restored unless the undo raised. */
    method InjectAndRestore(env: Env, f: Fault, o: Outside, result: FaultResult) returns (r: FaultResult, ok: bool)
      modifies this`w
      ensures r.(restored := result.restored, reachable := result.reachable) == result
      ensures r.restored <==> result.restored || (Injects(env, f, o, old(w)) && !o.undoing.UndoRaises?)
      ensures Injects(env, f, o, old(w)) && o.during.Code? ==> r.reachable == Some(o.during.rc == 0)
      ensures ok <==> Injects(env, f, o, old(w)) && ShowsImpact(f, o) && !o.undoing.UndoRaises?
      ensures w == Left(env, f, o, old(w))
    {
      r, ok := result, false;
      var undo := InjectFault(env, f, o);
      if undo.Some? {
        if o.during.Code? {
          r := r.(reachable := Some(o.during.rc == 0));
          ok := AssertImpact(o.during.rc, f.impact);
        }
        w := if o.undoing.TakesEffect? then Restore(w, undo.value) else o.undoing.left;
        if o.undoing.UndoRaises? {
          ok := false;
        } else {
          r := r.(restored := true);
        }
      }
    }

    /** One fault test. Exactly one result is recorded when setup succeeds, none otherwise, whatever raises; an injector
        that returned is marked restored unless its undo raised, even when the impact assertion failed, and one that
        raised is not; recovered implies restored, the declared impact observed, and traffic back; and the test passes
        exactly when it recovered. When the undo took effect the testbed is back exactly if the state was restorable. */
    method RunFault(env: Env, f: Fault, o: Outside) returns (passed: bool)
      modifies this
      ensures |results| == |old(results)| + (if SetupOk(env, f, o) then 1 else 0)
      ensures results[..|old(results)|] == old(results)
      ensures SetupOk(env, f, o) ==>
                var r := results[|results| - 1];
                && r.name == f.name && r.expected == f.impact
                && (r.restored <==> Restored(env, f, o, old(w)))
                && (o.injection.Raises? ==> !r.restored)
                && (r.recovered <==> Recovered(env, f, o, old(w)))
                && (r.recovered ==> r.reachable == Some(f.impact.NoOutage?))
                && passed == r.recovered
      ensures !SetupOk(env, f, o) ==> !passed
      ensures w == Ends(env, f, o, old(w))
      ensures SetupOk(env, f, o) && results[|results| - 1].restored && o.injection.Returns? && o.undoing.TakesEffect?
              && WellFormed(old(w), ActionOf(env, f).value) ==>
                (w == old(w) <==> Restorable(old(w), ActionOf(env, f).value))
    {
      var found := FaultPair(env.segs, f);
      if !AllAddressed(env.file) || found.Die? || !o.parses(found.value.1.ip) {
        return false;
      }
      var result := FaultResult(f.name, f.impact, false, false, None);
      var ok := WaitReachable(o.before);
      if ok {
        result, ok := InjectAndRestore(env, f, o, result);
        if result.restored && WellFormed(old(w), ActionOf(env, f).value) {
          RestoreExactly(old(w), ActionOf(env, f).value);
        }
      }
      if ok {
        var back := WaitReachable(o.after);
        if back {
          result := result.(recovered := true);
        }
      }
      passed := result.recovered;
      results := results + [result];
    }
  }

  // ---------- what restored is worth ----------

  /** A test that reports restored ends in the state it started from exactly when the undo took effect on a restorable
      state, or when it failed and happened to leave that state. If the undo fails without changing anything, as when
      the host cannot be reached, that is exactly when the fault had changed nothing either; and if it was the injection
      that did nothing, unnoticed, exactly when the undo alone does no harm. */
  lemma RestoredExactly(env: Env, f: Fault, o: Outside, w: World)
    requires SetupOk(env, f, o) && Restored(env, f, o, w) && WellFormed(w, ActionOf(env, f).value)
    ensures var a, same := ActionOf(env, f).value, Ends(env, f, o, w) == w;
            && (o.injection.Returns? ==>
                  (same <==> if o.undoing.TakesEffect? then Restorable(w, a) else o.undoing.left == w))
            && (o.injection.Returns? && o.undoing == FailsSilently(Inject(w, a).value.0) ==> (same <==> Inert(w, a)))
            && (o.injection == ReturnsAnyway(w) && o.undoing.TakesEffect? ==> (same <==> UndoHarmless(w, a)))
  {
    RestoreExactly(w, ActionOf(env, f).value);
    InertExactly(w, ActionOf(env, f).value);
    UndoAloneExactly(w, ActionOf(env, f).value);
  }

  /** On a deployed testbed, for an accepted fault. */
  lemma DeployedRestoredExactly(env: Env, raw: Declared, evpn: bool, before: World, site: Site, w: World, f: Fault,
                                o: Outside)
    requires Prepared(env, raw, before, site) && Deployed(env, evpn, before, site, w) && FaultOk(env.segs, evpn, f)
    requires SetupOk(env, f, o) && Restored(env, f, o, w) && o.injection.Returns?
    ensures Ends(env, f, o, w) == w <==>
            if o.undoing.TakesEffect? then Undoable(site, env.segs, before, ActionOf(env, f).value)
            else o.undoing.left == w
  {
    DeployedFaultUndone(env, raw, evpn, before, site, w, f);
    RestoredExactly(env, f, o, w);
  }

  // ---------- a whole test session ----------

  /** No command fails unnoticed in this test: the injector, if it gets that far, returns after its commands took
      effect, and the undo takes effect. */
  predicate Smooth(o: Outside) { o.injection.Returns? && o.undoing.TakesEffect? }

  /** An accepted fault that can be undone if it finds its target. */
  predicate Gentle(env: Env, evpn: bool, site: Site, before: World, f: Fault) {
    FaultOk(env.segs, evpn, f) && (ActionOf(env, f).Ok? ==> Undoable(site, env.segs, before, ActionOf(env, f).value))
  }

  /** An action that is undone, or finds a NIC setting missing. */
  predicate Comes(w: World, a: Action) {
    if Inject(w, a).Ok? then Restore(Inject(w, a).value.0, Inject(w, a).value.1) == w else a.NicLinkDown?
  }

  lemma GentleComes(env: Env, raw: Declared, evpn: bool, before: World, site: Site, w: World, f: Fault)
    requires Prepared(env, raw, before, site) && Deployed(env, evpn, before, site, w)
    requires Gentle(env, evpn, site, before, f) && ActionOf(env, f).Ok?
    ensures Comes(w, ActionOf(env, f).value)
  {
    DeployedFaultUndone(env, raw, evpn, before, site, w, f);
  }

  lemma SmoothEnds(env: Env, w: World, f: Fault, o: Outside)
    requires Smooth(o) && (ActionOf(env, f).Ok? ==> Comes(w, ActionOf(env, f).value))
    ensures Ends(env, f, o, w) == w
  {
  }

  /** The state after all tests of a session. */
  function EndsAll(env: Env, faults: seq<Fault>, outside: seq<Outside>, w: World): World
    requires |faults| == |outside|
    decreases faults
  {
    if faults == [] then w else EndsAll(env, faults[1..], outside[1..], Ends(env, faults[0], outside[0], w))
  }

  /** The names of the faults whose setup succeeds, in order. */
  function Recorded(env: Env, faults: seq<Fault>, outside: seq<Outside>): seq<string>
    requires |faults| == |outside|
  {
    if faults == [] then []
    else (if SetupOk(env, faults[0], outside[0]) then [faults[0].name] else [])
         + Recorded(env, faults[1..], outside[1..])
  }

  function NamesOf(results: seq<FaultResult>): (r: seq<string>)
    ensures |r| == |results| && forall i :: 0 <= i < |r| ==> r[i] == results[i].name
  {
    seq(|results|, i requires 0 <= i < |results| => results[i].name)
  }

  /** One test, seen as a step of a session. */
  method RunNext(d: Driver, env: Env, f: Fault, o: Outside)
    modifies d
    ensures NamesOf(d.results) == NamesOf(old(d.results)) + if SetupOk(env, f, o) then [f.name] else []
    ensures d.w == Ends(env, f, o, old(d.w))
  {
    ghost var before := d.results;
    var passed := d.RunFault(env, f, o);
    if SetupOk(env, f, o) {
      assert d.results == before + [d.results[|before|]];
    } else {
      assert d.results == before;
    }
  }

  lemma NextTest(env: Env, faults: seq<Fault>, outside: seq<Outside>, k: nat, w: World)
    requires |faults| == |outside| && k < |faults|
    ensures Recorded(env, faults[k..], outside[k..]) ==
            (if SetupOk(env, faults[k], outside[k]) then [faults[k].name] else [])
            + Recorded(env, faults[k + 1..], outside[k + 1..])
    ensures EndsAll(env, faults[k..], outside[k..], w) ==
            EndsAll(env, faults[k + 1..], outside[k + 1..], Ends(env, faults[k], outside[k], w))
  {
    assert faults[k..][1..] == faults[k + 1..] && outside[k..][1..] == outside[k + 1..];
  }

  /** All fault tests of a session, one after the other. One result is added for each whose setup succeeds, in order,
      whatever happens in the others. */
  method RunSession(d: Driver, env: Env, faults: seq<Fault>, outside: seq<Outside>)
    requires |faults| == |outside|
    modifies d
    ensures NamesOf(d.results) == NamesOf(old(d.results)) + Recorded(env, faults, outside)
    ensures d.w == EndsAll(env, faults, outside, old(d.w))
  {
    assert faults[0..] == faults && outside[0..] == outside;
    for k := 0 to |faults|
      invariant NamesOf(old(d.results)) + Recorded(env, faults, outside) ==
                NamesOf(d.results) + Recorded(env, faults[k..], outside[k..])
      invariant EndsAll(env, faults, outside, old(d.w)) == EndsAll(env, faults[k..], outside[k..], d.w)
    {
      NextTest(env, faults, outside, k, d.w);
      ghost var names, rest := NamesOf(d.results), Recorded(env, faults[k + 1..], outside[k + 1..]);
      ghost var own := if SetupOk(env, faults[k], outside[k]) then [faults[k].name] else [];
      assert names + (own + rest) == (names + own) + rest;
      RunNext(d, env, faults[k], outside[k]);
    }
    assert NamesOf(d.results) + [] == NamesOf(d.results);
  }

  /** On a deployed testbed any number of undoable faults, found or not, observed as declared or not, leaves the
      deployed state, as long as no command fails unnoticed. */
  lemma {:induction false} SessionKeeps(env: Env, raw: Declared, evpn: bool, before: World, site: Site, w: World,
                                        faults: seq<Fault>, outside: seq<Outside>)
    requires Prepared(env, raw, before, site) && Deployed(env, evpn, before, site, w) && |faults| == |outside|
    requires forall f :: f in faults ==> Gentle(env, evpn, site, before, f)
    requires forall o :: o in outside ==> Smooth(o)
    ensures EndsAll(env, faults, outside, w) == w
    decreases faults
  {
    if faults != [] {
      assert faults[0] in faults && outside[0] in outside;
      assert forall f :: f in faults[1..] ==> f in faults;
      assert forall o :: o in outside[1..] ==> o in outside;
      if ActionOf(env, faults[0]).Ok? {
        GentleComes(env, raw, evpn, before, site, w, faults[0]);
      }
      SmoothEnds(env, w, faults[0], outside[0]);
      SessionKeeps(env, raw, evpn, before, site, w, faults[1..], outside[1..]);
    }
  }

  // ---------- what is recorded ----------

  /** For an accepted fault of a checked topology, once wait-ssh has found an address for every host: a result is
      recorded exactly when no empty address was found and the destination member's declared address parses. */
  lemma AcceptedIsRecorded(raw: Declared, env: Env, evpn: bool, f: Fault, o: Outside, t: S.TopoFile, found: seq<Found>)
    requires HostsNamed(env.hosts) && ValidSegments(env.hosts, raw) && Lowered(env.hosts, raw, env.segs)
    requires FaultOk(env.segs, evpn, f)
    requires forall x :: x in found ==> x.host in t.hosts && IsName(x.host)
    requires forall i, j :: 0 <= i < j < |found| ==> found[i].host != found[j].host
    requires forall h :: h in t.hosts ==> exists x :: x in found && x.host == h
    requires UpdateIps(t, Args(found)) == Ok(env.file)
    ensures FaultPair(env.segs, f).Ok? && FaultPair(env.segs, f).value.1.Key() == f.pairs[0].destination
    ensures SetupOk(env, f, o) <==>
            (forall x :: x in found ==> x.ip != "") && o.parses(FaultPair(env.segs, f).value.1.ip)
  {
    WaitSshAddresses(t, found);
    var s, source, destination := FaultPairFound(env.segs, evpn, f);
  }
}
