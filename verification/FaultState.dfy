/** The machine state faults act on, the state the configuring role leaves (ansible/roles/vxlan-test/tasks/main.yml),
    and inject and restore for every fault type (tests/test_fault_injection.py). */
module FaultState {
  import opened Text
  import opened Identifiers

  // ---------- state ----------

  datatype Link = Link(mtu: int, up: bool, addrs: set<string>)

  type Dev = (string, string)

  /** Forwarding entries (MAC, destination) of a VXLAN device, counted: the delete loop allows for repeats. */
  type Fdb = multiset<(string, string)>

  /** Links and forwarding tables by (host, device), VM NIC settings by (VMID, key), neighbours shut at run time by
      (host, address). */
  datatype World = World(links: map<Dev, Link>, fdb: map<Dev, Fdb>, qm: map<(int, string), string>,
                         shut: set<(string, string)>)

  const ZERO_MAC: string := "00:00:00:00:00:00"

  function SubIf(base: string, vlan: int): string { base + "." + DecInt(vlan) }

  // ---------- link commands; on a missing device they fail and change nothing ----------

  function SetUp(links: map<Dev, Link>, d: Dev, up: bool): map<Dev, Link> {
    if d in links then links[d := links[d].(up := up)] else links
  }

  function Flush(links: map<Dev, Link>, d: Dev): map<Dev, Link> {
    if d in links then links[d := links[d].(addrs := {})] else links
  }

  function AddAddr(links: map<Dev, Link>, d: Dev, ip: string): map<Dev, Link> {
    if d in links then links[d := links[d].(addrs := links[d].addrs + {ip})] else links
  }

  function AddVlanLink(links: map<Dev, Link>, base: Dev, sub: Dev): map<Dev, Link> {
    if sub in links || base !in links then links else links[sub := Link(links[base].mtu, false, {})]
  }

  // ---------- actions and their undo ----------

  /** An injection with its lookups done. */
  datatype Action = RemoveFdb(host: string, dev: string, peers: seq<string>, mac: string)
                  | LowerMtu(host: string, dev: string)
                  | MoveVlan(host: string, base: string, vlan: int, wrong: int, ip: string)
                  | LinkDown(host: string, dev: string)
                  | NicLinkDown(vmid: int, key: string)
                  | ShutPeer(host: string, address: string)
                  | RestartFrr(host: string)

  datatype Undo = AppendFdb(host: string, dev: string, peers: seq<string>)
                | SetMtu(host: string, dev: string, mtu: int)
                | MoveBack(host: string, correct: string, wrong: string, ip: string)
                | LinkUp(host: string, dev: string)
                | SetNic(vmid: int, key: string, value: string)
                | NoShut(host: string, address: string)
                | RestartAgain(host: string)

  function DeleteUpTo5(m: Fdb, e: (string, string)): Fdb { m[e := if m[e] > 5 then m[e] - 5 else 0] }

  function DeletePeers(m: Fdb, peers: seq<string>, mac: string): Fdb
    decreases peers
  {
    if peers == [] then m
    else DeletePeers(DeleteUpTo5(DeleteUpTo5(m, (ZERO_MAC, peers[0])), (mac, peers[0])), peers[1..], mac)
  }

  function AppendPeers(m: Fdb, peers: seq<string>): Fdb
    decreases peers
  {
    if peers == [] then m else AppendPeers(m + multiset{(ZERO_MAC, peers[0])}, peers[1..])
  }

  function VlanMoved(links: map<Dev, Link>, base: Dev, correct: Dev, wrong: Dev, ip: string): map<Dev, Link> {
    var moved := AddAddr(Flush(Flush(AddVlanLink(links, base, wrong), correct), wrong), wrong, ip);
    SetUp(SetUp(moved, base, true), wrong, true)
  }

  function VlanMovedBack(links: map<Dev, Link>, correct: Dev, wrong: Dev, ip: string): map<Dev, Link> {
    SetUp(AddAddr(Flush(links, wrong), correct, ip), correct, true) - {wrong}
  }

  predicate OccursAt(text: string, s: string, i: int) {
    0 <= i <= |s| - |text| && s[i..i + |text|] == text
  }

  predicate HasLinkDown(setting: string) {
    exists i :: 0 <= i <= |setting| && OccursAt("link_down=1", setting, i)
  }

  function NicDown(setting: string): string {
    if HasLinkDown(setting) then setting else setting + ",link_down=1"
  }

  /** Restarting FRR reloads its file, which holds no shutdown: what was shut at run time on that host is forgotten. */
  function ForgetShut(shut: set<(string, string)>, h: string): set<(string, string)> {
    set p | p in shut && p.0 != h
  }

  /** The state after injecting and the undo the injector returns; Die when the injector raises instead. */
  function Inject(w: World, a: Action): Result<(World, Undo)> {
    match a
    case RemoveFdb(h, d, peers, mac) =>
      var w' := if (h, d) in w.fdb then w.(fdb := w.fdb[(h, d) := DeletePeers(w.fdb[(h, d)], peers, mac)]) else w;
      Ok((w', AppendFdb(h, d, peers)))
    case LowerMtu(h, d) =>
      if (h, d) in w.links
      then Ok((w.(links := w.links[(h, d) := w.links[(h, d)].(mtu := 1200)]), SetMtu(h, d, w.links[(h, d)].mtu)))
      else Die
    case MoveVlan(h, b, v, x, ip) =>
      var correct, wrong := SubIf(b, v), SubIf(b, x);
      var links := VlanMoved(w.links, (h, b), (h, correct), (h, wrong), ip);
      if (h, wrong) in links then Ok((w.(links := links), MoveBack(h, correct, wrong, ip))) else Die
    case LinkDown(h, d) =>
      if (h, d) in w.links then Ok((w.(links := SetUp(w.links, (h, d), false)), LinkUp(h, d))) else Die
    case NicLinkDown(vmid, key) =>
      if (vmid, key) in w.qm
      then Ok((w.(qm := w.qm[(vmid, key) := NicDown(w.qm[(vmid, key)])]), SetNic(vmid, key, w.qm[(vmid, key)])))
      else Die
    case ShutPeer(h, address) => Ok((w.(shut := w.shut + {(h, address)}), NoShut(h, address)))
    case RestartFrr(h) => Ok((w.(shut := ForgetShut(w.shut, h)), RestartAgain(h)))
  }

  function Restore(w: World, u: Undo): World {
    match u
    case AppendFdb(h, d, peers) =>
      if (h, d) in w.fdb then w.(fdb := w.fdb[(h, d) := AppendPeers(w.fdb[(h, d)], peers)]) else w
    case SetMtu(h, d, mtu) =>
      if (h, d) in w.links then w.(links := w.links[(h, d) := w.links[(h, d)].(mtu := mtu)]) else w
    case MoveBack(h, correct, wrong, ip) => w.(links := VlanMovedBack(w.links, (h, correct), (h, wrong), ip))
    case LinkUp(h, d) => w.(links := SetUp(w.links, (h, d), true))
    case SetNic(vmid, key, value) => w.(qm := w.qm[(vmid, key) := value])
    case NoShut(h, address) => w.(shut := w.shut - {(h, address)})
    case RestartAgain(h) => w.(shut := ForgetShut(w.shut, h))
  }

  // ---------- what an injection does ----------

  lemma NicDownIsDown(setting: string)
    ensures HasLinkDown(NicDown(setting))
    ensures NicDown(setting) == setting <==> HasLinkDown(setting)
  {
    if !HasLinkDown(setting) {
      var s := setting + ",link_down=1";
      assert s[|setting| + 1..|setting| + 12] == "link_down=1";
      assert OccursAt("link_down=1", s, |setting| + 1);
    }
  }

  predicate OnlyAt<K, V(==)>(a: map<K, V>, b: map<K, V>, changed: set<K>) {
    forall k :: k in a.Keys + b.Keys && k !in changed ==> k in a && k in b && a[k] == b[k]
  }

  /** The fault is in place, on the device it names and nowhere else. */
  predicate InPlace(w: World, a: Action, w': World) {
    match a
    case RemoveFdb(h, d, peers, mac) =>
      && w' == w.(fdb := w'.fdb) && OnlyAt(w.fdb, w'.fdb, {(h, d)})
      && ((h, d) in w.fdb ==> (h, d) in w'.fdb && forall p :: p in peers ==>
            && (w.fdb[(h, d)][(ZERO_MAC, p)] <= 5 ==> w'.fdb[(h, d)][(ZERO_MAC, p)] == 0)
            && (w.fdb[(h, d)][(mac, p)] <= 5 ==> w'.fdb[(h, d)][(mac, p)] == 0))
    case LowerMtu(h, d) =>
      && w' == w.(links := w'.links) && OnlyAt(w.links, w'.links, {(h, d)})
      && (h, d) in w'.links && w'.links[(h, d)].mtu == 1200
    case MoveVlan(h, b, v, x, ip) =>
      var correct, wrong := (h, SubIf(b, v)), (h, SubIf(b, x));
      && w' == w.(links := w'.links) && OnlyAt(w.links, w'.links, {(h, b), correct, wrong})
      && correct in w'.links && w'.links[correct].addrs == {}
      && wrong in w'.links && w'.links[wrong].up && w'.links[wrong].addrs == {ip}
    case LinkDown(h, d) =>
      && w' == w.(links := w'.links) && OnlyAt(w.links, w'.links, {(h, d)})
      && (h, d) in w'.links && !w'.links[(h, d)].up
    case NicLinkDown(vmid, key) =>
      && w' == w.(qm := w'.qm) && OnlyAt(w.qm, w'.qm, {(vmid, key)})
      && (vmid, key) in w'.qm && HasLinkDown(w'.qm[(vmid, key)])
    case ShutPeer(h, address) => w' == w.(shut := w.shut + {(h, address)})
    case RestartFrr(h) =>
      w' == w.(shut := w'.shut) && w'.shut <= w.shut && forall p :: p in w.shut ==> (p in w'.shut <==> p.0 != h)
  }

  /** Every injection that returns has put its fault in place and changed nothing else. */
  lemma InjectionInPlace(w: World, a: Action)
    requires Inject(w, a).Ok? && WellFormed(w, a)
    ensures InPlace(w, a, Inject(w, a).value.0)
  {
    match a
    case RemoveFdb(h, d, peers, mac) =>
      if (h, d) in w.fdb {
        forall p | p in peers
          ensures w.fdb[(h, d)][(ZERO_MAC, p)] <= 5 ==> DeletePeers(w.fdb[(h, d)], peers, mac)[(ZERO_MAC, p)] == 0
          ensures w.fdb[(h, d)][(mac, p)] <= 5 ==> DeletePeers(w.fdb[(h, d)], peers, mac)[(mac, p)] == 0
        {
          DeleteCount(w.fdb[(h, d)], peers, mac, (ZERO_MAC, p));
          DeleteCount(w.fdb[(h, d)], peers, mac, (mac, p));
        }
      }
    case MoveVlan(h, b, v, x, _) => SubIfsDiffer(b, v, x);
    case NicLinkDown(vmid, key) => NicDownIsDown(w.qm[(vmid, key)]);
    case _ =>
  }

  // ---------- exactly when the undo undoes ----------

  predicate FdbRestorable(m: Fdb, peers: seq<string>, mac: string) {
    forall p :: p in peers ==> m[(ZERO_MAC, p)] == multiset(peers)[p] && m[(mac, p)] == 0
  }

  predicate VlanRestorable(links: map<Dev, Link>, base: Dev, correct: Dev, wrong: Dev, ip: string) {
    && wrong !in links
    && base in links && links[base].up
    && correct in links && links[correct].up && links[correct].addrs == {ip}
  }

  /** What must hold of the state a fault is injected into. */
  predicate Restorable(w: World, a: Action) {
    match a
    case RemoveFdb(h, d, peers, mac) => (h, d) in w.fdb ==> FdbRestorable(w.fdb[(h, d)], peers, mac)
    case MoveVlan(h, b, v, x, ip) => VlanRestorable(w.links, (h, b), (h, SubIf(b, v)), (h, SubIf(b, x)), ip)
    case LinkDown(h, d) => (h, d) in w.links && w.links[(h, d)].up
    case ShutPeer(h, address) => (h, address) !in w.shut
    case RestartFrr(h) => forall p :: p in w.shut ==> p.0 != h
    case LowerMtu(_, _) | NicLinkDown(_, _) => true
  }

  /** Facts about actions the executor builds: real devices have no dot in their name, the source's own interface
      exists, the two VLANs differ, and no MAC is all zeros. */
  predicate WellFormed(w: World, a: Action) {
    match a
    case RemoveFdb(_, _, _, mac) => mac != ZERO_MAC
    case MoveVlan(h, b, v, x, _) => '.' !in b && v != x && (h, b) in w.links && (h, SubIf(b, v)) in w.links
    case _ => true
  }

  /** No generated MAC is the flood address. */
  lemma GeneratedMacNotZero(run: nat, offset: int)
    ensures MacFor(run, offset) != ZERO_MAC
  {
    assert MacFor(run, offset)[0] == '5' && ZERO_MAC[0] == '0';
  }

  /** The flood address is six octets of zeros. */
  lemma FloodAddressExactly()
    ensures IsMac(ZERO_MAC) && forall c :: c in ZERO_MAC ==> c == '0' || c == ':'
  {
    assert IsOctets(5, ZERO_MAC[3..]) by {
      assert IsOctets(3, ZERO_MAC[9..]) by { assert IsOctet(ZERO_MAC[15..]) && IsOctets(2, ZERO_MAC[12..]); }
      assert ZERO_MAC[3..][3..][3..] == ZERO_MAC[9..];
    }
  }

  lemma {:induction false} DeleteCount(m: Fdb, peers: seq<string>, mac: string, e: (string, string))
    requires mac != ZERO_MAC
    ensures var c := multiset(peers)[e.1];
            DeletePeers(m, peers, mac)[e] ==
            if (e.0 == ZERO_MAC || e.0 == mac) && c > 0 then (if m[e] > 5 * c then m[e] - 5 * c else 0) else m[e]
    decreases peers
  {
    if peers != [] {
      assert peers == [peers[0]] + peers[1..];
      DeleteCount(DeleteUpTo5(DeleteUpTo5(m, (ZERO_MAC, peers[0])), (mac, peers[0])), peers[1..], mac, e);
    }
  }

  lemma {:induction false} AppendCount(m: Fdb, peers: seq<string>, e: (string, string))
    ensures AppendPeers(m, peers)[e] == m[e] + if e.0 == ZERO_MAC then multiset(peers)[e.1] else 0
    decreases peers
  {
    if peers != [] {
      assert peers == [peers[0]] + peers[1..];
      AppendCount(m + multiset{(ZERO_MAC, peers[0])}, peers[1..], e);
    }
  }

  /** Deleting up to five copies and appending one back is the identity exactly on a table with one flood entry per
      peer and no static entry for the destination's MAC. */
  lemma FdbUndoExactly(m: Fdb, peers: seq<string>, mac: string)
    requires mac != ZERO_MAC
    ensures AppendPeers(DeletePeers(m, peers, mac), peers) == m <==> FdbRestorable(m, peers, mac)
  {
    var r := AppendPeers(DeletePeers(m, peers, mac), peers);
    forall e: (string, string)
      ensures var c := multiset(peers)[e.1];
              r[e] == if c == 0 || (e.0 != ZERO_MAC && e.0 != mac) then m[e]
                      else (if m[e] > 5 * c then m[e] - 5 * c else 0) + (if e.0 == ZERO_MAC then c else 0)
    {
      DeleteCount(m, peers, mac, e);
      AppendCount(DeletePeers(m, peers, mac), peers, e);
    }
    assert forall p :: p in peers <==> multiset(peers)[p] > 0;
    if r == m {
      forall p | p in peers ensures m[(ZERO_MAC, p)] == multiset(peers)[p] && m[(mac, p)] == 0 {
        assert r[(ZERO_MAC, p)] == m[(ZERO_MAC, p)] && r[(mac, p)] == m[(mac, p)];
      }
    }
    if FdbRestorable(m, peers, mac) {
      forall e: (string, string) ensures r[e] == m[e] {
        assert e == (e.0, e.1);
      }
    }
  }

  lemma SubIfsDiffer(base: string, v: int, x: int)
    requires '.' !in base && v != x
    ensures SubIf(base, v) != SubIf(base, x) && SubIf(base, v) != base && SubIf(base, x) != base
  {
    assert SubIf(base, v)[|base| + 1..] == DecInt(v) && SubIf(base, x)[|base| + 1..] == DecInt(x);
    DecIntInjective(v, x);
    assert |SubIf(base, v)| > |base| && |SubIf(base, x)| > |base|;
  }

  lemma VlanUndoExactly(links: map<Dev, Link>, base: Dev, correct: Dev, wrong: Dev, ip: string)
    requires base != correct && base != wrong && correct != wrong && base in links && correct in links
    ensures VlanMovedBack(VlanMoved(links, base, correct, wrong, ip), correct, wrong, ip) == links
            <==> VlanRestorable(links, base, correct, wrong, ip)
  {
    var r := VlanMovedBack(VlanMoved(links, base, correct, wrong, ip), correct, wrong, ip);
    assert wrong !in r;
    assert r[correct] == links[correct].(addrs := {ip}, up := true) && r[base] == links[base].(up := true);
    assert forall d :: d != base && d != correct && d != wrong ==>
                         (d in r <==> d in links) && (d in links ==> r[d] == links[d]);
    if VlanRestorable(links, base, correct, wrong, ip) {
      assert r[correct] == links[correct] && r[base] == links[base];
      assert r == links;
    }
  }

  ghost predicate UndoesExactly(w: World, a: Action)
    requires Inject(w, a).Ok?
  {
    Restore(Inject(w, a).value.0, Inject(w, a).value.1) == w <==> Restorable(w, a)
  }

  lemma RestoreFdb(w: World, a: Action)
    requires a.RemoveFdb? && a.mac != ZERO_MAC
    ensures UndoesExactly(w, a)
  {
    var k := (a.host, a.dev);
    if k in w.fdb {
      var m := AppendPeers(DeletePeers(w.fdb[k], a.peers, a.mac), a.peers);
      FdbUndoExactly(w.fdb[k], a.peers, a.mac);
      var (w', u) := Inject(w, a).value;
      assert Restore(w', u) == w.(fdb := w.fdb[k := m]) by { assert Restore(w', u).fdb == w.fdb[k := m]; }
      if m == w.fdb[k] {
        assert w.fdb[k := m] == w.fdb;
      } else {
        assert w.fdb[k := m][k] != w.fdb[k];
      }
    }
  }

  lemma RestoreVlan(w: World, a: Action)
    requires a.MoveVlan? && Inject(w, a).Ok? && WellFormed(w, a)
    ensures UndoesExactly(w, a)
  {
    SubIfsDiffer(a.base, a.vlan, a.wrong);
    VlanUndoExactly(w.links, (a.host, a.base), (a.host, SubIf(a.base, a.vlan)), (a.host, SubIf(a.base, a.wrong)), a.ip);
  }

  lemma RestoreLink(w: World, a: Action)
    requires (a.LinkDown? || a.LowerMtu?) && Inject(w, a).Ok?
    ensures UndoesExactly(w, a)
  {
    var k := (a.host, a.dev);
    var (w', u) := Inject(w, a).value;
    var r := Restore(w', u);
    assert r.links == w.links[k := r.links[k]];
    assert a.LowerMtu? || w.links[k].up ==> r.links == w.links;
    assert a.LinkDown? && !w.links[k].up ==> r.links[k] != w.links[k];
  }

  lemma RestoreSetting(w: World, a: Action)
    requires (a.NicLinkDown? || a.ShutPeer? || a.RestartFrr?) && Inject(w, a).Ok?
    ensures UndoesExactly(w, a)
  {
    var (w', u) := Inject(w, a).value;
    var r := Restore(w', u);
    if a.NicLinkDown? {
      assert r.qm == w.qm;
    } else if a.ShutPeer? {
      assert (a.host, a.address) !in r.shut;
      assert (a.host, a.address) !in w.shut ==> r.shut == w.shut;
    } else {
      forall p | p in w.shut && p.0 == a.host ensures p !in r.shut {}
      assert (forall p :: p in w.shut ==> p.0 != a.host) ==> r.shut == w.shut;
    }
  }

  /** For every fault type: restore after inject gives back the very state it started from exactly under Restorable. */
  lemma RestoreExactly(w: World, a: Action)
    requires Inject(w, a).Ok? && WellFormed(w, a)
    ensures var (w', u) := Inject(w, a).value;
            Restore(w', u) == w <==> Restorable(w, a)
  {
    match a
    case RemoveFdb(_, _, _, _) => RestoreFdb(w, a);
    case MoveVlan(_, _, _, _, _) => RestoreVlan(w, a);
    case LinkDown(_, _) | LowerMtu(_, _) => RestoreLink(w, a);
    case _ => RestoreSetting(w, a);
  }

  // ---------- faults that change nothing ----------

  /** The state already shows the fault, so that injecting it changes nothing. */
  predicate Inert(w: World, a: Action) {
    match a
    case RemoveFdb(h, d, peers, mac) =>
      (h, d) in w.fdb ==> forall p :: p in peers ==> w.fdb[(h, d)][(ZERO_MAC, p)] == 0 && w.fdb[(h, d)][(mac, p)] == 0
    case LowerMtu(h, d) => (h, d) in w.links && w.links[(h, d)].mtu == 1200
    case MoveVlan(h, b, v, x, ip) =>
      var correct, wrong := (h, SubIf(b, v)), (h, SubIf(b, x));
      && (h, b) in w.links && w.links[(h, b)].up
      && correct in w.links && w.links[correct].addrs == {}
      && wrong in w.links && w.links[wrong].up && w.links[wrong].addrs == {ip}
    case LinkDown(h, d) => (h, d) in w.links && !w.links[(h, d)].up
    case NicLinkDown(vmid, key) => (vmid, key) in w.qm && HasLinkDown(w.qm[(vmid, key)])
    case ShutPeer(h, address) => (h, address) in w.shut
    case RestartFrr(h) => forall p :: p in w.shut ==> p.0 != h
  }

  /** An injection leaves the state as it was exactly when the fault was there before. */
  lemma InertExactly(w: World, a: Action)
    requires Inject(w, a).Ok? && WellFormed(w, a)
    ensures Inject(w, a).value.0 == w <==> Inert(w, a)
  {
    var w' := Inject(w, a).value.0;
    match a
    case RemoveFdb(h, d, peers, mac) => if (h, d) in w.fdb { InertFdb(w, a); }
    case LowerMtu(h, d) =>
      assert w'.links[(h, d)].mtu == 1200;
      if w.links[(h, d)].mtu == 1200 { assert w'.links == w.links; }
    case MoveVlan(_, _, _, _, _) => InertVlan(w, a);
    case LinkDown(h, d) =>
      assert !w'.links[(h, d)].up;
      if !w.links[(h, d)].up { assert w'.links == w.links; }
    case NicLinkDown(vmid, key) =>
      NicDownIsDown(w.qm[(vmid, key)]);
      assert w'.qm[(vmid, key)] == NicDown(w.qm[(vmid, key)]);
      if HasLinkDown(w.qm[(vmid, key)]) { assert w'.qm == w.qm; }
    case ShutPeer(h, address) => assert (h, address) in w'.shut;
    case RestartFrr(h) =>
      forall p | p in w.shut && p.0 == h ensures p !in w'.shut {}
      assert (forall p :: p in w.shut ==> p.0 != h) ==> w'.shut == w.shut;
  }

  lemma InertFdb(w: World, a: Action)
    requires a.RemoveFdb? && a.mac != ZERO_MAC && (a.host, a.dev) in w.fdb
    ensures Inject(w, a).value.0 == w <==> Inert(w, a)
  {
    var k := (a.host, a.dev);
    var m := w.fdb[k];
    var m' := DeletePeers(m, a.peers, a.mac);
    assert Inject(w, a).value.0.fdb[k] == m';
    forall e: (string, string)
      ensures var c := multiset(a.peers)[e.1];
              m'[e] == if (e.0 == ZERO_MAC || e.0 == a.mac) && c > 0 then (if m[e] > 5 * c then m[e] - 5 * c else 0)
                       else m[e]
    {
      DeleteCount(m, a.peers, a.mac, e);
    }
    assert forall p :: p in a.peers <==> multiset(a.peers)[p] > 0;
    if m' == m {
      forall p | p in a.peers ensures m[(ZERO_MAC, p)] == 0 && m[(a.mac, p)] == 0 {
        assert m'[(ZERO_MAC, p)] == m[(ZERO_MAC, p)] && m'[(a.mac, p)] == m[(a.mac, p)];
      }
    }
    if Inert(w, a) {
      forall e: (string, string) ensures m'[e] == m[e] {
        assert e == (e.0, e.1);
      }
      assert m' == m && w.fdb[k := m'] == w.fdb;
    }
  }

  lemma InertVlan(w: World, a: Action)
    requires a.MoveVlan? && Inject(w, a).Ok? && WellFormed(w, a)
    ensures Inject(w, a).value.0 == w <==> Inert(w, a)
  {
    var base, correct, wrong := (a.host, a.base), (a.host, SubIf(a.base, a.vlan)), (a.host, SubIf(a.base, a.wrong));
    SubIfsDiffer(a.base, a.vlan, a.wrong);
    var r := VlanMoved(w.links, base, correct, wrong, a.ip);
    assert wrong in r && r[wrong].up && r[wrong].addrs == {a.ip};
    assert r[correct] == w.links[correct].(addrs := {}) && r[base] == w.links[base].(up := true);
    if Inert(w, a) {
      assert r[wrong] == w.links[wrong];
      assert r == w.links;
    }
  }

  // ---------- an undo without its fault ----------

  /** What must hold for the undo alone, the injection having had no effect, to change nothing. */
  predicate UndoHarmless(w: World, a: Action) {
    match a
    case RemoveFdb(h, d, peers, _) => (h, d) in w.fdb ==> peers == []
    case MoveVlan(h, b, v, x, ip) =>
      && (h, SubIf(b, x)) !in w.links
      && (h, SubIf(b, v)) in w.links && w.links[(h, SubIf(b, v))].up && ip in w.links[(h, SubIf(b, v))].addrs
    case LinkDown(h, d) => (h, d) in w.links && w.links[(h, d)].up
    case ShutPeer(h, address) => (h, address) !in w.shut
    case RestartFrr(h) => forall p :: p in w.shut ==> p.0 != h
    case LowerMtu(_, _) | NicLinkDown(_, _) => true
  }

  /** If an injector returned although its commands had no effect, its undo alone changes nothing exactly under this
      condition. In particular the undo of a flood list removal that did not happen duplicates the flood list. */
  lemma UndoAloneExactly(w: World, a: Action)
    requires Inject(w, a).Ok? && WellFormed(w, a)
    ensures Restore(w, Inject(w, a).value.1) == w <==> UndoHarmless(w, a)
  {
    var r := Restore(w, Inject(w, a).value.1);
    match a
    case RemoveFdb(h, d, peers, mac) => if (h, d) in w.fdb { AppendAlone(w, a); }
    case LowerMtu(h, d) => assert r.links == w.links;
    case MoveVlan(_, _, _, _, _) => MoveBackAlone(w, a);
    case LinkDown(h, d) =>
      assert r.links == w.links[(h, d) := w.links[(h, d)].(up := true)];
      if w.links[(h, d)].up { assert r.links == w.links; }
    case NicLinkDown(vmid, key) => assert r.qm == w.qm;
    case ShutPeer(h, address) =>
      assert (h, address) !in r.shut;
      assert (h, address) !in w.shut ==> r.shut == w.shut;
    case RestartFrr(h) =>
      forall p | p in w.shut && p.0 == h ensures p !in r.shut {}
      assert (forall p :: p in w.shut ==> p.0 != h) ==> r.shut == w.shut;
  }

  lemma AppendAlone(w: World, a: Action)
    requires a.RemoveFdb? && (a.host, a.dev) in w.fdb
    ensures Restore(w, Inject(w, a).value.1) == w <==> a.peers == []
  {
    var k := (a.host, a.dev);
    var r := Restore(w, Inject(w, a).value.1);
    assert r.fdb[k] == AppendPeers(w.fdb[k], a.peers);
    if a.peers == [] {
      assert w.fdb[k := w.fdb[k]] == w.fdb;
    } else {
      AppendCount(w.fdb[k], a.peers, (ZERO_MAC, a.peers[0]));
      assert a.peers[0] in multiset(a.peers);
    }
  }

  lemma MoveBackAlone(w: World, a: Action)
    requires a.MoveVlan? && Inject(w, a).Ok? && WellFormed(w, a)
    ensures Restore(w, Inject(w, a).value.1) == w <==> UndoHarmless(w, a)
  {
    var correct, wrong := (a.host, SubIf(a.base, a.vlan)), (a.host, SubIf(a.base, a.wrong));
    SubIfsDiffer(a.base, a.vlan, a.wrong);
    var r := VlanMovedBack(w.links, correct, wrong, a.ip);
    assert wrong !in r && correct in r;
    assert r[correct] == w.links[correct].(addrs := w.links[correct].addrs + {a.ip}, up := true);
    if UndoHarmless(w, a) {
      assert w.links[correct].addrs + {a.ip} == w.links[correct].addrs;
      assert r == w.links;
    }
    if r == w.links {
      assert a.ip in r[correct].addrs;
    }
  }
}
