/** How EVPN routes spread over iBGP sessions.

    A router re-advertises what it learned from one peer to another only under the reflection rule of section 6 of
    RFC 4456: the route came from a client, or goes to one. A router without clients therefore re-advertises nothing
    it learned (section 9.2 of RFC 4271). Every learned path is eligible, no path is dropped by originator or
    cluster-list checks, and a router may even send a route back where it came from. */
module Propagation {

  type Router = string

  /** Per router: its configured neighbours, and whether each is marked route-reflector-client. */
  type Conf = map<Router, map<Router, bool>>

  /** shut holds (x, y) when x has administratively shut its neighbour y; down holds routers cut off altogether. */
  datatype Net = Net(conf: Conf, shut: set<(Router, Router)>, down: set<Router>)

  predicate Alive(n: Net, x: Router) { x in n.conf && x !in n.down }

  predicate Configured(n: Net, x: Router, y: Router) { x in n.conf && y in n.conf[x] }

  predicate Up(n: Net, x: Router, y: Router) {
    && Alive(n, x) && Alive(n, y)
    && Configured(n, x, y) && Configured(n, y, x)
    && (x, y) !in n.shut && (y, x) !in n.shut
  }

  predicate Client(n: Net, r: Router, p: Router) { Configured(n, r, p) && n.conf[r][p] }

  // ---------- advertisement chains ----------

  /** A route and the chain of routers it was handed along: originator first, current holder last. */
  type Path = seq<Router>

  predicate MayAdvertise(n: Net, p: Path, q: Router) {
    && p != [] && Up(n, p[|p| - 1], q)
    && (|p| == 1 || Client(n, p[|p| - 1], p[|p| - 2]) || Client(n, p[|p| - 1], q))
  }

  predicate Permitted(n: Net, p: Path) {
    if |p| <= 1 then |p| == 1 && Alive(n, p[0])
    else Permitted(n, p[..|p| - 1]) && MayAdvertise(n, p[..|p| - 1], p[|p| - 1])
  }

  ghost predicate Reach(n: Net, o: Router, v: Router) {
    exists p :: Permitted(n, p) && p[0] == o && p[|p| - 1] == v
  }

  ghost predicate ReachWithin(n: Net, o: Router, v: Router, sessions: nat) {
    exists p :: Permitted(n, p) && |p| <= sessions + 1 && p[0] == o && p[|p| - 1] == v
  }

  // ---------- runs ----------

  /** The state of the network: the set of all advertisements held anywhere. */
  type State = set<Path>

  function Origins(n: Net): State { set x | x in n.conf && x !in n.down :: [x] }

  ghost predicate Step(n: Net, s: State, s': State) {
    exists p, q :: p in s && MayAdvertise(n, p, q) && p + [q] !in s && s' == s + {p + [q]}
  }

  ghost predicate IsRun(n: Net, run: seq<State>) {
    && run != [] && run[0] == Origins(n)
    && forall i :: 0 <= i < |run| - 1 ==> Step(n, run[i], run[i + 1])
  }

  ghost predicate Converged(n: Net, s: State) {
    forall p, q :: p in s && MayAdvertise(n, p, q) ==> p + [q] in s
  }

  /** No run ever holds an advertisement the rules do not permit. */
  lemma {:induction false} RunSound(n: Net, run: seq<State>, p: Path)
    requires IsRun(n, run) && p in run[|run| - 1]
    ensures Permitted(n, p)
    decreases |run|
  {
    if |run| == 1 {
    } else {
      var before := run[..|run| - 1];
      assert Step(n, run[|run| - 2], run[|run| - 2 + 1]);
      var b, q :| b in run[|run| - 2] && MayAdvertise(n, b, q) && run[|run| - 1] == run[|run| - 2] + {b + [q]};
      RunSound(n, before, b);
      if p in run[|run| - 2] {
        RunSound(n, before, p);
      } else {
        assert p[..|p| - 1] == b;
      }
    }
  }

  lemma RunKeeps(n: Net, run: seq<State>, p: Path)
    requires IsRun(n, run) && p in Origins(n)
    ensures p in run[|run| - 1]
    decreases |run|
  {
    if |run| > 1 {
      RunKeeps(n, run[..|run| - 1], p);
      assert Step(n, run[|run| - 2], run[|run| - 2 + 1]);
    }
  }

  /** Whatever order advertisements are exchanged in, a converged network holds exactly the permitted chains. */
  lemma {:induction false} ConvergedIsExact(n: Net, run: seq<State>, p: Path)
    requires IsRun(n, run) && Converged(n, run[|run| - 1])
    ensures p in run[|run| - 1] <==> Permitted(n, p)
    decreases |p|
  {
    if p in run[|run| - 1] {
      RunSound(n, run, p);
    }
    if Permitted(n, p) {
      if |p| == 1 {
        assert p == [p[0]];
        RunKeeps(n, run, p);
      } else {
        var b := p[..|p| - 1];
        ConvergedIsExact(n, run, b);
        assert p == b + [p[|p| - 1]];
      }
    }
  }

  // ---------- termination ----------

  /** The role split the generated client flags have: only reflectors have clients, and no reflector is one. */
  ghost predicate Layered(n: Net, reflectors: set<Router>) {
    forall r, p :: Client(n, r, p) ==> r in reflectors && p !in reflectors
  }

  /** How many more hand-overs a chain can still make. */
  function Budget(reflectors: set<Router>, p: Path): nat
    requires p != []
  {
    if |p| == 1 then 3
    else if p[|p| - 1] !in reflectors then 0
    else if p[|p| - 2] !in reflectors then 2
    else 1
  }

  /** Every hand-over uses up budget. */
  lemma HandOverDecreases(n: Net, reflectors: set<Router>, p: Path, q: Router)
    requires Layered(n, reflectors) && MayAdvertise(n, p, q)
    ensures Budget(reflectors, p + [q]) < Budget(reflectors, p)
  {
    var e := p + [q];
    assert e[|e| - 1] == q && e[|e| - 2] == p[|p| - 1];
  }

  lemma {:induction false} ChainBound(n: Net, reflectors: set<Router>, p: Path)
    requires Layered(n, reflectors) && Permitted(n, p)
    ensures |p| + Budget(reflectors, p) <= 4
    decreases |p|
  {
    if |p| > 1 {
      var b := p[..|p| - 1];
      ChainBound(n, reflectors, b);
      HandOverDecreases(n, reflectors, b, p[|p| - 1]);
      assert p == b + [p[|p| - 1]];
    }
  }

  /** Every chain of one to four routers: at most three sessions. */
  function Chains(routers: set<Router>): set<Path> {
    (set a | a in routers :: [a])
    + (set a, b | a in routers && b in routers :: [a, b])
    + (set a, b, c | a in routers && b in routers && c in routers :: [a, b, c])
    + (set a, b, c, d | a in routers && b in routers && c in routers && d in routers :: [a, b, c, d])
  }

  lemma {:induction false} PermittedRouters(n: Net, p: Path)
    requires Permitted(n, p)
    ensures forall x :: x in p ==> x in n.conf
    decreases |p|
  {
    if |p| > 1 {
      PermittedRouters(n, p[..|p| - 1]);
      assert p == p[..|p| - 1] + [p[|p| - 1]];
    }
  }

  lemma PermittedIsChain(n: Net, reflectors: set<Router>, p: Path)
    requires Layered(n, reflectors) && Permitted(n, p)
    ensures p in Chains(n.conf.Keys)
  {
    ChainBound(n, reflectors, p);
    PermittedRouters(n, p);
    if |p| == 1 { assert p == [p[0]]; }
    else if |p| == 2 { assert p == [p[0], p[1]]; }
    else if |p| == 3 { assert p == [p[0], p[1], p[2]]; }
    else { assert p == [p[0], p[1], p[2], p[3]]; }
  }

  lemma RunHoldsChains(n: Net, reflectors: set<Router>, run: seq<State>)
    requires Layered(n, reflectors) && IsRun(n, run)
    ensures run[|run| - 1] <= Chains(n.conf.Keys)
  {
    forall p | p in run[|run| - 1] ensures p in Chains(n.conf.Keys) {
      RunSound(n, run, p);
      PermittedIsChain(n, reflectors, p);
    }
  }

  /** Each step strictly shrinks the finite set of chains not yet advertised, so every run is finite: no run is
      longer than that set, whatever is shut or down. */
  lemma {:induction false} RunsTerminate(n: Net, reflectors: set<Router>, run: seq<State>)
    requires Layered(n, reflectors) && IsRun(n, run)
    ensures run[|run| - 1] <= Chains(n.conf.Keys)
    ensures |run| + |Chains(n.conf.Keys) - run[|run| - 1]| <= 1 + |Chains(n.conf.Keys)|
    decreases |run|
  {
    var all, last := Chains(n.conf.Keys), run[|run| - 1];
    RunHoldsChains(n, reflectors, run);
    if |run| == 1 {
      SmallerSet(all - last, all);
    } else {
      var s := run[|run| - 2];
      RunsTerminate(n, reflectors, run[..|run| - 1]);
      assert Step(n, s, run[|run| - 2 + 1]);
      var p, q :| p in s && MayAdvertise(n, p, q) && p + [q] !in s && last == s + {p + [q]};
      assert p + [q] in last;
      assert all - last == (all - s) - {p + [q]};
    }
  }

  lemma PrefixTransitive<T>(a: seq<T>, b: seq<T>, c: seq<T>)
    requires a <= b && b <= c
    ensures a <= c
  {
  }

  ghost predicate RunsOn(n: Net, run: seq<State>, full: seq<State>) { run <= full && IsRun(n, full) }

  ghost predicate Ends(n: Net, run: seq<State>) { run != [] && Converged(n, run[|run| - 1]) }

  /** Advertisements still to be made at most. */
  ghost function Ahead(n: Net, run: seq<State>): nat
    requires run != []
  {
    |Chains(n.conf.Keys) - run[|run| - 1]|
  }

  /** Any run can be continued until the network has converged. */
  lemma {:induction false} RunConverges(n: Net, reflectors: set<Router>, run: seq<State>) returns (full: seq<State>)
    requires Layered(n, reflectors) && IsRun(n, run)
    ensures RunsOn(n, run, full) && Ends(n, full)
    decreases Ahead(n, run)
  {
    full := run;
    if !Ends(n, run) {
      var longer := OneMoreStep(n, reflectors, run);
      full := RunConverges(n, reflectors, longer);
      PrefixTransitive(run, longer, full);
    }
  }

  lemma OneMoreStep(n: Net, reflectors: set<Router>, run: seq<State>) returns (longer: seq<State>)
    requires Layered(n, reflectors) && IsRun(n, run) && !Ends(n, run)
    ensures RunsOn(n, run, longer) && Ahead(n, longer) < Ahead(n, run)
  {
    var last := run[|run| - 1];
    var p, q :| p in last && MayAdvertise(n, p, q) && p + [q] !in last;
    longer := run + [last + {p + [q]}];
    RunExtends(n, run, p, q);
    RunHoldsChains(n, reflectors, longer);
    assert p + [q] in longer[|longer| - 1];
    FewerLeft(Chains(n.conf.Keys), last, p + [q]);
  }

  lemma RunExtends(n: Net, run: seq<State>, p: Path, q: Router)
    requires IsRun(n, run) && p in run[|run| - 1] && MayAdvertise(n, p, q) && p + [q] !in run[|run| - 1]
    ensures IsRun(n, run + [run[|run| - 1] + {p + [q]}])
  {
    var last := run[|run| - 1];
    assert Step(n, last, last + {p + [q]});
  }

  lemma FewerLeft(all: set<Path>, s: set<Path>, p: Path)
    requires p in all && p !in s
    ensures |all - (s + {p})| < |all - s|
  {
    assert all - (s + {p}) == (all - s) - {p};
  }

  /** The order of advertisements does not matter: all converged runs end in the same state. */
  lemma RunsAgree(n: Net, run: seq<State>, other: seq<State>)
    requires IsRun(n, run) && Ends(n, run) && IsRun(n, other) && Ends(n, other)
    ensures run[|run| - 1] == other[|other| - 1]
  {
    var a, b := run[|run| - 1], other[|other| - 1];
    forall p: Path ensures p in a <==> p in b {
      ConvergedIsExact(n, run, p);
      ConvergedIsExact(n, other, p);
    }
  }

  lemma {:induction false} SmallerSet<T>(a: set<T>, b: set<T>)
    requires a <= b
    ensures |a| <= |b|
  {
    assert b == a + (b - a);
  }

  // ---------- short chains spelled out ----------

  lemma ShortChains(n: Net, a: Router, b: Router, c: Router, d: Router)
    ensures Permitted(n, [a, b]) <==> Up(n, a, b)
    ensures Permitted(n, [a, b, c]) <==> Up(n, a, b) && Up(n, b, c) && (Client(n, b, a) || Client(n, b, c))
    ensures Permitted(n, [a, b, c, d]) <==>
            Permitted(n, [a, b, c]) && Up(n, c, d) && (Client(n, c, b) || Client(n, c, d))
  {
    assert [a, b][..1] == [a] && [a, b, c][..2] == [a, b] && [a, b, c, d][..3] == [a, b, c];
  }
}
