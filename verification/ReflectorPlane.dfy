/** Reachability on the two graphs the topology compiler generates, under any combination of failures. */
module ReflectorPlane {
  import opened Propagation

  /** Role assignment of a generated control plane. */
  datatype Plane = Plane(routers: set<Router>, reflectors: set<Router>, mesh: bool) {
    predicate Valid() {
      && reflectors <= routers
      && (mesh <==> reflectors == {})
    }

    predicate Adjacent(x: Router, y: Router) {
      x != y && x in routers && y in routers && (mesh || x in reflectors || y in reflectors)
    }

    predicate SameRole(x: Router, y: Router) { x in reflectors <==> y in reflectors }

    /** The neighbour lists and client flags generated for it. */
    function Conf(): Conf {
      map x | x in routers :: Row(x)
    }

    function Row(x: Router): map<Router, bool> {
      map y | y in routers && Adjacent(x, y) :: x in reflectors && y !in reflectors
    }
  }

  ghost predicate Generated(pl: Plane, n: Net) { pl.Valid() && n.conf == pl.Conf() }

  lemma GeneratedFacts(pl: Plane, n: Net, x: Router, y: Router)
    requires Generated(pl, n)
    ensures Alive(n, x) <==> x in pl.routers && x !in n.down
    ensures Configured(n, x, y) <==> pl.Adjacent(x, y)
    ensures Client(n, x, y) <==> pl.Adjacent(x, y) && x in pl.reflectors && y !in pl.reflectors
    ensures Up(n, x, y) <==> pl.Adjacent(x, y) && x !in n.down && y !in n.down && (x, y) !in n.shut && (y, x) !in n.shut
  {
    if x in pl.routers { assert x in n.conf; }
    if pl.Adjacent(x, y) { assert y in n.conf[x] && x in n.conf[y]; }
  }

  lemma GeneratedLayered(pl: Plane, n: Net)
    requires Generated(pl, n)
    ensures Layered(n, pl.reflectors)
  {
    forall r, p | Client(n, r, p) ensures r in pl.reflectors && p !in pl.reflectors {
      GeneratedFacts(pl, n, r, p);
    }
  }

  /** A route can go through s. */
  ghost predicate Via(pl: Plane, n: Net, o: Router, s: Router, v: Router) {
    s in pl.reflectors && Up(n, o, s) && Up(n, s, v) && (o !in pl.reflectors || v !in pl.reflectors)
  }

  ghost predicate ViaTwo(pl: Plane, n: Net, o: Router, s: Router, t: Router, v: Router) {
    && s in pl.reflectors && t in pl.reflectors && o !in pl.reflectors && v !in pl.reflectors
    && Up(n, o, s) && Up(n, s, t) && Up(n, t, v)
  }

  lemma ChainShape(pl: Plane, n: Net, p: Path)
    requires Generated(pl, n) && Permitted(n, p) && |p| > 1
    ensures |p| == 2 ==> Up(n, p[0], p[1])
    ensures |p| == 3 ==> Via(pl, n, p[0], p[1], p[2])
    ensures |p| == 4 ==> ViaTwo(pl, n, p[0], p[1], p[2], p[3])
    ensures |p| <= 4
  {
    GeneratedLayered(pl, n);
    ChainBound(n, pl.reflectors, p);
    if |p| == 2 {
      assert p == [p[0], p[1]];
      ShortChains(n, p[0], p[1], p[0], p[0]);
    } else if |p| == 3 {
      assert p == [p[0], p[1], p[2]];
      ShortChains(n, p[0], p[1], p[2], p[0]);
    } else {
      assert p == [p[0], p[1], p[2], p[3]];
      ShortChains(n, p[0], p[1], p[2], p[3]);
    }
  }

  lemma ChainOf(pl: Plane, n: Net, o: Router, s: Router, t: Router, v: Router)
    requires Generated(pl, n)
    ensures Up(n, o, v) ==> ReachWithin(n, o, v, 1)
    ensures Via(pl, n, o, s, v) ==> ReachWithin(n, o, v, 2)
    ensures ViaTwo(pl, n, o, s, t, v) ==> ReachWithin(n, o, v, 3)
  {
    GeneratedFacts(pl, n, o, s);
    GeneratedFacts(pl, n, s, o);
    GeneratedFacts(pl, n, s, v);
    GeneratedFacts(pl, n, t, v);
    ShortChains(n, o, v, v, v);
    ShortChains(n, o, s, v, v);
    ShortChains(n, o, s, t, v);
    if Up(n, o, v) { var p := [o, v]; assert Permitted(n, p); }
    if Via(pl, n, o, s, v) { var p := [o, s, v]; assert Permitted(n, p); }
    if ViaTwo(pl, n, o, s, t, v) { var p := [o, s, t, v]; assert Permitted(n, p); }
  }

  /** Whatever sessions are shut and whatever routers are down, v learns o's routes exactly over a direct session,
      through one reflector, or from client to client through two reflectors. */
  lemma ReachExactly(pl: Plane, n: Net, o: Router, v: Router)
    requires Generated(pl, n) && o != v
    ensures Reach(n, o, v) <==>
            (Up(n, o, v) || (exists s :: Via(pl, n, o, s, v)) || exists s, t :: ViaTwo(pl, n, o, s, t, v))
    ensures ReachWithin(n, o, v, 2) <==> (Up(n, o, v) || exists s :: Via(pl, n, o, s, v))
  {
    forall p | Permitted(n, p) && p[0] == o && p[|p| - 1] == v
      ensures |p| <= 4
      ensures |p| == 2 ==> Up(n, o, v)
      ensures |p| == 3 ==> exists s :: Via(pl, n, o, s, v)
      ensures |p| == 4 ==> exists s, t :: ViaTwo(pl, n, o, s, t, v)
      ensures |p| > 1
    {
      ChainShape(pl, n, p);
    }
    if Up(n, o, v) { ChainOf(pl, n, o, o, o, v); }
    forall s | Via(pl, n, o, s, v) ensures ReachWithin(n, o, v, 2) { ChainOf(pl, n, o, s, s, v); }
    forall s, t | ViaTwo(pl, n, o, s, t, v) ensures ReachWithin(n, o, v, 3) { ChainOf(pl, n, o, s, t, v); }
  }

  // ---------- losing routers ----------

  function Survivors(pl: Plane, down: set<Router>): set<Router> { pl.routers - down }

  /** With every session of the survivors intact, v learns o's routes iff the two have a session or some reflector
      survives, and then within two sessions. */
  lemma SurvivorReach(pl: Plane, n: Net, o: Router, v: Router)
    requires Generated(pl, n) && n.shut == {}
    requires o in Survivors(pl, n.down) && v in Survivors(pl, n.down) && o != v
    ensures Reach(n, o, v) <==> pl.Adjacent(o, v) || pl.reflectors - n.down != {}
    ensures Reach(n, o, v) <==> ReachWithin(n, o, v, 2)
  {
    ReachExactly(pl, n, o, v);
    GeneratedFacts(pl, n, o, v);
    forall s ensures Via(pl, n, o, s, v) ==> s in pl.reflectors - n.down {
      GeneratedFacts(pl, n, o, s);
    }
    forall s, t ensures ViaTwo(pl, n, o, s, t, v) ==> s in pl.reflectors - n.down {
      GeneratedFacts(pl, n, o, s);
    }
    if !pl.Adjacent(o, v) && pl.reflectors - n.down != {} {
      var s :| s in pl.reflectors - n.down;
      GeneratedFacts(pl, n, o, s);
      GeneratedFacts(pl, n, s, v);
      assert Via(pl, n, o, s, v);
    }
  }

  ghost predicate AllReach(n: Net, routers: set<Router>, sessions: nat) {
    forall o, v :: o in routers && v in routers && o != v ==> ReachWithin(n, o, v, sessions)
  }

  ghost predicate Pairless(s: set<Router>) { forall o, v :: o in s && v in s ==> o == v }

  /** Exactly which losses the control plane survives: any loss in full mesh; with reflectors, any loss that leaves a
      reflector (or leaves no two routers to connect). */
  lemma SurvivesExactly(pl: Plane, n: Net)
    requires Generated(pl, n) && n.shut == {}
    ensures AllReach(n, Survivors(pl, n.down), 2) <==>
            pl.mesh || pl.reflectors - n.down != {} || Pairless(Survivors(pl, n.down))
  {
    var live := Survivors(pl, n.down);
    if pl.mesh || pl.reflectors - n.down != {} || Pairless(live) {
      forall o, v | o in live && v in live && o != v ensures ReachWithin(n, o, v, 2) {
        SurvivorReach(pl, n, o, v);
      }
    } else {
      var o, v :| o in live && v in live && o != v;
      SurvivorReach(pl, n, o, v);
      assert o !in pl.reflectors - n.down && v !in pl.reflectors - n.down;
      assert !ReachWithin(n, o, v, 2);
    }
  }

  // ---------- cutting one session ----------

  function Cut(pl: Plane, x: Router, y: Router): Net { Net(pl.Conf(), {(x, y)}, {}) }

  /** v no longer learns o's routes. Before the cut every router learned every other's (SurvivesExactly). */
  ghost predicate Lost(pl: Plane, x: Router, y: Router, o: Router, v: Router) {
    o in pl.routers && v in pl.routers && o != v && !Reach(Cut(pl, x, y), o, v)
  }

  lemma UpAfterCut(pl: Plane, x: Router, y: Router, a: Router, b: Router)
    requires pl.Valid()
    ensures Up(Cut(pl, x, y), a, b) <==> pl.Adjacent(a, b) && (a, b) != (x, y) && (a, b) != (y, x)
  {
    GeneratedFacts(pl, Cut(pl, x, y), a, b);
  }

  /** Cutting a session between two routers of the same role loses exactly the two directions of that session. */
  lemma CutSameRole(pl: Plane, x: Router, y: Router, o: Router, v: Router)
    requires pl.Valid() && pl.Adjacent(x, y) && pl.SameRole(x, y)
    ensures Lost(pl, x, y, o, v) <==> (o == x && v == y) || (o == y && v == x)
  {
    if o in pl.routers && v in pl.routers && o != v {
      var n := Cut(pl, x, y);
      ReachExactly(pl, n, o, v);
      UpAfterCut(pl, x, y, o, v);
      if !pl.Adjacent(o, v) {
        var s :| s in pl.reflectors;
        UpAfterCut(pl, x, y, o, s);
        UpAfterCut(pl, x, y, s, v);
        assert Via(pl, n, o, s, v);
      }
    }
  }

  /** Cutting reflector x from its client y loses nothing when there is another reflector; when x is the only one, it
      loses exactly the routes into and out of y. */
  lemma CutClient(pl: Plane, x: Router, y: Router, o: Router, v: Router)
    requires pl.Valid() && pl.Adjacent(x, y) && x in pl.reflectors && y !in pl.reflectors
    ensures pl.reflectors != {x} ==> !Lost(pl, x, y, o, v)
    ensures pl.reflectors == {x} ==>
              (Lost(pl, x, y, o, v) <==> o in pl.routers && v in pl.routers && o != v && (o == y || v == y))
  {
    if o in pl.routers && v in pl.routers && o != v {
      var n := Cut(pl, x, y);
      ReachExactly(pl, n, o, v);
      UpAfterCut(pl, x, y, o, v);
      if pl.reflectors != {x} {
        var s :| s in pl.reflectors && s != x;
        UpAfterCut(pl, x, y, o, s);
        UpAfterCut(pl, x, y, s, v);
        assert Up(n, o, v) || Via(pl, n, o, s, v);
      } else {
        UpAfterCut(pl, x, y, o, x);
        UpAfterCut(pl, x, y, x, v);
        assert Via(pl, n, o, x, v) <==> Up(n, o, x) && Up(n, x, v) && (o != x || v != x);
        forall s ensures !Via(pl, n, o, s, v) || s == x {}
        forall s, t ensures !ViaTwo(pl, n, o, s, t, v) {
          UpAfterCut(pl, x, y, s, t);
        }
      }
    }
  }

  /** The cut is symmetric: it does not matter which end shuts its neighbour. */
  lemma CutEitherEnd(pl: Plane, x: Router, y: Router, o: Router, v: Router)
    requires pl.Valid() && o != v
    ensures Reach(Cut(pl, x, y), o, v) <==> Reach(Cut(pl, y, x), o, v)
  {
    var n, m := Cut(pl, x, y), Cut(pl, y, x);
    forall a, b ensures Up(n, a, b) == Up(m, a, b) {
      UpAfterCut(pl, x, y, a, b);
      UpAfterCut(pl, y, x, a, b);
    }
    ReachExactly(pl, n, o, v);
    ReachExactly(pl, m, o, v);
    forall s ensures Via(pl, n, o, s, v) == Via(pl, m, o, s, v) {}
    forall s, t ensures ViaTwo(pl, n, o, s, t, v) == ViaTwo(pl, m, o, s, t, v) {}
  }

  /** Three sessions is a tight bound: with two sessions shut, a client can be reachable over three and no fewer. */
  lemma ThreeSessionsNeeded() returns (pl: Plane, n: Net)
    ensures Generated(pl, n) && Reach(n, "c", "d") && !ReachWithin(n, "c", "d", 2)
  {
    pl := Plane({"a", "b", "c", "d"}, {"a", "b"}, false);
    n := Net(pl.Conf(), {("a", "d"), ("b", "c")}, {});
    ThreeSessionsOnly(pl, n, "a", "b", "c", "d");
  }

  lemma ThreeSessionsOnly(pl: Plane, n: Net, a: Router, b: Router, c: Router, d: Router)
    requires Generated(pl, n) && pl.routers == {a, b, c, d} && pl.reflectors == {a, b} && Distinct4(a, b, c, d)
    requires n.shut == {(a, d), (b, c)} && n.down == {}
    ensures Reach(n, c, d) && !ReachWithin(n, c, d, 2)
  {
    ReachExactly(pl, n, c, d);
    GeneratedFacts(pl, n, c, a);
    GeneratedFacts(pl, n, a, b);
    GeneratedFacts(pl, n, b, d);
    GeneratedFacts(pl, n, c, d);
    GeneratedFacts(pl, n, a, d);
    GeneratedFacts(pl, n, c, b);
    assert ViaTwo(pl, n, c, a, b, d);
  }

  predicate Distinct4(a: Router, b: Router, c: Router, d: Router) {
    a != b && a != c && a != d && b != c && b != d && c != d
  }
}
