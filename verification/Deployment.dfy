/** The pieces together: a network whose interfaces carry the ids assigned to a connected graph has
    a gateway at every inhabited distance and no id beyond the queried levels, so the runs of
    `Convergence` end with loop-free paths between all interfaces. */
module Deployment {
  import opened VidBits
  import opened Graph
  import opened Embedding
  import opened VidStore
  import opened Network
  import opened RendezvousTable
  import opened RendezvousAnswers
  import opened Protocol
  import opened Levels
  import opened Exchange
  import opened FarLevels
  import opened Convergence
  import opened Timers
  import opened TimerRounds
  import opened Realization

  /** No number of edges from one subtree to its sibling reads zero in eight bits. */
  ghost predicate CountsFit(net: Net) {
    forall x: Vid, k: nat {:trigger CrossingEdges(net, x, k)} ::
      x in net.sw && FIRST_QUERIED <= k <= LAST_QUERIED && CrossingEdges(net, x, k) != {} ==>
        |CrossingEdges(net, x, k)| % 256 != 0
  }

  lemma GatewayCrosses(net: Net, x: Vid, k: nat, g: Vid)
    requires net.Gateway(x, k, g)
    ensures CrossingEdges(net, x, k) != {}
  {
    var w: Vid :| net.GatewayVia(x, k, g, w);
    assert Edge(g, w) in CrossingEdges(net, x, k);
  }

  /** With the assigned ids, the count is all that can keep a query from being answered. */
  lemma AssignedIdsAnswerable(net: Net, g: Graph, cl: seq<nat>, codes: seq<Code>)
    requires Whole(g, cl, codes) && |g| > 0 && |codes[0]| <= 32 && Deployed(net, g, codes) && CountsFit(net)
    ensures AllAnswerable(net)
  {
    forall x: Vid, k: nat | x in net.sw && FIRST_QUERIED <= k <= LAST_QUERIED
      ensures Answerable(net, x, k)
    {
      if net.Inhabited(x, k) {
        AssignedIdsHaveGateways(net, g, cl, codes, x, k);
        var h: Vid :| net.Gateway(x, k, h);
        GatewayCrosses(net, x, k, h);
      }
    }
  }

  lemma AssignedIdsNear(net: Net, g: Graph, cl: seq<nat>, codes: seq<Code>, a: Vid, b: Vid)
    requires Whole(g, cl, codes) && |g| > 0 && |codes[0]| <= 14 && Deployed(net, g, codes)
    requires a in net.sw && b in net.sw
    ensures Delta(a, b) <= LAST_QUERIED
  {
    var i: nat :| i < |g| && a == VidFor(codes, i);
    var j: nat :| j < |g| && b == VidFor(codes, j);
    ShortCodesWithinLevels(g, cl, codes, i, j);
  }

  /** The whole chain, from the embedding to delivery: ids assigned to a graph with one cluster and
      codes of at most 14 digits, deployed over edges that include the graph's, and a run from
      empty tables in which every edge is published, every interface asks, and nothing of a
      level is lost. */
  lemma AssignedNetworkDelivers(net: Net, g: Graph, cl: seq<nat>, codes: seq<Code>,
                                states: seq<State>, events: seq<Event>, sched: Schedule, m: nat, x: Vid, d: Vid, v: Vid)
    returns (path: seq<Vid>)
    requires Whole(g, cl, codes) && |g| > 0 && |codes[0]| <= 14 && Deployed(net, g, codes) && net.Valid()
    requires CountsFit(net)
    requires LastingRun(net, states, events) && states[0] == State(map[], map[], {})
    requires Scheduled(net, states, events, sched) && m < |states|
    requires forall o: Vid, k: nat {:trigger sched(o, k)} ::
               o in net.sw && FIRST_QUERIED <= k <= LAST_QUERIED ==> sched(o, k).end <= m
    requires x in net.sw && v in net.sw && Delta(v, d) <= HOST_BITS
    ensures DefaultPath(net, states[m].rt, d, path, x, v)
  {
    AssignedIdsAnswerable(net, g, cl, codes);
    NothingFar(net, g, cl, codes, events[..m]);
    path := Converges(net, states, events, sched, m, x, d, v);
  }

  lemma NothingFar(net: Net, g: Graph, cl: seq<nat>, codes: seq<Code>, events: seq<Event>)
    requires Whole(g, cl, codes) && |g| > 0 && |codes[0]| <= 14 && Deployed(net, g, codes)
    ensures FarEdges(net) && FarTicked(net, events)
  {
    forall a: Vid, b: Vid | a in net.sw && b in net.sw
      ensures Delta(a, b) <= LAST_QUERIED
    {
      AssignedIdsNear(net, g, cl, codes, a, b);
    }
  }

  /** The same for whole rounds of timer calls: 32 of them, whatever is lost above their levels. */
  lemma AssignedRoundsDeliver(net: Net, g: Graph, cl: seq<nat>, codes: seq<Code>,
                              states: seq<State>, events: seq<Event>, rounds: seq<nat>, m: nat, x: Vid, d: Vid, v: Vid)
    returns (path: seq<Vid>)
    requires Whole(g, cl, codes) && |g| > 0 && |codes[0]| <= 14 && Deployed(net, g, codes) && net.Valid()
    requires CountsFit(net)
    requires LastingRun(net, states, events) && states[0] == State(map[], map[], {})
    requires RoundRun(net, states, events, rounds) && |rounds| == ROUNDS + 1 && rounds[ROUNDS] <= m < |states|
    requires x in net.sw && v in net.sw && Delta(v, d) <= HOST_BITS
    ensures DefaultPath(net, states[m].rt, d, path, x, v)
  {
    AssignedIdsAnswerable(net, g, cl, codes);
    NothingFar(net, g, cl, codes, events[..m]);
    path := RoundsConverge(net, states, events, rounds, m, x, d, v);
  }

  /** Such runs exist, made of whole timer calls: from empty tables the network can reach a state in
      which every interface has a loop-free default path to every other. */
  lemma AssignedNetworkConverges(net: Net, g: Graph, cl: seq<nat>, codes: seq<Code>)
    returns (states: seq<State>, events: seq<Event>, rounds: seq<nat>)
    requires Whole(g, cl, codes) && |g| > 0 && |codes[0]| <= 14 && Deployed(net, g, codes) && net.Valid()
    requires CountsFit(net)
    ensures LastingRun(net, states, events) && states[0] == State(map[], map[], {})
    ensures RoundRun(net, states, events, rounds) && |rounds| == ROUNDS + 1 && WholeCalls(net, events)
    ensures forall x: Vid, v: Vid :: x in net.sw && v in net.sw ==>
              exists path :: DefaultPath(net, states[|events|].rt, v, path, x, v)
  {
    AssignedIdsAnswerable(net, g, cl, codes);
    states, events, rounds := CanConverge(net);
    forall x: Vid, v: Vid | x in net.sw && v in net.sw
      ensures exists path :: DefaultPath(net, states[|events|].rt, v, path, x, v)
    {
      DeltaZero(v, v);
      var path := AssignedRoundsDeliver(net, g, cl, codes, states, events, rounds, |events|, x, v, v);
    }
  }

  // ----- when the counts fit

  lemma SplitBound(a: nat, b: nat)
    requires a + b <= 31
    ensures a * b <= 240
  {
    assert a * b <= a * (31 - a);
    assert (a - 15) * (a - 16) >= 0;
  }

  /** Up to 31 interfaces the counts fit whatever the links. */
  lemma FewInterfacesFit(net: Net)
    requires |net.sw| <= 31
    ensures CountsFit(net)
  {
    forall x: Vid, k: nat | x in net.sw && CrossingEdges(net, x, k) != {}
      ensures |CrossingEdges(net, x, k)| % 256 != 0
    {
      var near := set v <- net.sw.Keys | Delta(x, v) < k;
      var far := set v <- net.sw.Keys | Delta(x, v) == k;
      assert near !! far && near + far <= net.sw.Keys;
      Smaller(near + far, net.sw.Keys);
      PairsBound(CrossingEdges(net, x, k), near, far);
      SplitBound(|near|, |far|);
      assert |CrossingEdges(net, x, k)| > 0;
    }
  }

  ghost function VidsUpTo(codes: seq<Code>, n: nat): set<Vid>
    requires n <= |codes|
  {
    if n == 0 then {} else VidsUpTo(codes, n - 1) + {VidFor(codes, n - 1)}
  }

  lemma {:induction false} VidsUpToAll(codes: seq<Code>, n: nat)
    requires n <= |codes|
    ensures |VidsUpTo(codes, n)| <= n
    ensures forall v: Vid :: (exists i :: 0 <= i < n && v == VidFor(codes, i)) ==> v in VidsUpTo(codes, n)
  {
    if n > 0 {
      VidsUpToAll(codes, n - 1);
    }
  }

  /** Up to 14 nodes nothing is asked of the codes or the counts. */
  lemma SmallNetworksFit(net: Net, g: Graph, cl: seq<nat>, codes: seq<Code>)
    requires Whole(g, cl, codes) && 0 < |g| <= 14 && Deployed(net, g, codes)
    ensures |codes[0]| <= 14 && CountsFit(net)
  {
    FewNodesFit(g, cl, codes);
    VidsUpToAll(codes, |g|);
    Smaller(net.sw.Keys, VidsUpTo(codes, |g|));
    FewInterfacesFit(net);
  }

  /** At levels up to 21 an asker without an edge of its own is never one too many: too few ids
      are left in the two subtrees. */
  lemma LowLevelsFit(net: Net, x: Vid, k: nat)
    requires net.Valid() && FIRST_QUERIED <= k <= 21 && x in net.sw && !OwnEdge(net, x, k)
    ensures |CrossingEdges(net, x, k)| <= 240
  {
    var all := CrossingEdges(net, x, k);
    var near, far := Sources(all), Targets(all);
    DeltaZero(x, x);
    forall e | e in all
      ensures e.src != x
    {
      assert net.GatewayVia(x, k, e.src, e.dest);
    }
    assert x !in near;
    NearBound(x, k, near + {x});
    FarBound(x, k, far);
    PairsBound(all, near, far);
    SmallPowers(k - 17, 4);
    assert |near + {x}| == |near| + 1;
    ProductBound(|near|, |far|, 15, 16);
  }

  // ----- and when they do not

  /** A number for each id, so that every id can have a switch of its own. */
  function NumberOf(v: Vid): nat {
    Xor(v, Zeros(VID_BITS))
  }

  ghost function MeshIds(edges: set<Edge>, x: Vid, y: Vid): set<Vid> {
    {x, y} + Sources(edges) + Targets(edges)
  }

  ghost function BothWays(edges: set<Edge>): set<(Vid, Vid)> {
    (set e <- edges :: (e.src, e.dest)) + (set e <- edges :: (e.dest, e.src))
  }

  /** A network of these edges, both ways, and a link from x to y; every id is a switch. */
  ghost function Mesh(edges: set<Edge>, x: Vid, y: Vid): (net: Net) {
    Net(map v: Vid | v in MeshIds(edges, x, y) :: NumberOf(v), BothWays(edges) + {(x, y), (y, x)})
  }

  lemma MeshLink(edges: set<Edge>, l: (Vid, Vid))
    ensures l in BothWays(edges) <==> Edge(l.0, l.1) in edges || Edge(l.1, l.0) in edges
  {
  }

  /** A network in which a query cannot be answered: at each level from 22 on, sixteen switches with
      links to sixteen switches of the sibling subtree each, and a neighbor x of one of them that has
      to ask for these links. */
  lemma UnansweredNetwork(k: nat) returns (net: Net, y: Vid, x: Vid)
    requires 22 <= k <= LAST_QUERIED
    ensures net.Valid() && x in net.sw && net.Inhabited(x, k) && net.Gateway(x, k, y) && !OwnEdge(net, x, k)
    ensures forall v: Vid, w: Vid :: net.SameSwitch(v, w) ==> v == w
    ensures |CrossingEdges(net, x, k)| == 256 && !Answerable(net, x, k)
  {
    var s: Vid := Zeros(VID_BITS);
    var edges := Grid(s, k, [false]);
    assert edges != {};
    var e :| e in edges;
    y, x := e.src, Node(s, k, false, [true] + Zeros(4));
    net := Mesh(edges, x, y);
    forall f | f in edges
      ensures f.src[49 - k] == false
    {
      GridSources(s, k, [false], f);
    }
    NodeHead(s, k, false, [true] + Zeros(4));
    MeshValid(edges, x, y);
    forall v: Vid, w: Vid | net.SameSwitch(v, w)
      ensures v == w
    {
      MeshSwitches(edges, x, y, v, w);
    }
    MeshCrosses(edges, s, x, y, k);
    assert net.GatewayVia(x, k, y, e.dest);
  }

  lemma MeshSwitches(edges: set<Edge>, x: Vid, y: Vid, v: Vid, w: Vid)
    requires Mesh(edges, x, y).SameSwitch(v, w)
    ensures v == w
  {
    XorInjective(v, w, Zeros(VID_BITS));
  }

  lemma MeshLinks(edges: set<Edge>, x: Vid, y: Vid, g: Vid, w: Vid)
    requires Mesh(edges, x, y).Edge(g, w)
    ensures Edge(g, w) in edges || Edge(w, g) in edges || (g == x && w == y) || (g == y && w == x)
  {
    if (g, w) in Mesh(edges, x, y).links {
      MeshLink(edges, (g, w));
    } else {
      MeshSwitches(edges, x, y, g, w);
    }
  }

  lemma MeshIdsValid(edges: set<Edge>, x: Vid, y: Vid)
    requires IsSwitch(x) && IsSwitch(y) && forall e :: e in edges ==> IsSwitch(e.src) && IsSwitch(e.dest)
    ensures forall v: Vid :: v in MeshIds(edges, x, y) ==> IsSwitch(v)
  {
  }

  lemma MeshLinkValid(edges: set<Edge>, x: Vid, y: Vid, l: (Vid, Vid))
    requires x != y && l in Mesh(edges, x, y).links && forall e :: e in edges ==> e.src != e.dest
    ensures l.0 in MeshIds(edges, x, y) && l.1 in MeshIds(edges, x, y) && l.0 != l.1
  {
    if l != (x, y) && l != (y, x) {
      MeshLink(edges, l);
    }
  }

  lemma MeshValid(edges: set<Edge>, x: Vid, y: Vid)
    requires IsSwitch(x) && IsSwitch(y) && x != y
    requires forall e :: e in edges ==> IsSwitch(e.src) && IsSwitch(e.dest) && e.src != e.dest
    ensures Mesh(edges, x, y).Valid()
  {
    MeshIdsValid(edges, x, y);
    forall l | l in Mesh(edges, x, y).links
      ensures l.0 in MeshIds(edges, x, y) && l.1 in MeshIds(edges, x, y) && l.0 != l.1
    {
      MeshLinkValid(edges, x, y, l);
    }
  }

  lemma MeshVia(edges: set<Edge>, s: Vid, x: Vid, y: Vid, k: nat, g: Vid, w: Vid)
    requires Delta(s, x) < k && Delta(s, y) < k && forall e :: e in edges ==> Qualifies(e, k, s)
    ensures Mesh(edges, x, y).GatewayVia(x, k, g, w) <==> Edge(g, w) in edges
  {
    SameSide(s, x, k, g);
    SameSide(s, x, k, w);
    SameSide(s, x, k, y);
    DeltaZero(x, x);
    var net := Mesh(edges, x, y);
    if Edge(g, w) in edges {
      MeshLink(edges, (g, w));
    } else if net.GatewayVia(x, k, g, w) {
      MeshLinks(edges, x, y, g, w);
    }
  }

  lemma SameSide(s: Vid, x: Vid, k: nat, v: Vid)
    requires Delta(s, x) < k
    ensures Delta(x, v) < k <==> Delta(s, v) < k
    ensures Delta(x, v) == k <==> Delta(s, v) == k
  {
    DeltaSym(s, x);
    DeltaUltra(x, s, v);
    DeltaUltra(s, x, v);
  }

  lemma MeshCrosses(edges: set<Edge>, s: Vid, x: Vid, y: Vid, k: nat)
    requires Delta(s, x) < k && Delta(s, y) < k && forall e :: e in edges ==> Qualifies(e, k, s)
    ensures forall g: Vid, w: Vid :: Mesh(edges, x, y).GatewayVia(x, k, g, w) <==> Edge(g, w) in edges
    ensures CrossingEdges(Mesh(edges, x, y), x, k) == edges
  {
    var net := Mesh(edges, x, y);
    forall g: Vid, w: Vid
      ensures net.GatewayVia(x, k, g, w) <==> Edge(g, w) in edges
    {
      MeshVia(edges, s, x, y, k, g, w);
    }
    forall e: Edge
      ensures e in CrossingEdges(net, x, k) <==> e in edges
    {
      assert e == Edge(e.src, e.dest);
    }
  }
}
