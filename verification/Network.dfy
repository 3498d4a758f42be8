/** The network as the forwarding layer sees it: interfaces named by switch ids, the
    switch each interface belongs to, and physical links. Level-k gateways, the next
    hops the control protocol may legitimately derive from them, and the proof that
    forwarding along such next hops cannot loop. */
module Network {
  import opened VidBits

  /** sw maps every interface id to its switch; links are the neighbor-table entries
      (own interface, neighbor interface). */
  datatype Net = Net(sw: map<Vid, nat>, links: set<(Vid, Vid)>) {

    predicate Valid() {
      && (forall v <- sw.Keys :: IsSwitch(v))
      && (forall l <- links :: l.0 in sw && l.1 in sw && l.0 != l.1)
    }

    predicate SameSwitch(a: Vid, b: Vid) {
      a in sw && b in sw && sw[a] == sw[b]
    }

    /** A link, or two interfaces of one switch: both are published alike. */
    predicate Edge(a: Vid, b: Vid) {
      (a, b) in links || (a != b && SameSwitch(a, b))
    }

    /** The switch that owns a has a physical neighbor b, at whichever interface. */
    predicate Beside(a: Vid, b: Vid) {
      exists l <- links :: SameSwitch(a, l.0) && l.1 == b
    }

    /** g is nearer than k to x and has an edge to w at distance k from x. */
    predicate GatewayVia(x: Vid, k: nat, g: Vid, w: Vid) {
      g in sw && w in sw && Edge(g, w) && Delta(x, g) < k && Delta(x, w) == k
    }

    ghost predicate Gateway(x: Vid, k: nat, g: Vid) {
      exists w: Vid :: GatewayVia(x, k, g, w)
    }

    /** A level-k gateway that no other is logically closer than. */
    ghost predicate Closest(x: Vid, k: nat, g: Vid) {
      Gateway(x, k, g) && forall h: Vid :: Gateway(x, k, h) ==> Delta(x, g) <= Delta(x, h)
    }

    /** The next hops for level k that edges and replies can put in x's table: a level-k
        neighbor of x itself, or a next hop towards some closest level-k gateway. The
        choice among equally close gateways is left open at every step. */
    ghost predicate NextHop(x: Vid, k: nat, y: Vid)
      decreases k
    {
      || (Edge(x, y) && x in sw && y in sw && Delta(x, y) == k)
      || exists g: Vid :: Closest(x, k, g) && Delta(x, g) > 0 && NextHop(x, Delta(x, g), y)
    }

    /** Some interface lies at distance k from x. */
    ghost predicate Inhabited(x: Vid, k: nat) {
      exists v: Vid :: v in sw && Delta(x, v) == k
    }

    /** 2^k + 2^j1 + 2^j2 + ..., where j1 is the distance to the closest level-k gateway,
        j2 the distance to the closest level-j1 gateway, and so on down to 0. */
    ghost function Measure(x: Vid, k: nat): (m: nat)
      decreases k
    {
      if exists g: Vid :: Closest(x, k, g) && Delta(x, g) > 0 then
        var g: Vid :| Closest(x, k, g) && Delta(x, g) > 0;
        Pow2(k) + Measure(x, Delta(x, g))
      else
        Pow2(k)
    }
  }

  lemma {:induction false} ClosestExists(net: Net, x: Vid, k: nat, g: Vid) returns (c: Vid)
    requires net.Gateway(x, k, g)
    ensures net.Closest(x, k, c)
    ensures Delta(x, c) <= Delta(x, g)
    decreases Delta(x, g)
  {
    if h: Vid :| net.Gateway(x, k, h) && Delta(x, h) < Delta(x, g) {
      c := ClosestExists(net, x, k, h);
    } else {
      c := g;
    }
  }

  /** The measure does not depend on which of the closest gateways is picked. */
  lemma MeasureVia(net: Net, x: Vid, k: nat, g: Vid)
    requires net.Closest(x, k, g)
    ensures net.Measure(x, k) == Pow2(k) + if Delta(x, g) > 0 then net.Measure(x, Delta(x, g)) else 0
  {
  }

  lemma {:induction false} MeasureBounds(net: Net, x: Vid, k: nat)
    ensures Pow2(k) <= net.Measure(x, k) < Pow2(k + 1)
    decreases k
  {
    if g: Vid :| net.Closest(x, k, g) && Delta(x, g) > 0 {
      MeasureVia(net, x, k, g);
      MeasureBounds(net, x, Delta(x, g));
      Pow2Mono(Delta(x, g) + 1, k);
    }
  }

  lemma MeasureLower(net: Net, x: Vid, i: nat, y: Vid, j: nat)
    requires i < j
    ensures net.Measure(x, i) < net.Measure(y, j)
  {
    MeasureBounds(net, x, i);
    MeasureBounds(net, y, j);
    Pow2Mono(i + 1, j);
  }

  /** Nodes nearer than k to each other have the same level-k gateways. */
  lemma GatewayShared(net: Net, x: Vid, y: Vid, k: nat, g: Vid)
    requires Delta(x, y) < k
    ensures net.Gateway(x, k, g) <==> net.Gateway(y, k, g)
  {
    forall w: Vid
      ensures net.GatewayVia(x, k, g, w) <==> net.GatewayVia(y, k, g, w)
    {
      DeltaSym(x, y);
      DeltaUltra(y, x, w);
      DeltaUltra(x, y, w);
      DeltaUltra(y, x, g);
      DeltaUltra(x, y, g);
    }
  }

  lemma {:induction false} NextHopNear(net: Net, x: Vid, k: nat, y: Vid)
    requires net.NextHop(x, k, y)
    ensures net.Edge(x, y) && x in net.sw && y in net.sw && 0 <= Delta(x, y) <= k
    decreases k
  {
    if !(net.Edge(x, y) && x in net.sw && y in net.sw && Delta(x, y) == k) {
      var g: Vid :| net.Closest(x, k, g) && Delta(x, g) > 0 && net.NextHop(x, Delta(x, g), y);
      NextHopNear(net, x, Delta(x, g), y);
    }
  }

  /** The heart of loop freedom: a legitimate next hop for level k strictly lowers the
      measure towards every destination at distance k. */
  lemma {:induction false} NextHopDescends(net: Net, x: Vid, k: nat, y: Vid, d: Vid)
    requires net.NextHop(x, k, y) && Delta(x, d) == k > 0
    ensures net.Measure(y, Delta(y, d)) < net.Measure(x, k)
    decreases k
  {
    DeltaSym(x, y);
    DeltaUltra(y, x, d);
    if net.Edge(x, y) && x in net.sw && y in net.sw && Delta(x, y) == k {
      MeasureLower(net, y, Delta(y, d), x, k);
    } else {
      var g: Vid :| net.Closest(x, k, g) && Delta(x, g) > 0 && net.NextHop(x, Delta(x, g), y);
      var j := Delta(x, g);
      NextHopNear(net, x, j, y);
      NextHopDescends(net, x, j, y, g);
      MeasureVia(net, x, k, g);
      assert Delta(y, d) == k;
      GatewayShared(net, x, y, k, g);
      var c := ClosestExists(net, y, k, g);
      MeasureVia(net, y, k, c);
      if Delta(y, c) < Delta(y, g) {
        MeasureLower(net, y, Delta(y, c), y, Delta(y, g));
      }
    }
  }
}
