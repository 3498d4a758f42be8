/** The edges a rendezvous node has learned, and the gateways it answers queries with. */
module RendezvousTable {
  import opened VidBits
  import opened RouteTable

  datatype Edge = Edge(src: Vid, dest: Vid)

  /** The edge leaves the subtree of height k-1 around s for the level-k sibling subtree. */
  predicate Qualifies(e: Edge, k: nat, s: Vid) {
    Delta(s, e.dest) == k && Delta(s, e.src) < k
  }

  function Qualifying(edges: set<Edge>, k: nat, s: Vid): set<Edge> {
    set e <- edges | Qualifies(e, k, s)
  }

  /** How many gateways an answer may name. The count of qualifying edges is kept in eight bits. */
  function Most(edges: set<Edge>, k: nat, s: Vid): nat {
    var n := |Qualifying(edges, k, s)| % 256;
    if n < MAX_GW_PER_BUCKET then n else MAX_GW_PER_BUCKET
  }

  /** Each gateway is the source of a qualifying edge of its own; if there is room left, every
      qualifying edge whose source is not the first gateway was taken. */
  ghost predicate TakenFrom(edges: set<Edge>, k: nat, s: Vid, most: nat, gws: seq<Vid>, picks: seq<Edge>) {
    && |picks| == |gws|
    && (forall i :: 0 <= i < |gws| ==> picks[i] in edges && Qualifies(picks[i], k, s) && picks[i].src == gws[i])
    && (forall i, j :: 0 <= i < j < |gws| ==> picks[i] != picks[j])
    && (0 < |gws| < most ==>
          forall e :: e in edges && Qualifies(e, k, s) && e.src != gws[0] ==> e in picks)
  }

  /** A gateway list a rendezvous node holding these edges may answer with. */
  ghost predicate Selection(edges: set<Edge>, k: nat, s: Vid, gws: seq<Vid>) {
    && (gws == [] <==> |Qualifying(edges, k, s)| % 256 == 0)
    && |gws| <= Most(edges, k, s)
    && (forall i :: 0 <= i < |gws| ==> exists e :: e in edges && Qualifies(e, k, s) && e.src == gws[i])
    && (exists picks :: TakenFrom(edges, k, s, Most(edges, k, s), gws, picks))
    && (gws != [] ==> forall e :: e in edges && Qualifies(e, k, s) ==> SwitchXor(gws[0], s) <= SwitchXor(e.src, s))
    && (forall i :: 0 < i < |gws| ==> gws[i] != gws[0])
    && (|gws| < Most(edges, k, s) ==> forall e :: e in edges && Qualifies(e, k, s) ==> e.src in gws)
  }

  class RendezvousTable {
    var rdvedges: set<Edge>

    constructor ()
      ensures rdvedges == {}
    {
      rdvedges := {};
    }

    method UpdateEntry(src: Vid, dest: Vid)
      modifies this
      ensures rdvedges == old(rdvedges) + {Edge(src, dest)}
    {
      rdvedges := rdvedges + {Edge(src, dest)};
    }

    /** The timer of one edge fires. */
    method Expire(e: Edge)
      modifies this
      ensures rdvedges == old(rdvedges) - {e}
    {
      rdvedges := rdvedges - {e};
    }

    /** The hash table's iteration order: some order, each edge once. */
    method Order() returns (order: seq<Edge>)
      ensures Lists(order, rdvedges)
    {
      order := [];
      var rest := rdvedges;
      while rest != {}
        invariant rest <= rdvedges
        invariant forall e :: e in order <==> e in rdvedges - rest
        invariant forall i, j :: 0 <= i < j < |order| ==> order[i] != order[j]
        decreases rest
      {
        var e :| e in rest;
        assert e !in order;
        order := order + [e];
        rest := rest - {e};
      }
    }

    /** First pass: the nearest qualifying source, and the eight-bit count. */
    method DefaultGateway(order: seq<Edge>, k: nat, s: Vid) returns (ngws: nat, defaultgw: Vid)
      ensures ngws == Scan(order, k, s).count % 256 && defaultgw == Scan(order, k, s).gw
    {
      var bestXORDist := 0xFFFFFFFF;
      defaultgw, ngws := Zeros(VID_BITS), 0;
      for i := 0 to |order|
        invariant ngws == Scan(order[..i], k, s).count % 256
        invariant bestXORDist == Scan(order[..i], k, s).xor && defaultgw == Scan(order[..i], k, s).gw
      {
        var edge := order[i];
        assert order[..i + 1][..i] == order[..i];
        if k == Delta(s, edge.dest) && Delta(s, edge.src) < k {
          var newdist := SwitchXor(edge.src, s);
          if newdist <= bestXORDist {
            defaultgw := edge.src;
            bestXORDist := newdist;
          }
          CountWraps(Scan(order[..i], k, s).count);
          ngws := (ngws + 1) % 256;
        }
      }
      assert order[..|order|] == order;
    }

    /** Gateways for level k of s: the nearest first, then others in table order. */
    method GetRdvPoint(k: nat, s: Vid) returns (gateway: seq<Vid>)
      ensures Selection(rdvedges, k, s, gateway)
      ensures gateway == [] <==> |Qualifying(rdvedges, k, s)| % 256 == 0
      ensures |Qualifying(rdvedges, k, s)| < 256 ==>
                (gateway == [] <==> forall e :: e in rdvedges ==> !Qualifies(e, k, s))
    {
      var order := Order();
      var ngws, defaultgw := DefaultGateway(order, k, s);
      ScannedCount(rdvedges, order, k, s);
      if ngws > MAX_GW_PER_BUCKET {
        ngws := MAX_GW_PER_BUCKET;
      }
      gateway := [];
      if ngws > 0 {
        DefaultQualifies(rdvedges, order, k, s);
        gateway := CopyGateways(order, ngws, defaultgw, k, s);
        ghost var e :| e in rdvedges && Qualifies(e, k, s) && e.src == defaultgw;
        CopiedIsSelection(rdvedges, order, k, s, gateway, e);
      } else {
        NothingTaken(rdvedges, k, s);
      }
      EmptyMeans(rdvedges, k, s, gateway);
    }

    /** Second pass: the default gateway, then the sources of the other qualifying edges in
        table order until ngws are found. A source with several edges is repeated. */
    method CopyGateways(order: seq<Edge>, ngws: nat, defaultgw: Vid, k: nat, s: Vid) returns (gateway: seq<Vid>)
      requires ngws > 0
      ensures gateway == Copied(order, ngws, defaultgw, k, s)
    {
      gateway := [defaultgw];
      for i := 0 to |order|
        invariant gateway == [defaultgw] + SourcesOf(Others(order[..i], k, s, defaultgw)) && |gateway| <= ngws
      {
        if |gateway| == ngws {
          OthersGrow(order, i, k, s, defaultgw);
          FirstSources(Others(order, k, s, defaultgw), Others(order[..i], k, s, defaultgw));
          return;
        }
        var edge := order[i];
        assert order[..i + 1][..i] == order[..i];
        if k == Delta(s, edge.dest) && Delta(s, edge.src) < k {
          if edge.src != defaultgw {
            gateway := gateway + [edge.src];
          }
        }
      }
      assert order[..|order|] == order;
    }
  }

  // ----- the gateways that are copied

  function SourcesOf(es: seq<Edge>): (vs: seq<Vid>)
    ensures |vs| == |es| && forall i :: 0 <= i < |es| ==> vs[i] == es[i].src
  {
    seq(|es|, i requires 0 <= i < |es| => es[i].src)
  }

  /** The qualifying edges, in their order, whose source is not the default gateway. */
  function Others(order: seq<Edge>, k: nat, s: Vid, g: Vid): seq<Edge> {
    if order == [] then []
    else
      var n := |order| - 1;
      Others(order[..n], k, s, g) + if Qualifies(order[n], k, s) && order[n].src != g then [order[n]] else []
  }

  function FirstOf(es: seq<Edge>, m: nat): seq<Edge> {
    if |es| <= m then es else es[..m]
  }

  function Copied(order: seq<Edge>, ngws: nat, g: Vid, k: nat, s: Vid): seq<Vid>
    requires ngws > 0
  {
    [g] + SourcesOf(FirstOf(Others(order, k, s, g), ngws - 1))
  }

  lemma {:induction false} OthersGrow(order: seq<Edge>, i: nat, k: nat, s: Vid, g: Vid)
    requires i <= |order|
    ensures Others(order[..i], k, s, g) <= Others(order, k, s, g)
  {
    if i < |order| {
      var n := |order| - 1;
      assert order[..n][..i] == order[..i];
      OthersGrow(order[..n], i, k, s, g);
    } else {
      assert order[..i] == order;
    }
  }

  lemma FirstSources(all: seq<Edge>, some: seq<Edge>)
    requires some <= all
    ensures SourcesOf(FirstOf(all, |some|)) == SourcesOf(some)
  {
    assert FirstOf(all, |some|) == some;
  }

  predicate IsOther(e: Edge, k: nat, s: Vid, g: Vid) {
    Qualifies(e, k, s) && e.src != g
  }

  /** Each of the other edges in the listing, once. */
  ghost predicate Picks(es: seq<Edge>, order: seq<Edge>, k: nat, s: Vid, g: Vid) {
    && (forall e :: e in es <==> e in order && IsOther(e, k, s, g))
    && (forall i, j :: 0 <= i < j < |es| ==> es[i] != es[j])
  }

  lemma PicksOneMore(es: seq<Edge>, order: seq<Edge>, e: Edge, all: seq<Edge>, k: nat, s: Vid, g: Vid)
    requires Picks(es, order, k, s, g) && e !in order && all == order + [e]
    ensures Picks(if IsOther(e, k, s, g) then es + [e] else es, all, k, s, g)
  {
  }

  lemma {:induction false} OthersAre(order: seq<Edge>, k: nat, s: Vid, g: Vid)
    requires forall i, j :: 0 <= i < j < |order| ==> order[i] != order[j]
    ensures Picks(Others(order, k, s, g), order, k, s, g)
  {
    if order != [] {
      var n := |order| - 1;
      OthersAre(order[..n], k, s, g);
      assert order[n] !in order[..n];
      PicksOneMore(Others(order[..n], k, s, g), order[..n], order[n], order, k, s, g);
      assert Others(order[..n], k, s, g) + [] == Others(order[..n], k, s, g);
    }
  }

  lemma NothingTaken(edges: set<Edge>, k: nat, s: Vid)
    requires |Qualifying(edges, k, s)| % 256 == 0
    ensures Selection(edges, k, s, [])
  {
    assert TakenFrom(edges, k, s, Most(edges, k, s), [], []);
  }

  /** es lists the other qualifying edges, each once. */
  ghost predicate AreOthers(es: seq<Edge>, edges: set<Edge>, k: nat, s: Vid, g: Vid) {
    && (forall i :: 0 <= i < |es| ==> es[i] in edges && Qualifies(es[i], k, s) && es[i].src != g)
    && (forall i, j :: 0 <= i < j < |es| ==> es[i] != es[j])
    && (forall e :: e in edges && Qualifies(e, k, s) && e.src != g ==> e in es)
  }

  /** The first edge and then others, in their order, as far as there is room. */
  ghost predicate Follow(picks: seq<Edge>, first: Edge, es: seq<Edge>, most: nat) {
    && 0 < |picks| <= |es| + 1 && |picks| <= most && (|picks| < most ==> |picks| == |es| + 1)
    && picks[0] == first && forall i {:trigger picks[i]} :: 0 < i < |picks| ==> picks[i] == es[i - 1]
  }

  lemma FollowDiffer(edges: set<Edge>, k: nat, s: Vid, most: nat, first: Edge, es: seq<Edge>, picks: seq<Edge>)
    requires AreOthers(es, edges, k, s, first.src) && Follow(picks, first, es, most)
    ensures forall i, j :: 0 <= i < j < |picks| ==> picks[i] != picks[j]
  {
    forall i, j | 0 <= i < j < |picks|
      ensures picks[i] != picks[j]
    {
      assert picks[j] == es[j - 1];
      if i > 0 {
        assert picks[i] == es[i - 1];
      }
    }
  }

  lemma FollowTaken(edges: set<Edge>, k: nat, s: Vid, most: nat, gws: seq<Vid>, first: Edge, es: seq<Edge>,
      picks: seq<Edge>)
    requires first in edges && Qualifies(first, k, s) && AreOthers(es, edges, k, s, first.src)
    requires Follow(picks, first, es, most)
    requires |gws| == |picks| && forall i :: 0 <= i < |gws| ==> gws[i] == picks[i].src
    ensures TakenFrom(edges, k, s, most, gws, picks)
    ensures forall i :: 0 < i < |gws| ==> gws[i] != gws[0]
  {
    FollowDiffer(edges, k, s, most, first, es, picks);
    forall i | 0 < i < |gws|
      ensures picks[i] in edges && Qualifies(picks[i], k, s) && picks[i].src == gws[i] && gws[i] != first.src
    {
      assert picks[i] == es[i - 1];
    }
    forall e | e in es && |gws| < most
      ensures e in picks
    {
      var i :| 0 <= i < |es| && es[i] == e;
      assert picks[i + 1] == e;
    }
  }

  /** With room left, every source is named. */
  lemma AllNamed(edges: set<Edge>, k: nat, s: Vid, most: nat, gws: seq<Vid>, picks: seq<Edge>)
    requires TakenFrom(edges, k, s, most, gws, picks) && 0 < |gws| < most
    ensures forall e :: e in edges && Qualifies(e, k, s) ==> e.src in gws
  {
    forall e | e in edges && Qualifies(e, k, s) && e.src != gws[0]
      ensures e.src in gws
    {
      var i :| 0 <= i < |picks| && picks[i] == e;
      assert gws[i] == e.src;
    }
  }

  lemma TakenIsSelection(edges: set<Edge>, k: nat, s: Vid, gws: seq<Vid>, picks: seq<Edge>)
    requires Most(edges, k, s) > 0 && 0 < |gws| <= Most(edges, k, s)
    requires TakenFrom(edges, k, s, Most(edges, k, s), gws, picks)
    requires forall i :: 0 < i < |gws| ==> gws[i] != gws[0]
    requires forall e :: e in edges && Qualifies(e, k, s) ==> SwitchXor(gws[0], s) <= SwitchXor(e.src, s)
    ensures Selection(edges, k, s, gws)
  {
    if |gws| < Most(edges, k, s) {
      AllNamed(edges, k, s, Most(edges, k, s), gws, picks);
    }
  }

  /** What the second pass copies is a permitted answer, whatever the order of the table. */
  lemma CopiedIsSelection(edges: set<Edge>, order: seq<Edge>, k: nat, s: Vid, gws: seq<Vid>, first: Edge)
    requires Lists(order, edges) && first in edges && Qualifies(first, k, s)
    requires forall e :: e in edges && Qualifies(e, k, s) ==> SwitchXor(first.src, s) <= SwitchXor(e.src, s)
    requires Most(edges, k, s) > 0 && gws == Copied(order, Most(edges, k, s), first.src, k, s)
    ensures Selection(edges, k, s, gws)
  {
    var es := Others(order, k, s, first.src);
    OthersAre(order, k, s, first.src);
    var picks := [first] + FirstOf(es, Most(edges, k, s) - 1);
    FollowTaken(edges, k, s, Most(edges, k, s), gws, first, es, picks);
    TakenIsSelection(edges, k, s, gws, picks);
  }

  /** The qualifying edges among a listing, gathered one by one. */
  ghost function QualifyingIn(order: seq<Edge>, k: nat, s: Vid): set<Edge> {
    if order == [] then {}
    else
      var n := |order| - 1;
      QualifyingIn(order[..n], k, s) + if Qualifies(order[n], k, s) then {order[n]} else {}
  }

  lemma {:induction false} QualifyingInIs(order: seq<Edge>, k: nat, s: Vid)
    ensures QualifyingIn(order, k, s) == set e | e in order && Qualifies(e, k, s)
  {
    if order != [] {
      var n := |order| - 1;
      QualifyingInIs(order[..n], k, s);
      assert order == order[..n] + [order[n]];
    }
  }

  /** What the first pass has found after some of the edges: the count, the
      least exclusive-or so far, and its source. */
  datatype Best = Best(count: nat, xor: nat, gw: Vid)

  function Scan(order: seq<Edge>, k: nat, s: Vid): Best {
    if order == [] then Best(0, 0xFFFFFFFF, Zeros(VID_BITS))
    else
      var n := |order| - 1;
      var b := Scan(order[..n], k, s);
      if !Qualifies(order[n], k, s) then b
      else
        var x := SwitchXor(order[n].src, s);
        var count := b.count + 1;
        if x <= b.xor then Best(count, x, order[n].src) else Best(count, b.xor, b.gw)
  }

  lemma {:induction false} ScanCounts(order: seq<Edge>, k: nat, s: Vid)
    requires forall i, j :: 0 <= i < j < |order| ==> order[i] != order[j]
    ensures Scan(order, k, s).count == |QualifyingIn(order, k, s)|
  {
    if order != [] {
      var n := |order| - 1;
      assert order[n] !in order[..n];
      ScanCounts(order[..n], k, s);
      QualifyingInIs(order[..n], k, s);
      if Qualifies(order[n], k, s) {
        CountGrows(QualifyingIn(order[..n], k, s), order[n]);
      }
    }
  }

  lemma {:induction false} ScanFindsNearest(order: seq<Edge>, k: nat, s: Vid)
    ensures var b := Scan(order, k, s);
            && (forall e :: e in QualifyingIn(order, k, s) ==> b.xor <= SwitchXor(e.src, s))
            && (if QualifyingIn(order, k, s) == {} then b.xor == 0xFFFFFFFF
                else b.xor == SwitchXor(b.gw, s) && exists e :: e in QualifyingIn(order, k, s) && e.src == b.gw)
  {
    if order != [] {
      var n := |order| - 1;
      ScanFindsNearest(order[..n], k, s);
      if Qualifies(order[n], k, s) {
        XorFits(order[n].src, s);
        assert order[n] in QualifyingIn(order, k, s);
      }
    }
  }

  /** order lists each of the edges once. */
  ghost predicate Lists(order: seq<Edge>, edges: set<Edge>) {
    && (forall e :: e in order <==> e in edges)
    && (forall i, j :: 0 <= i < j < |order| ==> order[i] != order[j])
  }

  lemma ScannedCount(edges: set<Edge>, order: seq<Edge>, k: nat, s: Vid)
    requires Lists(order, edges)
    ensures Scan(order, k, s).count == |Qualifying(edges, k, s)|
  {
    QualifyingInIs(order, k, s);
    ScanCounts(order, k, s);
    assert QualifyingIn(order, k, s) == Qualifying(edges, k, s);
  }

  lemma DefaultQualifies(edges: set<Edge>, order: seq<Edge>, k: nat, s: Vid)
    requires Lists(order, edges) && |Qualifying(edges, k, s)| > 0
    ensures exists e :: e in order && Qualifies(e, k, s) && e.src == Scan(order, k, s).gw
    ensures forall e :: e in edges && Qualifies(e, k, s) ==> SwitchXor(Scan(order, k, s).gw, s) <= SwitchXor(e.src, s)
  {
    QualifyingInIs(order, k, s);
    ScanFindsNearest(order, k, s);
    assert QualifyingIn(order, k, s) == Qualifying(edges, k, s);
    assert QualifyingIn(order, k, s) != {};
  }

  lemma CountGrows(seen: set<Edge>, e: Edge)
    requires e !in seen
    ensures |seen + {e}| == |seen| + 1
  {
  }

  lemma CountWraps(n: nat)
    ensures (n % 256 + 1) % 256 == (n + 1) % 256
  {
  }

  lemma XorFits(a: Vid, b: Vid)
    ensures SwitchXor(a, b) <= 0xFFFFFFFF
  {
    XorBounds(a[..32], b[..32]);
    Pow2Mono(Delta(a[..32], b[..32]), 32);
    Pow2Word(32);
  }

  /** The first gateway of an answer is logically closest among all qualifying sources. */
  lemma SelectionClosest(edges: set<Edge>, k: nat, s: Vid, gws: seq<Vid>, e: Edge)
    requires Selection(edges, k, s, gws) && gws != [] && e in edges && Qualifies(e, k, s)
    requires forall f :: f in edges ==> IsSwitch(f.src)
    requires IsSwitch(s)
    ensures Delta(s, gws[0]) <= Delta(s, e.src)
    ensures Delta(s, gws[0]) < k
  {
    var g := gws[0];
    DeltaSym(s, g);
    DeltaSym(s, e.src);
    if Delta(e.src, s) < Delta(g, s) {
      SwitchDelta(e.src, s);
      SwitchDelta(g, s);
      SwitchDeltaZero(e.src, s);
      SwitchDeltaZero(g, s);
      DeltaZero(g, s);
      XorOrder(e.src[..32], g[..32], s[..32]);
    }
  }

  /** What an empty answer tells. */
  lemma EmptyMeans(edges: set<Edge>, k: nat, s: Vid, gws: seq<Vid>)
    requires Selection(edges, k, s, gws)
    ensures gws == [] <==> |Qualifying(edges, k, s)| % 256 == 0
    ensures |Qualifying(edges, k, s)| < 256 ==> (gws == [] <==> forall e :: e in edges ==> !Qualifies(e, k, s))
  {
    if e :| e in edges && Qualifies(e, k, s) {
      assert e in Qualifying(edges, k, s);
    } else {
      assert Qualifying(edges, k, s) == {};
    }
  }
}
