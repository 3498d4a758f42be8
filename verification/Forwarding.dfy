/** Packets on complete tables: a packet for an existing switch is delivered without ever
    revisiting a switch, and a re-aimed packet ends at the interface whose id is nearest,
    in exclusive-or, to the id it was first aimed at. */
module Forwarding {
  import opened VidBits
  import opened Network
  import opened RouteTable

  /** The routing tables of every interface. */
  type Tables = map<Vid, Inner>

  function DefaultAt(rt: Tables, x: Vid, k: nat): (r: RouteReply)
    ensures !r.Local?
  {
    if x in rt then Default(rt[x], k) else NoRoute
  }

  /** What the switch of x does with a packet held at x and bound for d. */
  datatype Move = Here | To(next: Vid) | Stuck

  function Forward(net: Net, rt: Tables, x: Vid, d: Vid): Move {
    if Delta(x, d) <= HOST_BITS then Here
    else if net.Beside(x, SwitchVid(d)) then To(SwitchVid(d))
    else
      match DefaultAt(rt, x, Delta(x, d))
      case Via(nh, _) => if net.Beside(x, nh) || net.SameSwitch(x, nh) then To(nh) else Stuck
      case _ => Stuck
  }

  /** Where a packet is, and which id it is now aimed at. */
  datatype Pos = Pos(at: Vid, dest: Vid)

  /** One step of a packet that may be re-aimed: move on, or flip the bit at the distance. */
  function Advance(net: Net, rt: Tables, p: Pos): Pos
    requires Delta(p.at, p.dest) > HOST_BITS
  {
    match Forward(net, rt, p.at, p.dest)
    case To(y) => Pos(y, p.dest)
    case _ => Pos(p.at, FlipBit(p.dest, Delta(p.at, p.dest)))
  }

  /** Bucket j of x holds a default exactly when some interface lies at distance j, and
      then one that the control protocol may have derived. */
  ghost predicate CompleteAt(net: Net, rt: Tables, x: Vid, j: nat) {
    var r := DefaultAt(rt, x, j);
    && (r.Via? <==> net.Inhabited(x, j))
    && (r.Via? ==> net.NextHop(x, j, r.nexthop))
  }

  /** Every bucket below k is complete at every interface of o's subtree of height k-1.
      With k above VID_BITS that is the whole network. */
  ghost predicate CompleteBelow(net: Net, rt: Tables, o: Vid, k: nat) {
    forall x: Vid, j :: x in net.sw && Delta(o, x) < k && HOST_BITS < j < k ==> CompleteAt(net, rt, x, j)
  }

  /** v's switch id is the nearest, in exclusive-or, to d. */
  ghost predicate Nearest(net: Net, v: Vid, d: Vid) {
    v in net.sw && forall w: Vid :: w in net.sw ==> SwitchXor(v, d) <= SwitchXor(w, d)
  }

  ghost predicate Inside(net: Net, o: Vid, k: nat, p: Pos) {
    p.at in net.sw && Delta(o, p.at) < k && Delta(o, p.dest) < k
  }

  ghost function Potential(net: Net, p: Pos): nat {
    net.Measure(p.at, Delta(p.at, p.dest))
  }

  lemma NearestUnique(net: Net, v: Vid, w: Vid, d: Vid)
    requires net.Valid() && Nearest(net, v, d) && Nearest(net, w, d)
    ensures v == w
  {
    XorInjective(v[..32], w[..32], d[..32]);
    assert SwitchVid(v) == SwitchVid(w);
  }

  lemma ArrivedIsNearest(net: Net, x: Vid, d: Vid)
    requires x in net.sw && Delta(x, d) <= HOST_BITS
    ensures Nearest(net, x, d)
  {
    SwitchDelta(x, d);
    DeltaZero(x[..32], d[..32]);
    XorZero(x[..32], d[..32]);
  }

  lemma FartherXor(a: Vid, b: Vid, d: Vid)
    requires Delta(a, d) < Delta(b, d) && Delta(b, d) > HOST_BITS
    ensures SwitchXor(a, d) < SwitchXor(b, d)
  {
    SwitchDelta(a, d);
    SwitchDelta(b, d);
    XorOrder(a[..32], b[..32], d[..32]);
  }

  /** Flipping the bit at the distance shifts all distances of x's own subtree alike. */
  lemma FlipShifts(w: Vid, x: Vid, d: Vid)
    requires Delta(x, d) > HOST_BITS && Delta(w, x) < Delta(x, d)
    ensures SwitchXor(w, d) == SwitchXor(w, FlipBit(d, Delta(x, d))) + Pow2(Delta(x, d) - 17)
  {
    var k := Delta(x, d);
    DeltaPrefix(w, x, k - 1);
    assert w[48 - k] == w[..48 - (k - 1)][48 - k] == x[48 - k];
    DeltaBit(x, d);
    assert FlipBit(d, k)[..32] == FlipBit(d[..32], k - 16);
    XorFlip(w[..32], d[..32], k - 16);
  }

  lemma OutsiderFarther(net: Net, w: Vid, x: Vid, e: Vid, k: nat)
    requires x in net.sw && w in net.sw && !net.Inhabited(x, k) && k > HOST_BITS
    requires Delta(x, e) <= k && Delta(w, x) >= k
    ensures SwitchXor(x, e) < SwitchXor(w, e)
  {
    DeltaSym(w, x);
    DeltaUltra(w, x, e);
    FartherXor(x, w, e);
  }

  /** Re-aiming across an uninhabited subtree keeps the nearest interface. */
  lemma FlipKeepsNearest(net: Net, x: Vid, d: Vid, v: Vid)
    requires x in net.sw && Delta(x, d) > HOST_BITS && !net.Inhabited(x, Delta(x, d))
    ensures Nearest(net, v, d) <==> Nearest(net, v, FlipBit(d, Delta(x, d)))
  {
    var k := Delta(x, d);
    var f: Vid := FlipBit(d, k);
    FlipDelta(x, d);
    forall w: Vid | w in net.sw
      ensures Delta(w, x) >= k ==> SwitchXor(x, d) < SwitchXor(w, d) && SwitchXor(x, f) < SwitchXor(w, f)
      ensures Delta(w, x) < k ==> SwitchXor(w, d) == SwitchXor(w, f) + Pow2(k - 17)
    {
      if Delta(w, x) >= k {
        OutsiderFarther(net, w, x, d, k);
        OutsiderFarther(net, w, x, f, k);
      } else {
        FlipShifts(w, x, d);
      }
    }
    DeltaZero(x, x);
  }

  /** On complete tables a packet is never stuck except across an uninhabited subtree. */
  lemma StuckMeansUninhabited(net: Net, rt: Tables, x: Vid, d: Vid)
    requires net.Valid() && x in net.sw && Delta(x, d) > HOST_BITS && CompleteAt(net, rt, x, Delta(x, d))
    ensures Forward(net, rt, x, d).Stuck? ==> !net.Inhabited(x, Delta(x, d))
    ensures Forward(net, rt, x, d).To? && !net.Beside(x, SwitchVid(d)) ==>
              net.NextHop(x, Delta(x, d), Forward(net, rt, x, d).next)
  {
    var r := DefaultAt(rt, x, Delta(x, d));
    if r.Via? {
      NextHopNear(net, x, Delta(x, d), r.nexthop);
      if (x, r.nexthop) in net.links {
        assert net.Beside(x, r.nexthop);
      }
    }
  }

  /** Re-aiming a stuck packet inside a complete subtree. */
  lemma FlipInside(net: Net, o: Vid, k: nat, x: Vid, d: Vid)
    requires net.Valid() && Inside(net, o, k, Pos(x, d)) && Delta(x, d) < k
    requires Delta(x, d) > HOST_BITS && !net.Inhabited(x, Delta(x, d))
    ensures var f: Vid := FlipBit(d, Delta(x, d));
            && Inside(net, o, k, Pos(x, f))
            && Potential(net, Pos(x, f)) < Potential(net, Pos(x, d))
            && forall v :: Nearest(net, v, d) <==> Nearest(net, v, f)
  {
    var f: Vid := FlipBit(d, Delta(x, d));
    FlipDelta(x, d);
    MeasureLower(net, x, Delta(x, f), x, Delta(x, d));
    DeltaUltra(o, d, f);
    forall v: Vid
      ensures Nearest(net, v, d) <==> Nearest(net, v, f)
    {
      FlipKeepsNearest(net, x, d, v);
    }
  }

  /** Passing it on to a next hop or to a neighbor. */
  lemma HopInside(net: Net, o: Vid, k: nat, x: Vid, d: Vid, y: Vid)
    requires net.Valid() && Inside(net, o, k, Pos(x, d)) && HOST_BITS < Delta(x, d) < k
    requires if net.Beside(x, SwitchVid(d)) then y == SwitchVid(d) else net.NextHop(x, Delta(x, d), y)
    ensures Inside(net, o, k, Pos(y, d)) && Potential(net, Pos(y, d)) < Potential(net, Pos(x, d))
  {
    if net.Beside(x, SwitchVid(d)) {
      SwitchVidDelta(o, d);
      DeltaSym(d, y);
      DeltaUltra(o, d, y);
      MeasureLower(net, y, Delta(y, d), x, Delta(x, d));
    } else {
      NextHopNear(net, x, Delta(x, d), y);
      NextHopDescends(net, x, Delta(x, d), y, d);
      DeltaUltra(o, x, y);
    }
  }

  /** One step inside a complete subtree stays inside it, strictly lowers the potential,
      and leaves the nearest interface unchanged. */
  lemma AdvanceInside(net: Net, rt: Tables, o: Vid, k: nat, p: Pos)
    requires net.Valid() && CompleteBelow(net, rt, o, k) && Inside(net, o, k, p)
    requires Delta(p.at, p.dest) > HOST_BITS
    ensures Delta(p.at, p.dest) < k
    ensures var q := Advance(net, rt, p);
            && Inside(net, o, k, q)
            && Potential(net, q) < Potential(net, p)
            && forall v :: Nearest(net, v, p.dest) <==> Nearest(net, v, q.dest)
  {
    var x, d := p.at, p.dest;
    DeltaSym(o, x);
    DeltaUltra(x, o, d);
    assert CompleteAt(net, rt, x, Delta(x, d));
    StuckMeansUninhabited(net, rt, x, d);
    match Forward(net, rt, x, d)
    case Stuck => FlipInside(net, o, k, x, d);
    case To(y) => HopInside(net, o, k, x, d, y);
  }

  /** The end of a packet's journey, its t-th step taken on the tables rts(t). */
  ghost function Journey(net: Net, rts: nat -> Tables, o: Vid, k: nat, t: nat, p: Pos): (q: Pos)
    requires net.Valid() && Inside(net, o, k, p)
    requires forall i :: CompleteBelow(net, rts(i), o, k)
    ensures Inside(net, o, k, q) && Delta(q.at, q.dest) <= HOST_BITS
    ensures Nearest(net, q.at, p.dest)
    decreases Potential(net, p)
  {
    if Delta(p.at, p.dest) <= HOST_BITS then
      ArrivedIsNearest(net, p.at, p.dest);
      p
    else
      AdvanceInside(net, rts(t), o, k, p);
      Journey(net, rts, o, k, t + 1, Advance(net, rts(t), p))
  }

  /** Rendezvous agreement: packets first aimed at one id inside a complete subtree end at
      one and the same interface of it, whatever their starting points, whatever the tables
      of each moment, and however those tables break gateway ties. */
  lemma RendezvousAgreement(net: Net, rts: nat -> Tables, rts': nat -> Tables, o: Vid, k: nat, a: Vid, b: Vid, d: Vid)
    requires net.Valid() && Inside(net, o, k, Pos(a, d)) && Inside(net, o, k, Pos(b, d))
    requires forall i :: CompleteBelow(net, rts(i), o, k) && CompleteBelow(net, rts'(i), o, k)
    ensures Journey(net, rts, o, k, 0, Pos(a, d)).at == Journey(net, rts', o, k, 0, Pos(b, d)).at
    ensures Nearest(net, Journey(net, rts, o, k, 0, Pos(a, d)).at, d)
    ensures Delta(o, Journey(net, rts, o, k, 0, Pos(a, d)).at) < k
  {
    NearestUnique(net, Journey(net, rts, o, k, 0, Pos(a, d)).at, Journey(net, rts', o, k, 0, Pos(b, d)).at, d);
  }

  /** Publishers and queriers of one level meet exactly within one subtree: nodes nearer
      than k aim at one point, and it lies in their subtree. */
  lemma SameLevelMeets(net: Net, rts: nat -> Tables, rts': nat -> Tables, a: Vid, b: Vid, k: nat)
    requires net.Valid() && a in net.sw && b in net.sw && 1 <= k <= VID_BITS && Delta(a, b) < k
    requires forall i :: CompleteBelow(net, rts(i), a, k) && CompleteBelow(net, rts'(i), a, k)
    ensures Inside(net, a, k, Pos(a, RdvPoint(a, k))) && Inside(net, a, k, Pos(b, RdvPoint(b, k)))
    ensures Journey(net, rts, a, k, 0, Pos(a, RdvPoint(a, k))).at ==
            Journey(net, rts', a, k, 0, Pos(b, RdvPoint(b, k))).at
  {
    RdvPointNear(a, k);
    RdvPointShared(a, b, k);
    DeltaZero(a, a);
    RendezvousAgreement(net, rts, rts', a, k, a, b, RdvPoint(a, k));
  }

  // ----- delivery to existing switches, without re-aiming

  /** A path each of whose hops is made by default forwarding on the tables of its time. */
  ghost predicate ForwardingPath(net: Net, rts: nat -> Tables, d: Vid, path: seq<Vid>) {
    forall i :: 0 <= i < |path| - 1 ==> Forward(net, rts(i), path[i], d) == To(path[i + 1])
  }

  lemma HopTowardsSwitch(net: Net, rt: Tables, x: Vid, d: Vid, v: Vid)
    requires net.Valid() && CompleteBelow(net, rt, x, VID_BITS + 1)
    requires x in net.sw && v in net.sw && Delta(v, d) <= HOST_BITS
    ensures var f := Forward(net, rt, x, d);
            && !f.Stuck?
            && (f.Here? <==> x == v)
            && (f.To? ==> f.next in net.sw && net.Measure(f.next, Delta(f.next, d)) < net.Measure(x, Delta(x, d)))
  {
    DeltaUltra(x, v, d);
    SwitchDeltaZero(x, v);
    DeltaSym(x, v);
    DeltaUltra(v, x, d);
    if Delta(x, d) > HOST_BITS {
      assert Delta(x, v) == Delta(x, d);
      assert net.Inhabited(x, Delta(x, d));
      DeltaZero(x, x);
      assert CompleteAt(net, rt, x, Delta(x, d));
      StuckMeansUninhabited(net, rt, x, d);
      AdvanceInside(net, rt, x, VID_BITS + 1, Pos(x, d));
    }
  }

  ghost predicate AllComplete(net: Net, rts: nat -> Tables) {
    forall i: nat, x: Vid :: x in net.sw ==> CompleteBelow(net, rts(i), x, VID_BITS + 1)
  }

  lemma OneHop(net: Net, rts: nat -> Tables, path: seq<Vid>, d: Vid, v: Vid, i: nat)
    requires net.Valid() && AllComplete(net, rts) && v in net.sw && Delta(v, d) <= HOST_BITS
    requires ForwardingPath(net, rts, d, path) && i + 1 < |path| && path[i] in net.sw
    ensures Falls(net, path, d, i)
  {
    assert Forward(net, rts(i), path[i], d) == To(path[i + 1]);
    HopTowardsSwitch(net, rts(i), path[i], d, v);
  }

  ghost predicate Falls(net: Net, path: seq<Vid>, d: Vid, i: nat)
    requires net.Valid() && i + 1 < |path|
  {
    && path[i] in net.sw && path[i + 1] in net.sw
    && Potential(net, Pos(path[i + 1], d)) < Potential(net, Pos(path[i], d))
  }

  ghost predicate Descending(net: Net, path: seq<Vid>, d: Vid)
    requires net.Valid()
  {
    forall i: nat :: i + 1 < |path| ==> Falls(net, path, d, i)
  }

  lemma {:induction false} PathInside(net: Net, rts: nat -> Tables, path: seq<Vid>, d: Vid, v: Vid, i: nat)
    requires net.Valid() && AllComplete(net, rts) && v in net.sw && Delta(v, d) <= HOST_BITS
    requires ForwardingPath(net, rts, d, path) && i < |path| && path[0] in net.sw
    ensures path[i] in net.sw
  {
    if i > 0 {
      PathInside(net, rts, path, d, v, i - 1);
      OneHop(net, rts, path, d, v, i - 1);
    }
  }

  /** Every hop of a path strictly lowers the measure. */
  lemma PathDescends(net: Net, rts: nat -> Tables, path: seq<Vid>, d: Vid, v: Vid)
    requires net.Valid() && AllComplete(net, rts) && v in net.sw && Delta(v, d) <= HOST_BITS
    requires ForwardingPath(net, rts, d, path) && |path| > 0 && path[0] in net.sw
    ensures Descending(net, path, d)
    ensures forall i :: 0 <= i < |path| ==> path[i] in net.sw
  {
    forall i | 0 <= i < |path|
      ensures path[i] in net.sw
    {
      PathInside(net, rts, path, d, v, i);
    }
    forall i: nat | i + 1 < |path|
      ensures Falls(net, path, d, i)
    {
      OneHop(net, rts, path, d, v, i);
    }
  }

  ghost function Potentials(net: Net, path: seq<Vid>, d: Vid): (ms: seq<nat>)
    ensures |ms| == |path|
  {
    seq(|path|, i requires 0 <= i < |path| => Potential(net, Pos(path[i], d)))
  }

  lemma {:induction false} NumbersFall(ms: seq<nat>, i: nat, j: nat)
    requires i < j < |ms| && forall h: nat :: h + 1 < |ms| ==> ms[h + 1] < ms[h]
    ensures ms[j] < ms[i]
  {
    if i < j - 1 {
      NumbersFall(ms, i, j - 1);
    }
    assert ms[(j - 1) + 1] < ms[j - 1];
  }

  lemma PotentialsFall(net: Net, path: seq<Vid>, d: Vid)
    requires net.Valid() && Descending(net, path, d)
    ensures forall h: nat :: h + 1 < |path| ==> Potentials(net, path, d)[h + 1] < Potentials(net, path, d)[h]
  {
    forall h: nat | h + 1 < |path|
      ensures Potentials(net, path, d)[h + 1] < Potentials(net, path, d)[h]
    {
      PotentialFalls(net, path, d, h);
    }
  }

  lemma PotentialFalls(net: Net, path: seq<Vid>, d: Vid, h: nat)
    requires net.Valid() && Descending(net, path, d) && h + 1 < |path|
    ensures Potentials(net, path, d)[h + 1] < Potentials(net, path, d)[h]
  {
    assert Falls(net, path, d, h);
    PotentialAt(net, path, d, h);
    PotentialAt(net, path, d, h + 1);
  }

  lemma PotentialAt(net: Net, path: seq<Vid>, d: Vid, h: nat)
    requires h < |path|
    ensures Potentials(net, path, d)[h] == Potential(net, Pos(path[h], d))
  {
  }

  /** Loop freedom: no interface occurs twice on a packet's path. */
  lemma NoRevisit(net: Net, rts: nat -> Tables, path: seq<Vid>, d: Vid, v: Vid)
    requires net.Valid() && AllComplete(net, rts) && v in net.sw && Delta(v, d) <= HOST_BITS
    requires ForwardingPath(net, rts, d, path) && |path| > 0 && path[0] in net.sw
    ensures forall i, j :: 0 <= i < j < |path| ==> path[i] != path[j]
    ensures |path| <= |net.sw|
  {
    PathDescends(net, rts, path, d, v);
    PotentialsFall(net, path, d);
    forall i, j | 0 <= i < j < |path|
      ensures path[i] != path[j]
    {
      NumbersFall(Potentials(net, path, d), i, j);
    }
    assert forall i :: 0 <= i < |path| ==> path[i] in net.sw.Keys;
    DistinctFits(path, net.sw.Keys);
  }

  lemma {:induction false} DistinctFits<T>(s: seq<T>, all: set<T>)
    requires forall i, j :: 0 <= i < j < |s| ==> s[i] != s[j]
    requires forall i :: 0 <= i < |s| ==> s[i] in all
    ensures |s| <= |all|
  {
    if |s| > 0 {
      var n := |s| - 1;
      DistinctFits(s[..n], all - {s[n]});
    }
  }

  /** A path that has not arrived can be extended by one hop. */
  lemma PathExtends(net: Net, rts: nat -> Tables, path: seq<Vid>, d: Vid, v: Vid) returns (longer: seq<Vid>)
    requires net.Valid() && AllComplete(net, rts) && v in net.sw && Delta(v, d) <= HOST_BITS
    requires ForwardingPath(net, rts, d, path) && |path| > 0 && path[0] in net.sw && path[|path| - 1] != v
    ensures ForwardingPath(net, rts, d, longer) && path <= longer && |longer| == |path| + 1
  {
    var n := |path| - 1;
    PathInside(net, rts, path, d, v, n);
    HopTowardsSwitch(net, rts(n), path[n], d, v);
    longer := path + [Forward(net, rts(n), path[n], d).next];
    LongerPath(net, rts, d, path, longer[n + 1]);
  }

  lemma LongerPath(net: Net, rts: nat -> Tables, d: Vid, path: seq<Vid>, next: Vid)
    requires ForwardingPath(net, rts, d, path) && |path| > 0
    requires Forward(net, rts(|path| - 1), path[|path| - 1], d) == To(next)
    ensures ForwardingPath(net, rts, d, path + [next])
  {
    var longer := path + [next];
    forall i | 0 <= i < |longer| - 1
      ensures Forward(net, rts(i), longer[i], d) == To(longer[i + 1])
    {
      if i < |path| - 1 {
        assert Forward(net, rts(i), path[i], d) == To(path[i + 1]);
      }
    }
  }

  /** Delivery: from any interface, default forwarding on complete tables reaches the
      switch that owns the destination, in fewer hops than there are interfaces. */
  lemma {:induction false} Delivery(net: Net, rts: nat -> Tables, path: seq<Vid>, d: Vid, v: Vid)
    returns (full: seq<Vid>)
    requires net.Valid() && AllComplete(net, rts) && v in net.sw && Delta(v, d) <= HOST_BITS
    requires ForwardingPath(net, rts, d, path) && |path| > 0 && path[0] in net.sw
    ensures ForwardingPath(net, rts, d, full) && path <= full && full[|full| - 1] == v
    ensures |full| <= |net.sw|
    decreases |net.sw| - |path|
  {
    NoRevisit(net, rts, path, d, v);
    if path[|path| - 1] == v {
      full := path;
    } else {
      var longer := PathExtends(net, rts, path, d, v);
      NoRevisit(net, rts, longer, d, v);
      full := Delivery(net, rts, longer, d, v);
    }
  }
}
