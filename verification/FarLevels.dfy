/** The levels that are never queried. Their buckets are filled by own edges only, so they become
    complete exactly where everybody with somebody at such a distance has an edge there. */
module FarLevels {
  import opened VidBits
  import opened Network
  import opened RouteTable
  import opened Forwarding
  import opened Protocol
  import opened Construction
  import opened Levels
  import opened Exchange

  predicate IsQueried(k: nat) {
    FIRST_QUERIED <= k <= LAST_QUERIED
  }

  /** Queries and answers in flight are of queried levels. */
  ghost predicate InBuckets(s: State) {
    forall p :: p in s.flying ==> HasQueriedLevel(p)
  }

  predicate HasQueriedLevel(p: Packet) {
    match p.body
    case Publish(_) => true
    case Query(k) => IsQueried(k)
    case Reply(k, _) => IsQueried(k)
  }

  lemma StepKeepsBuckets(net: Net, s: State, e: Event, s': State)
    requires Step(net, s, e, s') && InBuckets(s)
    ensures InBuckets(s')
  {
    match e
    case Hop(p) =>
      assert HasQueriedLevel(Moved(net, p, Forward(net, s.rt, p.at, p.dvid).next));
    case Reaim(p) =>
      assert HasQueriedLevel(p.(dvid := FlipBit(p.dvid, Delta(p.at, p.dvid))));
    case HandleQuery(p, gws, reply) =>
      assert HasQueriedLevel(p);
    case _ =>
  }

  /** A step leaves a default route as it was, drops it, or sets it by an own edge, unless the
      level is one that is queried. */
  lemma FarStep(net: Net, s: State, e: Event, s': State, x: Vid, k: nat)
    requires net.Valid() && Safe(net, s) && InBuckets(s) && Step(net, s, e, s') && !IsQueried(k)
    ensures || DefaultAt(s'.rt, x, k) == DefaultAt(s.rt, x, k)
            || SetByTick(e, s', x, k)
            || (e.ExpireBucket? && DefaultAt(s'.rt, x, k).NoRoute?)
  {
    if e.ExpireBucket? {
      if e.x == x {
        ExpiryDefaults(TableOf(s, x), e.k, k);
      }
    } else if !e.ExpireEdge? {
      StepDefaults(net, s, e, s', x, k);
      if e.HandleReply? {
        assert HasQueriedLevel(e.p);
      }
    }
  }

  lemma ExpiryDefaults(t: Inner, j: nat, k: nat)
    requires DisciplinedAll(t)
    ensures Default(Expire(t, j), k) == Default(t, k) || Default(Expire(t, j), k).NoRoute?
  {
    if j in t {
      DefaultAfterUpdate(t[j], Zeros(VID_BITS), Zeros(VID_BITS));
    }
  }

  /** In every run from empty tables, lossy and expiring ones included, a default route of a level
      that is not queried means an edge of that level. */
  lemma {:induction false} FarDefaults(net: Net, states: seq<State>, events: seq<Event>, i: nat, x: Vid, k: nat)
    requires net.Valid() && Run(net, states, events) && states[0] == State(map[], map[], {}) && i < |states|
    requires !IsQueried(k)
    ensures InBuckets(states[i]) && (DefaultAt(states[i].rt, x, k).Via? ==> OwnEdge(net, x, k))
  {
    if i > 0 {
      FarDefaults(net, states, events, i - 1, x, k);
      StaysSafe(net, states, events, i - 1);
      StepKeepsBuckets(net, states[i - 1], events[i - 1], states[i]);
      FarStep(net, states[i - 1], events[i - 1], states[i], x, k);
      if SetByTick(events[i - 1], states[i], x, k) {
        TickIsOwn(net, states[i - 1], events[i - 1], states[i], x, k);
      }
    }
  }

  lemma TickIsOwn(net: Net, s: State, e: Event, s': State, x: Vid, k: nat)
    requires Step(net, s, e, s') && SetByTick(e, s', x, k)
    ensures OwnEdge(net, x, k)
  {
    DeltaZero(x, x);
    assert net.GatewayVia(x, k, x, e.y);
  }

  lemma FarStaysComplete(net: Net, states: seq<State>, events: seq<Event>, i: nat, j: nat, x: Vid, k: nat)
    requires net.Valid() && LastingRun(net, states, events) && states[0] == State(map[], map[], {})
    requires i <= j < |states| && !IsQueried(k) && CompleteAt(net, states[i].rt, x, k)
    ensures CompleteAt(net, states[j].rt, x, k)
  {
    FarPasses(net, states, events, x, k);
    PassesOn(CompleteIn(net, states, x, k), i, j);
  }

  lemma FarPasses(net: Net, states: seq<State>, events: seq<Event>, x: Vid, k: nat)
    requires net.Valid() && LastingRun(net, states, events) && states[0] == State(map[], map[], {}) && !IsQueried(k)
    ensures forall h: nat {:trigger Passes(CompleteIn(net, states, x, k), h)} ::
              h + 1 < |states| ==> Passes(CompleteIn(net, states, x, k), h)
  {
    forall h: nat | h + 1 < |states|
      ensures Passes(CompleteIn(net, states, x, k), h)
    {
      if CompleteAt(net, states[h].rt, x, k) {
        FarAfter(net, states, events, h, x, k);
      }
    }
  }

  lemma FarAfter(net: Net, states: seq<State>, events: seq<Event>, i: nat, x: Vid, k: nat)
    requires net.Valid() && LastingRun(net, states, events) && states[0] == State(map[], map[], {})
    requires i < |events| && !IsQueried(k) && CompleteAt(net, states[i].rt, x, k)
    ensures CompleteAt(net, states[i + 1].rt, x, k)
  {
    FarDefaults(net, states, events, i, x, k);
    StaysSafe(net, states, events, i);
    assert Step(net, states[i], events[i], states[i + 1]) && Lasting(events[i]);
    FarNext(net, states[i], events[i], states[i + 1], x, k);
  }

  lemma FarNext(net: Net, s: State, e: Event, s': State, x: Vid, k: nat)
    requires net.Valid() && Safe(net, s) && InBuckets(s) && Step(net, s, e, s') && Lasting(e) && !IsQueried(k)
    requires CompleteAt(net, s.rt, x, k)
    ensures CompleteAt(net, s'.rt, x, k)
  {
    FarStep(net, s, e, s', x, k);
    if SetByTick(e, s', x, k) {
      TickCompletes(net, s, x, e.y, e.p, s');
    }
  }

  /** Exactly where such a bucket becomes complete, once the own edges have been published. */
  lemma FarExactly(net: Net, states: seq<State>, events: seq<Event>, x: Vid, k: nat)
    requires net.Valid() && LastingRun(net, states, events) && states[0] == State(map[], map[], {})
    requires !IsQueried(k) && forall w: Vid {:trigger Ticked(events, x, w)} :: net.GatewayVia(x, k, x, w) ==>
               Ticked(events, x, w)
    ensures CompleteAt(net, states[|events|].rt, x, k) <==> (net.Inhabited(x, k) ==> OwnEdge(net, x, k))
  {
    var n := |events|;
    FarDefaults(net, states, events, n, x, k);
    StaysSafe(net, states, events, n);
    if DefaultAt(states[n].rt, x, k).Via? {
      PresentMeansInhabited(net, states[n], x, k);
    }
    if OwnEdge(net, x, k) {
      var w: Vid :| net.GatewayVia(x, k, x, w);
      assert Ticked(events, x, w);
      var i :| 0 <= i < n && events[i].PublishTick? && events[i].x == x && events[i].y == w;
      StaysSafe(net, states, events, i);
      assert Step(net, states[i], events[i], states[i + 1]);
      TickCompletes(net, states[i], x, w, events[i].p, states[i + 1]);
      FarStaysComplete(net, states, events, i + 1, n, x, k);
    }
  }

  /** Whoever has somebody at a distance above the queried levels has an edge there. */
  ghost predicate FarEdges(net: Net) {
    forall x: Vid, k: nat {:trigger OwnEdge(net, x, k)} ::
      x in net.sw && k > LAST_QUERIED && net.Inhabited(x, k) ==> OwnEdge(net, x, k)
  }

  ghost predicate FarTicked(net: Net, events: seq<Event>) {
    forall x: Vid, w: Vid {:trigger Ticked(events, x, w)} ::
      x in net.sw && w in net.sw && net.Edge(x, w) && Delta(x, w) > LAST_QUERIED ==> Ticked(events, x, w)
  }

  /** All buckets above the queried levels are complete, in a run that has published the edges of
      those levels, if and only if everybody has the edges needed. */
  lemma FarCompleteExactly(net: Net, states: seq<State>, events: seq<Event>)
    requires net.Valid() && LastingRun(net, states, events) && states[0] == State(map[], map[], {})
    requires FarTicked(net, events)
    ensures FarComplete(net, states[|events|].rt) <==> FarEdges(net)
  {
    forall x: Vid, k: nat | x in net.sw && k > LAST_QUERIED
      ensures CompleteAt(net, states[|events|].rt, x, k) <==> (net.Inhabited(x, k) ==> OwnEdge(net, x, k))
    {
      FarExactly(net, states, events, x, k);
    }
  }
}
