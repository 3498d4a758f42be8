/** From sending to service. When the network loses no level-k packet of a subtree, and none is
    left in flight, every publish that was sent has been handled, and a member that queried has
    been served exactly if the edges out of the subtree are not a multiple of 256. */
module Exchange {
  import opened VidBits
  import opened Network
  import opened RendezvousTable
  import opened Forwarding
  import opened Protocol
  import opened Construction
  import opened Levels

  /** The level-k control packets of o's subtree. */
  predicate Control(net: Net, o: Vid, k: nat, p: Packet) {
    Request(net, o, k, p) || Answer(net, o, k, p)
  }

  ghost predicate CalmIn(net: Net, o: Vid, k: nat, s: State) {
    forall p :: p in s.flying ==> !Control(net, o, k, p)
  }

  /** No level-k control packet of the subtree is lost. */
  ghost predicate Spared(net: Net, o: Vid, k: nat, events: seq<Event>) {
    forall i :: 0 <= i < |events| && events[i].Lose? ==> !Control(net, o, k, events[i].p)
  }

  /** The edge (g, w) is published. */
  ghost predicate Ticked(events: seq<Event>, g: Vid, w: Vid) {
    exists i :: 0 <= i < |events| && events[i].PublishTick? && events[i].x == g && events[i].y == w
  }

  ghost predicate Queried(events: seq<Event>, k: nat, x: Vid) {
    exists i :: 0 <= i < |events| && events[i].QueryTick? && events[i].x == x && events[i].k == k
  }

  // ----- publishes

  ghost predicate PublishFlies(s: State, g: Vid, w: Vid) {
    exists p :: p in s.flying && p.svid == g && p.body == Publish(w)
  }

  predicate HandlesPublish(e: Event, g: Vid, w: Vid) {
    e.HandlePublish? && e.p.svid == g && e.p.body == Publish(w)
  }

  lemma PublishStep(net: Net, o: Vid, k: nat, s: State, e: Event, s': State, g: Vid, w: Vid)
    requires Step(net, s, e, s') && (e.Lose? ==> !Control(net, o, k, e.p))
    requires Member(net, o, k, g) && Delta(g, w) == k && PublishFlies(s, g, w)
    ensures PublishFlies(s', g, w) || HandlesPublish(e, g, w)
  {
    var p :| p in s.flying && p.svid == g && p.body == Publish(w);
    assert Control(net, o, k, p);
    if e == Hop(p) {
      assert Moved(net, p, Forward(net, s.rt, p.at, p.dvid).next) in s'.flying;
    } else if e == Reaim(p) {
      assert p.(dvid := FlipBit(p.dvid, Delta(p.at, p.dvid))) in s'.flying;
    } else if !HandlesPublish(e, g, w) {
      assert p in s'.flying;
    }
  }

  lemma {:induction false} PublishFollowed(net: Net, o: Vid, k: nat, states: seq<State>, events: seq<Event>,
                                           g: Vid, w: Vid, i: nat, j: nat)
    requires Run(net, states, events) && Spared(net, o, k, events) && Member(net, o, k, g) && Delta(g, w) == k
    requires i < j <= |events| && events[i].PublishTick? && events[i].x == g && events[i].y == w
    ensures PublishFlies(states[j], g, w) || PublishHandled(events, g, w)
  {
    assert Step(net, states[j - 1], events[j - 1], states[j]);
    if j - 1 == i {
      assert events[i].p in states[j].flying;
    } else {
      PublishFollowed(net, o, k, states, events, g, w, i, j - 1);
      if PublishFlies(states[j - 1], g, w) {
        PublishStep(net, o, k, states[j - 1], events[j - 1], states[j], g, w);
      }
    }
  }

  /** A publish that was sent, not lost and is no longer in flight has been handled. */
  lemma TickedMeansHandled(net: Net, o: Vid, k: nat, states: seq<State>, events: seq<Event>, g: Vid, w: Vid)
    requires Run(net, states, events) && Spared(net, o, k, events) && CalmIn(net, o, k, states[|events|])
    requires Member(net, o, k, g) && Delta(g, w) == k && Ticked(events, g, w)
    ensures PublishHandled(events, g, w)
  {
    var i :| 0 <= i < |events| && events[i].PublishTick? && events[i].x == g && events[i].y == w;
    PublishFollowed(net, o, k, states, events, g, w, i, |events|);
    CalmHasNoPublish(net, o, k, states[|events|], g, w);
  }

  lemma CalmHasNoPublish(net: Net, o: Vid, k: nat, s: State, g: Vid, w: Vid)
    requires CalmIn(net, o, k, s) && Member(net, o, k, g) && Delta(g, w) == k
    ensures !PublishFlies(s, g, w)
  {
    forall p | p in s.flying
      ensures p.svid != g || p.body != Publish(w)
    {
      assert !Control(net, o, k, p);
    }
  }

  // ----- the edges that lead out of a subtree

  /** The edges from o's subtree of height k-1 to its sibling subtree. */
  ghost function CrossingEdges(net: Net, o: Vid, k: nat): set<Edge> {
    set g: Vid, w: Vid | g in net.sw && w in net.sw && net.GatewayVia(o, k, g, w) :: Edge(g, w)
  }

  ghost predicate OwnEdge(net: Net, x: Vid, k: nat) {
    exists w: Vid :: net.GatewayVia(x, k, x, w)
  }

  lemma CrossingShared(net: Net, o: Vid, k: nat, x: Vid)
    requires Member(net, o, k, x)
    ensures CrossingEdges(net, x, k) == CrossingEdges(net, o, k)
  {
    forall g: Vid, w: Vid
      ensures net.GatewayVia(o, k, g, w) <==> net.GatewayVia(x, k, g, w)
    {
      GatewayForMember(net, o, k, x, g, w);
    }
  }

  /** What a full rendezvous node counts for a member is the number of those edges. */
  lemma CrossingCounted(net: Net, o: Vid, k: nat, r: Vid, s: State, x: Vid)
    requires net.Valid() && Safe(net, s) && Full(net, o, k, r, s) && Member(net, o, k, x)
    ensures Qualifying(EdgesAt(s, net.sw[r]), k, x) == CrossingEdges(net, o, k)
  {
    CrossingShared(net, o, k, x);
    var edges := EdgesAt(s, net.sw[r]);
    forall e: Edge
      ensures e in Qualifying(edges, k, x) <==> e in CrossingEdges(net, x, k)
    {
      GatewayForMember(net, o, k, x, e.src, e.dest);
      if e in Qualifying(edges, k, x) {
        assert net.GatewayVia(x, k, e.src, e.dest);
      }
    }
  }

  // ----- queries

  ghost predicate QueryFlies(s: State, k: nat, x: Vid) {
    exists p :: p in s.flying && p.svid == x && p.body == Query(k)
  }

  /** An answer that x can use is on its way. */
  ghost predicate AnswerFlies(s: State, k: nat, x: Vid) {
    exists p :: p in s.flying && Usable(p, k, x)
  }

  predicate Usable(p: Packet, k: nat, x: Vid) {
    p.dvid == x && p.body.Reply? && p.body.bucket == k && p.body.gws != [] && p.body.gws[0] != x
  }

  lemma AnswerStep(net: Net, o: Vid, k: nat, s: State, e: Event, s': State, x: Vid)
    requires Step(net, s, e, s') && (e.Lose? ==> !Control(net, o, k, e.p)) && Member(net, o, k, x)
    requires AnswerFlies(s, k, x)
    ensures AnswerFlies(s', k, x) || Serves(e, k, x)
  {
    var p :| p in s.flying && Usable(p, k, x);
    assert Control(net, o, k, p);
    if e == Hop(p) {
      var q := Moved(net, p, Forward(net, s.rt, p.at, p.dvid).next);
      assert q in s'.flying && Usable(q, k, x);
    } else if e != HandleReply(p) {
      assert p in s'.flying;
    }
  }

  lemma QueryStep(net: Net, o: Vid, k: nat, r: Vid, s: State, e: Event, s': State, x: Vid)
    requires net.Valid() && Safe(net, s) && Ready(net, o, k, r, s)
    requires Step(net, s, e, s') && (e.Lose? ==> !Control(net, o, k, e.p))
    requires Member(net, o, k, x) && !OwnEdge(net, x, k) && |CrossingEdges(net, o, k)| % 256 != 0
    requires QueryFlies(s, k, x)
    ensures QueryFlies(s', k, x) || AnswerFlies(s', k, x)
  {
    var p :| p in s.flying && p.svid == x && p.body == Query(k);
    assert Request(net, o, k, p);
    if e.HandleQuery? && e.p == p {
      QueryAnswered(net, o, k, r, s, p, e.gws, e.reply, s');
      CrossingCounted(net, o, k, r, s, x);
      GoodIsUsable(net, k, e.reply);
    } else {
      QueryFliesOn(net, o, k, s, e, s', p);
    }
  }

  lemma QueryFliesOn(net: Net, o: Vid, k: nat, s: State, e: Event, s': State, p: Packet)
    requires Step(net, s, e, s') && (e.Lose? ==> !Control(net, o, k, e.p)) && !(e.HandleQuery? && e.p == p)
    requires p in s.flying && p.body == Query(k) && Request(net, o, k, p)
    ensures QueryFlies(s', k, p.svid)
  {
    if e == Hop(p) {
      assert Moved(net, p, Forward(net, s.rt, p.at, p.dvid).next) in s'.flying;
    } else if e == Reaim(p) {
      assert p.(dvid := FlipBit(p.dvid, Delta(p.at, p.dvid))) in s'.flying;
    } else {
      assert p in s'.flying;
    }
  }

  /** A good answer names another interface, unless the asker has an edge of its own. */
  lemma GoodIsUsable(net: Net, k: nat, p: Packet)
    requires GoodAnswer(net, k, p) && p.body.bucket == k && !OwnEdge(net, p.dvid, k)
    ensures Usable(p, k, p.dvid)
  {
    var w: Vid :| net.GatewayVia(p.dvid, k, p.body.gws[0], w);
  }

  /** The query of x, or its answer, is on its way. */
  ghost predicate Pending(s: State, k: nat, x: Vid) {
    QueryFlies(s, k, x) || AnswerFlies(s, k, x)
  }

  lemma PendingStep(net: Net, o: Vid, k: nat, r: Vid, s: State, e: Event, s': State, x: Vid)
    requires net.Valid() && Safe(net, s) && Ready(net, o, k, r, s)
    requires Step(net, s, e, s') && (e.Lose? ==> !Control(net, o, k, e.p))
    requires Member(net, o, k, x) && !OwnEdge(net, x, k) && |CrossingEdges(net, o, k)| % 256 != 0
    requires Pending(s, k, x)
    ensures Pending(s', k, x) || Serves(e, k, x)
  {
    if QueryFlies(s, k, x) {
      QueryStep(net, o, k, r, s, e, s', x);
    } else {
      AnswerStep(net, o, k, s, e, s', x);
    }
  }

  lemma QueryIsPending(net: Net, states: seq<State>, events: seq<Event>, k: nat, x: Vid, i: nat)
    requires Run(net, states, events) && i < |events|
    requires events[i].QueryTick? && events[i].x == x && events[i].k == k
    ensures Pending(states[i + 1], k, x)
  {
    assert Step(net, states[i], events[i], states[i + 1]);
    assert events[i].p in states[i + 1].flying;
  }

  lemma NextPending(net: Net, o: Vid, k: nat, r: Vid, states: seq<State>, events: seq<Event>, x: Vid, j: nat)
    requires net.Valid() && LastingRun(net, states, events) && Spared(net, o, k, events) && j < |events|
    requires Safe(net, states[0]) && StableIn(net, o, k, states[0]) && Ready(net, o, k, r, states[0])
    requires Member(net, o, k, x) && !OwnEdge(net, x, k) && |CrossingEdges(net, o, k)| % 256 != 0
    requires Pending(states[j], k, x)
    ensures Pending(states[j + 1], k, x) || Served(events, k, x)
  {
    RunFacts(net, o, k, r, states, events, j);
    assert Step(net, states[j], events[j], states[j + 1]);
    PendingStep(net, o, k, r, states[j], events[j], states[j + 1], x);
  }

  lemma QueryFollowed(net: Net, o: Vid, k: nat, r: Vid, states: seq<State>, events: seq<Event>, x: Vid, i: nat)
    requires net.Valid() && LastingRun(net, states, events) && Spared(net, o, k, events)
    requires Safe(net, states[0]) && StableIn(net, o, k, states[0]) && Ready(net, o, k, r, states[0])
    requires Member(net, o, k, x) && !OwnEdge(net, x, k) && |CrossingEdges(net, o, k)| % 256 != 0
    requires i < |events| && events[i].QueryTick? && events[i].x == x && events[i].k == k
    ensures Pending(states[|events|], k, x) || Served(events, k, x)
  {
    if !Served(events, k, x) {
      PendingPasses(net, o, k, r, states, events, x);
      QueryIsPending(net, states, events, k, x, i);
      PassesOn(AllPending(states, k, x), i + 1, |events|);
    }
  }

  /** At which states of a run the query or its answer is on its way. */
  ghost function AllPending(states: seq<State>, k: nat, x: Vid): (good: seq<bool>)
    ensures |good| == |states| && forall h :: 0 <= h < |good| ==> good[h] == Pending(states[h], k, x)
  {
    seq(|states|, h requires 0 <= h < |states| => Pending(states[h], k, x))
  }

  lemma PendingPasses(net: Net, o: Vid, k: nat, r: Vid, states: seq<State>, events: seq<Event>, x: Vid)
    requires net.Valid() && LastingRun(net, states, events) && Spared(net, o, k, events) && !Served(events, k, x)
    requires Safe(net, states[0]) && StableIn(net, o, k, states[0]) && Ready(net, o, k, r, states[0])
    requires Member(net, o, k, x) && !OwnEdge(net, x, k) && |CrossingEdges(net, o, k)| % 256 != 0
    ensures forall h: nat {:trigger Passes(AllPending(states, k, x), h)} ::
              h + 1 < |states| ==> Passes(AllPending(states, k, x), h)
  {
    forall h: nat | h + 1 < |states|
      ensures Passes(AllPending(states, k, x), h)
    {
      if Pending(states[h], k, x) {
        NextPending(net, o, k, r, states, events, x, h);
      }
    }
  }

  /** A member without an edge of its own that queries a settled level is served. */
  lemma QueriedMeansServed(net: Net, o: Vid, k: nat, r: Vid, states: seq<State>, events: seq<Event>, x: Vid)
    requires net.Valid() && LastingRun(net, states, events)
    requires Spared(net, o, k, events) && CalmIn(net, o, k, states[|events|])
    requires Safe(net, states[0]) && StableIn(net, o, k, states[0]) && Ready(net, o, k, r, states[0])
    requires Member(net, o, k, x) && !OwnEdge(net, x, k) && |CrossingEdges(net, o, k)| % 256 != 0
    requires Queried(events, k, x)
    ensures Served(events, k, x)
  {
    var i :| 0 <= i < |events| && events[i].QueryTick? && events[i].x == x && events[i].k == k;
    QueryFollowed(net, o, k, r, states, events, x, i);
    CalmHasNoQuery(net, o, k, states[|events|], x);
  }

  lemma CalmHasNoQuery(net: Net, o: Vid, k: nat, s: State, x: Vid)
    requires CalmIn(net, o, k, s) && Member(net, o, k, x)
    ensures !QueryFlies(s, k, x) && !AnswerFlies(s, k, x) && NoAnswer(s, k, x)
  {
    forall p | p in s.flying
      ensures p.svid != x || p.body != Query(k)
      ensures p.body.Reply? && p.body.bucket == k ==> p.dvid != x
    {
      assert !Control(net, o, k, p);
    }
  }

  // ----- and not otherwise

  /** No answer of level k is on its way to x. */
  ghost predicate NoAnswer(s: State, k: nat, x: Vid) {
    forall p :: p in s.flying && p.body.Reply? && p.body.bucket == k ==> p.dvid != x
  }

  lemma UnansweredStep(net: Net, o: Vid, k: nat, r: Vid, s: State, e: Event, s': State, x: Vid)
    requires net.Valid() && Safe(net, s) && Ready(net, o, k, r, s) && Step(net, s, e, s') && Lasting(e)
    requires Member(net, o, k, x) && !OwnEdge(net, x, k) && |CrossingEdges(net, o, k)| % 256 == 0
    requires NoAnswer(s, k, x)
    ensures NoAnswer(s', k, x)
  {
    if e.HandleQuery? && e.p.svid == x && e.p.body == Query(k) {
      assert Request(net, o, k, e.p);
      QueryAnswered(net, o, k, r, s, e.p, e.gws, e.reply, s');
      CrossingCounted(net, o, k, r, s, x);
    }
    if e.Hop? {
      var q := Moved(net, e.p, Forward(net, s.rt, e.p.at, e.p.dvid).next);
      assert q.body == e.p.body && q.dvid == e.p.dvid;
    }
  }

  lemma UnansweredKeeps(net: Net, s: State, e: Event, s': State, k: nat, x: Vid)
    requires net.Valid() && Safe(net, s) && Step(net, s, e, s') && Lasting(e) && k > 0
    requires !OwnEdge(net, x, k) && NoAnswer(s, k, x)
    ensures DefaultAt(s'.rt, x, k) == DefaultAt(s.rt, x, k)
  {
    StepDefaults(net, s, e, s', x, k);
    if e.PublishTick? && e.x == x && Delta(x, e.y) == k {
      DeltaZero(x, x);
      assert net.GatewayVia(x, k, x, e.y);
    }
  }

  lemma {:induction false} UnansweredRun(net: Net, o: Vid, k: nat, r: Vid, states: seq<State>, events: seq<Event>,
                                         x: Vid, j: nat)
    requires net.Valid() && LastingRun(net, states, events) && j < |states|
    requires Safe(net, states[0]) && StableIn(net, o, k, states[0]) && Ready(net, o, k, r, states[0])
    requires Member(net, o, k, x) && !OwnEdge(net, x, k) && |CrossingEdges(net, o, k)| % 256 == 0
    requires NoAnswer(states[0], k, x)
    ensures NoAnswer(states[j], k, x) && DefaultAt(states[j].rt, x, k) == DefaultAt(states[0].rt, x, k)
  {
    if j > 0 {
      UnansweredRun(net, o, k, r, states, events, x, j - 1);
      RunFacts(net, o, k, r, states, events, j - 1);
      assert Step(net, states[j - 1], events[j - 1], states[j]) && Lasting(events[j - 1]);
      UnansweredStep(net, o, k, r, states[j - 1], events[j - 1], states[j], x);
      UnansweredKeeps(net, states[j - 1], events[j - 1], states[j], k, x);
    }
  }

  /** Exactly when querying works: a member without an edge of its own and with an empty bucket,
      somebody at distance k, a settled level, a query, and no losses. Its bucket is filled if
      and only if the number of edges out of its subtree is not a multiple of 256. */
  lemma QueriedExactly(net: Net, o: Vid, k: nat, r: Vid, states: seq<State>, events: seq<Event>, x: Vid)
    requires net.Valid() && LastingRun(net, states, events)
    requires Spared(net, o, k, events) && CalmIn(net, o, k, states[0]) && CalmIn(net, o, k, states[|events|])
    requires Safe(net, states[0]) && StableIn(net, o, k, states[0]) && Ready(net, o, k, r, states[0])
    requires Member(net, o, k, x) && !OwnEdge(net, x, k) && net.Inhabited(x, k)
    requires Queried(events, k, x) && DefaultAt(states[0].rt, x, k).NoRoute?
    ensures CompleteAt(net, states[|events|].rt, x, k) <==> |CrossingEdges(net, o, k)| % 256 != 0
  {
    if |CrossingEdges(net, o, k)| % 256 != 0 {
      QueriedMeansServed(net, o, k, r, states, events, x);
      ServedMeansComplete(net, o, k, r, states, events, x);
    } else {
      CalmHasNoQuery(net, o, k, states[0], x);
      UnansweredRun(net, o, k, r, states, events, x, |events|);
    }
  }

  // ----- one level of one subtree, from sending to complete buckets

  /** x publishes an edge of its own at level k or, if it has none, queries. */
  ghost predicate Asked(net: Net, events: seq<Event>, k: nat, x: Vid) {
    if OwnEdge(net, x, k) then exists w: Vid :: Delta(x, w) == k && Ticked(events, x, w) else Queried(events, k, x)
  }

  /** Querying works for x at level k: nobody is there, or x has an edge of its own, or the
      eight-bit count of the edges is not zero. */
  ghost predicate Answerable(net: Net, x: Vid, k: nat) {
    net.Inhabited(x, k) && !OwnEdge(net, x, k) ==> |CrossingEdges(net, x, k)| % 256 != 0
  }

  lemma AskedMeansServed(net: Net, o: Vid, k: nat, r: Vid, states: seq<State>, events: seq<Event>, x: Vid)
    requires net.Valid() && LastingRun(net, states, events)
    requires Spared(net, o, k, events) && CalmIn(net, o, k, states[|events|])
    requires Safe(net, states[0]) && StableIn(net, o, k, states[0]) && Ready(net, o, k, r, states[0])
    requires Member(net, o, k, x) && Asked(net, events, k, x) && net.Inhabited(x, k) && Answerable(net, x, k)
    ensures Served(events, k, x)
  {
    if OwnEdge(net, x, k) {
      var w: Vid :| Delta(x, w) == k && Ticked(events, x, w);
      var i :| 0 <= i < |events| && events[i].PublishTick? && events[i].x == x && events[i].y == w;
      assert Serves(events[i], k, x);
    } else {
      CrossingShared(net, o, k, x);
      QueriedMeansServed(net, o, k, r, states, events, x);
    }
  }

  lemma CalmConfines(net: Net, o: Vid, k: nat, r: Vid, s: State)
    requires CalmIn(net, o, k, s)
    ensures AllConfined(net, o, k, r, s) && AllGood(net, o, k, s)
  {
    forall p | p in s.flying
      ensures !Request(net, o, k, p) && !Answer(net, o, k, p)
    {
      assert !Control(net, o, k, p);
    }
  }

  /** First half: a run that starts and ends calm in the subtree, loses none of its level-k
      packets, and publishes every edge out of it, settles level k there. */
  lemma TickedMeansSettled(net: Net, o: Vid, k: nat, states: seq<State>, events: seq<Event>)
    requires net.Valid() && LastingRun(net, states, events) && HOST_BITS < k <= VID_BITS && o in net.sw
    requires Safe(net, states[0]) && StableIn(net, o, k, states[0])
    requires Spared(net, o, k, events) && CalmIn(net, o, k, states[0]) && CalmIn(net, o, k, states[|events|])
    requires forall g: Vid, w: Vid {:trigger Ticked(events, g, w)} :: net.GatewayVia(o, k, g, w) ==>
               Ticked(events, g, w)
    ensures Settled(net, o, k, states[|events|])
  {
    var r := RendezvousExists(net, o, k);
    CalmConfines(net, o, k, r, states[0]);
    forall g: Vid, w: Vid | net.GatewayVia(o, k, g, w)
      ensures PublishHandled(events, g, w)
    {
      assert Ticked(events, g, w);
      DeltaSym(o, g);
      DeltaUltra(g, o, w);
      TickedMeansHandled(net, o, k, states, events, g, w);
    }
    PublishedMeansFull(net, o, k, r, states, events);
    CalmConfines(net, o, k, r, states[|events|]);
    assert Ready(net, o, k, r, states[|events|]);
  }

  /** Second half: if the level is settled and every member asks, every bucket k is complete. */
  lemma AskedMeansComplete(net: Net, o: Vid, k: nat, states: seq<State>, events: seq<Event>)
    requires net.Valid() && LastingRun(net, states, events) && HOST_BITS < k
    requires Safe(net, states[0]) && StableIn(net, o, k, states[0]) && Settled(net, o, k, states[0])
    requires Spared(net, o, k, events) && CalmIn(net, o, k, states[|events|])
    requires forall x: Vid {:trigger Asked(net, events, k, x)} ::
               Member(net, o, k, x) && net.Inhabited(x, k) ==> Asked(net, events, k, x) && Answerable(net, x, k)
    ensures forall x: Vid {:trigger StableAt(net, x, k, states[|events|])} ::
              Member(net, o, k, x) ==> StableAt(net, x, k, states[|events|])
  {
    var r: Vid :| Ready(net, o, k, r, states[0]);
    forall x: Vid | Member(net, o, k, x)
      ensures Served(events, k, x) || !net.Inhabited(x, k)
    {
      if net.Inhabited(x, k) {
        assert Asked(net, events, k, x);
        AskedMeansServed(net, o, k, r, states, events, x);
      }
    }
    LevelConstructed(net, o, k, states, events);
  }
}
