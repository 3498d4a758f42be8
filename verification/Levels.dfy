/** Runs without expiry: what is stable lasts, published levels fill their rendezvous nodes, and
    served members have correct buckets. */
module Levels {
  import opened VidBits
  import opened Network
  import opened RendezvousTable
  import opened Forwarding
  import opened Protocol
  import opened Construction

  ghost predicate LastingRun(net: Net, states: seq<State>, events: seq<Event>) {
    Run(net, states, events) && forall e <- events :: Lasting(e)
  }

  lemma {:induction false} RunKeeps(net: Net, o: Vid, k: nat, states: seq<State>, events: seq<Event>, i: nat)
    requires net.Valid() && LastingRun(net, states, events) && i < |states|
    requires Safe(net, states[0]) && StableIn(net, o, k, states[0])
    ensures Safe(net, states[i]) && StableIn(net, o, k, states[i])
  {
    if i > 0 {
      RunKeeps(net, o, k, states, events, i - 1);
      StepIsSafe(net, states[i - 1], events[i - 1], states[i]);
      StepKeepsStable(net, o, k, states[i - 1], events[i - 1], states[i]);
    }
  }

  lemma {:induction false} RunConfines(net: Net, o: Vid, k: nat, r: Vid, states: seq<State>, events: seq<Event>, i: nat)
    requires net.Valid() && LastingRun(net, states, events) && i < |states|
    requires Safe(net, states[0]) && StableIn(net, o, k, states[0]) && Rendezvous(net, o, k, r)
    requires AllConfined(net, o, k, r, states[0])
    ensures AllConfined(net, o, k, r, states[i])
  {
    if i > 0 {
      RunConfines(net, o, k, r, states, events, i - 1);
      RunKeeps(net, o, k, states, events, i - 1);
      StableIsComplete(net, o, k, states[i - 1]);
      StepConfines(net, o, k, r, states[i - 1], events[i - 1], states[i]);
    }
  }

  lemma {:induction false} RunKeepsEdge(net: Net, states: seq<State>, events: seq<Event>, id: nat, e: Edge, i: nat,
                                        j: nat)
    requires LastingRun(net, states, events) && i <= j < |states| && e in EdgesAt(states[i], id)
    ensures e in EdgesAt(states[j], id)
  {
    if i < j {
      RunKeepsEdge(net, states, events, id, e, i, j - 1);
      assert Step(net, states[j - 1], events[j - 1], states[j]) && Lasting(events[j - 1]);
    }
  }

  /** The publish of edge (g, w) is handled during the run. */
  ghost predicate PublishHandled(events: seq<Event>, g: Vid, w: Vid) {
    exists i :: 0 <= i < |events| && events[i].HandlePublish? && events[i].p.svid == g && events[i].p.body == Publish(w)
  }

  /** First half of the construction of level k: when the publishes of all gateway edges of
      the subtree have been handled, wherever that was, the rendezvous node is full. */
  lemma PublishedMeansFull(net: Net, o: Vid, k: nat, r: Vid, states: seq<State>, events: seq<Event>)
    requires net.Valid() && LastingRun(net, states, events)
    requires Safe(net, states[0]) && StableIn(net, o, k, states[0]) && Rendezvous(net, o, k, r)
    requires AllConfined(net, o, k, r, states[0])
    requires forall g: Vid, w: Vid :: net.GatewayVia(o, k, g, w) ==> PublishHandled(events, g, w)
    ensures Full(net, o, k, r, states[|events|])
  {
    forall g: Vid, w: Vid | net.GatewayVia(o, k, g, w)
      ensures Edge(g, w) in EdgesAt(states[|events|], net.sw[r])
    {
      var i :| 0 <= i < |events| && events[i].HandlePublish? && events[i].p.svid == g && events[i].p.body == Publish(w);
      var p := events[i].p;
      RunConfines(net, o, k, r, states, events, i);
      DeltaSym(o, g);
      DeltaUltra(g, o, w);
      assert Step(net, states[i], events[i], states[i + 1]);
      assert Request(net, o, k, p);
      HandledAtRendezvous(net, o, k, r, states[i], p);
      RunKeepsEdge(net, states, events, net.sw[r], Edge(g, w), i + 1, |events|);
    }
  }

  lemma StableKeepsReady(net: Net, o: Vid, k: nat, r: Vid, s: State, e: Event, s': State)
    requires net.Valid() && Safe(net, s) && StableIn(net, o, k, s) && Ready(net, o, k, r, s)
    requires Step(net, s, e, s') && Lasting(e)
    ensures Ready(net, o, k, r, s')
  {
    StableIsComplete(net, o, k, s);
    StepKeepsReady(net, o, k, r, s, e, s');
  }

  lemma {:induction false} RunKeepsReady(net: Net, o: Vid, k: nat, r: Vid, states: seq<State>, events: seq<Event>,
                                         i: nat)
    requires net.Valid() && LastingRun(net, states, events) && i < |states|
    requires Safe(net, states[0]) && StableIn(net, o, k, states[0]) && Ready(net, o, k, r, states[0])
    ensures Ready(net, o, k, r, states[i])
  {
    if i > 0 {
      RunKeepsReady(net, o, k, r, states, events, i - 1);
      RunKeeps(net, o, k, states, events, i - 1);
      StableKeepsReady(net, o, k, r, states[i - 1], events[i - 1], states[i]);
    }
  }

  lemma RunFacts(net: Net, o: Vid, k: nat, r: Vid, states: seq<State>, events: seq<Event>, i: nat)
    requires net.Valid() && LastingRun(net, states, events) && i < |states|
    requires Safe(net, states[0]) && StableIn(net, o, k, states[0]) && Ready(net, o, k, r, states[0])
    ensures Safe(net, states[i]) && Ready(net, o, k, r, states[i]) && CompleteBelow(net, states[i].rt, o, k)
  {
    RunKeepsReady(net, o, k, r, states, events, i);
    RunKeeps(net, o, k, states, events, i);
    StableIsComplete(net, o, k, states[i]);
  }

  /** What holds at some position and passes on from each to the next holds at the later ones. */
  lemma {:induction false} PassesOn(good: seq<bool>, i: nat, j: nat)
    requires i <= j < |good| && good[i]
    requires forall h: nat {:trigger Passes(good, h)} :: i <= h < |good| - 1 ==> Passes(good, h)
    ensures good[j]
  {
    if i < j {
      PassesOn(good, i, j - 1);
      assert Passes(good, j - 1);
    }
  }

  predicate Passes(good: seq<bool>, h: nat)
    requires h + 1 < |good|
  {
    good[h] ==> good[h + 1]
  }

  /** In which states of a run the bucket is complete. */
  ghost function CompleteIn(net: Net, states: seq<State>, x: Vid, k: nat): (good: seq<bool>)
    ensures |good| == |states| && forall h :: 0 <= h < |good| ==> good[h] == CompleteAt(net, states[h].rt, x, k)
  {
    seq(|states|, h requires 0 <= h < |states| => CompleteAt(net, states[h].rt, x, k))
  }

  lemma RunKeepsComplete(net: Net, o: Vid, k: nat, r: Vid, states: seq<State>, events: seq<Event>, x: Vid, i: nat,
                         j: nat)
    requires net.Valid() && LastingRun(net, states, events) && i <= j < |states|
    requires Safe(net, states[0]) && StableIn(net, o, k, states[0]) && Ready(net, o, k, r, states[0])
    requires Member(net, o, k, x) && CompleteAt(net, states[i].rt, x, k)
    ensures CompleteAt(net, states[j].rt, x, k)
  {
    CompletePasses(net, o, k, r, states, events, x);
    PassesOn(CompleteIn(net, states, x, k), i, j);
  }

  lemma CompletePasses(net: Net, o: Vid, k: nat, r: Vid, states: seq<State>, events: seq<Event>, x: Vid)
    requires net.Valid() && LastingRun(net, states, events) && Member(net, o, k, x)
    requires Safe(net, states[0]) && StableIn(net, o, k, states[0]) && Ready(net, o, k, r, states[0])
    ensures forall h: nat {:trigger Passes(CompleteIn(net, states, x, k), h)} ::
              h + 1 < |states| ==> Passes(CompleteIn(net, states, x, k), h)
  {
    forall h: nat | h + 1 < |states|
      ensures Passes(CompleteIn(net, states, x, k), h)
    {
      if CompleteAt(net, states[h].rt, x, k) {
        NextKeepsComplete(net, o, k, r, states, events, x, h);
      }
    }
  }

  lemma NextKeepsComplete(net: Net, o: Vid, k: nat, r: Vid, states: seq<State>, events: seq<Event>, x: Vid, i: nat)
    requires net.Valid() && LastingRun(net, states, events) && i + 1 < |states|
    requires Safe(net, states[0]) && StableIn(net, o, k, states[0]) && Ready(net, o, k, r, states[0])
    requires Member(net, o, k, x) && CompleteAt(net, states[i].rt, x, k)
    ensures CompleteAt(net, states[i + 1].rt, x, k)
  {
    RunFacts(net, o, k, r, states, events, i);
    assert Step(net, states[i], events[i], states[i + 1]) && Lasting(events[i]);
    StepKeepsComplete(net, o, k, r, states[i], events[i], states[i + 1], x);
  }

  /** x publishes an edge of its own at level k, or handles an answer of level k that names
      another interface first. */
  ghost predicate Serves(e: Event, k: nat, x: Vid) {
    match e
    case PublishTick(x', y, _) => x' == x && Delta(x, y) == k
    case HandleReply(p) => p.dvid == x && p.body.Reply? && p.body.bucket == k && p.body.gws != [] && p.body.gws[0] != x
    case _ => false
  }

  ghost predicate Served(events: seq<Event>, k: nat, x: Vid) {
    exists i :: 0 <= i < |events| && Serves(events[i], k, x)
  }

  lemma ServiceCompletes(net: Net, o: Vid, k: nat, r: Vid, s: State, e: Event, s': State, x: Vid)
    requires net.Valid() && Safe(net, s) && CompleteBelow(net, s.rt, o, k) && Ready(net, o, k, r, s)
    requires Step(net, s, e, s') && Serves(e, k, x) && Member(net, o, k, x)
    ensures CompleteAt(net, s'.rt, x, k)
  {
    if e.PublishTick? {
      TickCompletes(net, s, x, e.y, e.p, s');
    } else {
      AnswerCompletes(net, o, k, s, e.p, s');
    }
  }

  /** Second half: from the moment the rendezvous node is full and no stale answer is in
      flight, every member that is served, or has nobody at distance k, ends the run with a
      correct bucket k. */
  lemma ServedMeansComplete(net: Net, o: Vid, k: nat, r: Vid, states: seq<State>, events: seq<Event>, x: Vid)
    requires net.Valid() && LastingRun(net, states, events)
    requires Safe(net, states[0]) && StableIn(net, o, k, states[0]) && Ready(net, o, k, r, states[0])
    requires Member(net, o, k, x) && (Served(events, k, x) || !net.Inhabited(x, k))
    ensures CompleteAt(net, states[|events|].rt, x, k)
  {
    var n := |events|;
    if !net.Inhabited(x, k) {
      RunKeeps(net, o, k, states, events, n);
      if DefaultAt(states[n].rt, x, k).Via? {
        PresentMeansInhabited(net, states[n], x, k);
      }
    } else {
      var i :| 0 <= i < n && Serves(events[i], k, x);
      RunKeeps(net, o, k, states, events, i);
      RunKeepsReady(net, o, k, r, states, events, i);
      StableIsComplete(net, o, k, states[i]);
      ServiceCompletes(net, o, k, r, states[i], events[i], states[i + 1], x);
      RunKeepsComplete(net, o, k, r, states, events, x, i + 1, n);
    }
  }

  /** One level of one subtree: if its lower levels are stable, level k is settled, and every
      member is served or has nobody at distance k, then level k ends complete at every member
      too, whatever state the rest of the network is in. */
  lemma LevelConstructed(net: Net, o: Vid, k: nat, states: seq<State>, events: seq<Event>)
    requires net.Valid() && LastingRun(net, states, events) && HOST_BITS < k
    requires Safe(net, states[0]) && StableIn(net, o, k, states[0]) && Settled(net, o, k, states[0])
    requires forall x: Vid {:trigger Served(events, k, x)} ::
               Member(net, o, k, x) ==> Served(events, k, x) || !net.Inhabited(x, k)
    ensures StableIn(net, o, k, states[|events|])
    ensures forall x: Vid {:trigger StableAt(net, x, k, states[|events|])} ::
              Member(net, o, k, x) ==> StableAt(net, x, k, states[|events|])
  {
    RunKeeps(net, o, k, states, events, |events|);
    var r: Vid :| Ready(net, o, k, r, states[0]);
    RunKeepsReady(net, o, k, r, states, events, |events|);
    forall x: Vid | Member(net, o, k, x)
      ensures StableAt(net, x, k, states[|events|])
    {
      assert Served(events, k, x) || !net.Inhabited(x, k);
      ServedMeansComplete(net, o, k, r, states, events, x);
      ReadyShared(net, o, k, r, states[|events|], x);
    }
  }

  /** Every level below k is settled and complete in the whole network. */
  ghost predicate Stable(net: Net, k: nat, s: State) {
    forall o: Vid, j: nat {:trigger StableAt(net, o, j, s)} :: o in net.sw && HOST_BITS < j < k ==>
      StableAt(net, o, j, s)
  }

  /** The buckets above the queried levels are complete. */
  ghost predicate FarComplete(net: Net, rt: Tables) {
    forall x: Vid, k: nat {:trigger CompleteAt(net, rt, x, k)} ::
      x in net.sw && k > LAST_QUERIED ==> CompleteAt(net, rt, x, k)
  }

  /** Queries stop at level 32. When no two interfaces are farther apart than that, nothing is
      missing above. */
  lemma ShortIdsComplete(net: Net, s: State)
    requires net.Valid() && Safe(net, s)
    requires forall x: Vid, y: Vid :: x in net.sw && y in net.sw ==> Delta(x, y) <= LAST_QUERIED
    ensures FarComplete(net, s.rt)
  {
    forall x: Vid, k: nat | x in net.sw && k > LAST_QUERIED
      ensures CompleteAt(net, s.rt, x, k)
    {
      if DefaultAt(s.rt, x, k).Via? {
        PresentMeansInhabited(net, s, x, k);
      }
    }
  }

  /** Tables that are stable up to there and complete above are complete altogether. */
  lemma AllLevelsComplete(net: Net, s: State, o: Vid)
    requires Stable(net, LAST_QUERIED + 1, s) && FarComplete(net, s.rt)
    ensures CompleteBelow(net, s.rt, o, VID_BITS + 1)
  {
    forall x: Vid, j: nat | x in net.sw && Delta(o, x) < VID_BITS + 1 && HOST_BITS < j < VID_BITS + 1
      ensures CompleteAt(net, s.rt, x, j)
    {
      if j <= LAST_QUERIED {
        assert StableAt(net, x, j, s);
      }
    }
  }

  /** A path of default hops for packets to d, from x to v, that visits no interface twice. */
  ghost predicate DefaultPath(net: Net, rt: Tables, d: Vid, path: seq<Vid>, x: Vid, v: Vid) {
    && path != [] && path[0] == x && path[|path| - 1] == v
    && (forall i :: 0 <= i < |path| - 1 ==> Forward(net, rt, path[i], d) == To(path[i + 1]))
    && (forall i, j :: 0 <= i < j < |path| ==> path[i] != path[j])
  }

  /** In a converged network a packet from any interface reaches any existing switch, visiting
      no interface twice. */
  lemma ConvergedDelivers(net: Net, s: State, x: Vid, d: Vid, v: Vid) returns (path: seq<Vid>)
    requires net.Valid() && Stable(net, LAST_QUERIED + 1, s) && FarComplete(net, s.rt)
    requires x in net.sw && v in net.sw && Delta(v, d) <= HOST_BITS
    ensures DefaultPath(net, s.rt, d, path, x, v)
  {
    var rts := (i: nat) => s.rt;
    forall i: nat, o: Vid | o in net.sw
      ensures CompleteBelow(net, rts(i), o, VID_BITS + 1)
    {
      AllLevelsComplete(net, s, o);
    }
    path := Delivery(net, rts, [x], d, v);
    NoRevisit(net, rts, path, d, v);
    forall i | 0 <= i < |path| - 1
      ensures Forward(net, s.rt, path[i], d) == To(path[i + 1])
    {
      assert Forward(net, rts(i), path[i], d) == To(path[i + 1]);
    }
  }

  /** A nonempty network always has a rendezvous node for every level of every subtree, and
      it is a member of the subtree. */
  lemma RendezvousExists(net: Net, o: Vid, k: nat) returns (r: Vid)
    requires net.Valid() && o in net.sw && 1 <= k <= VID_BITS
    ensures Rendezvous(net, o, k, r)
    ensures k > HOST_BITS ==> Member(net, o, k, r)
  {
    var d: Vid := RdvPoint(o, k);
    r := NearestAmong(net, net.sw.Keys, o, d);
    RdvPointNear(o, k);
    if k > HOST_BITS && Delta(o, r) >= k {
      DeltaSym(o, r);
      DeltaUltra(r, o, d);
      FartherXor(o, r, d);
    }
  }

  lemma {:induction false} NearestAmong(net: Net, all: set<Vid>, o: Vid, d: Vid) returns (r: Vid)
    requires o in all
    ensures r in all && forall w: Vid :: w in all ==> SwitchXor(r, d) <= SwitchXor(w, d)
    decreases all
  {
    if all == {o} {
      r := o;
    } else {
      var v: Vid :| v in all && v != o;
      r := NearestAmong(net, all - {v}, o, d);
      if SwitchXor(v, d) < SwitchXor(r, d) {
        r := v;
      }
    }
  }
}
