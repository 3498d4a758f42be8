/** From empty tables to delivery. Every subtree has a phase for its level: its edges are published,
    its members ask, its level-k packets are not lost and are gone at the end of each half. Phases
    of different subtrees may overlap in any way, as long as those of lower levels inside a subtree
    are over when its own begins. Then default forwarding reaches every switch. */
module Convergence {
  import opened VidBits
  import opened Network
  import opened Protocol
  import opened Construction
  import opened Levels
  import opened Exchange
  import opened FarLevels

  /** Edges are published from `start` to `full`, members ask from `full` to `end`. */
  datatype Phase = Phase(start: nat, full: nat, end: nat)

  type Schedule = (Vid, nat) -> Phase

  /** What timers and links do for level k of o's subtree. Nothing is said of what is handled
      where, of answers, or of tables. */
  ghost predicate Done(net: Net, o: Vid, k: nat, states: seq<State>, events: seq<Event>, ph: Phase) {
    && ph.start <= ph.full <= ph.end < |states| == |events| + 1
    && CalmIn(net, o, k, states[ph.start]) && CalmIn(net, o, k, states[ph.full]) && CalmIn(net, o, k, states[ph.end])
    && Spared(net, o, k, events[ph.start..ph.full]) && Spared(net, o, k, events[ph.full..ph.end])
    && AllTicked(net, o, k, events[ph.start..ph.full])
    && AllAsked(net, o, k, events[ph.full..ph.end])
  }

  /** Every edge out of the subtree is published. */
  ghost predicate AllTicked(net: Net, o: Vid, k: nat, events: seq<Event>) {
    forall g: Vid, w: Vid {:trigger Ticked(events, g, w)} :: net.GatewayVia(o, k, g, w) ==> Ticked(events, g, w)
  }

  /** Every member that has anybody at distance k publishes an own edge or queries. */
  ghost predicate AllAsked(net: Net, o: Vid, k: nat, events: seq<Event>) {
    forall x: Vid {:trigger Asked(net, events, k, x)} ::
      Member(net, o, k, x) && net.Inhabited(x, k) ==> Asked(net, events, k, x)
  }

  lemma SubRun(net: Net, states: seq<State>, events: seq<Event>, i: nat, j: nat)
    requires LastingRun(net, states, events) && i <= j < |states|
    ensures LastingRun(net, states[i..j + 1], events[i..j])
  {
    forall h | 0 <= h < j - i
      ensures Step(net, states[i..j + 1][h], events[i..j][h], states[i..j + 1][h + 1])
    {
      assert Step(net, states[i + h], events[i + h], states[i + h + 1]);
    }
  }

  /** The first half of a phase settles the level. */
  lemma PhaseSettles(net: Net, o: Vid, k: nat, states: seq<State>, events: seq<Event>, ph: Phase)
    requires net.Valid() && LastingRun(net, states, events) && HOST_BITS < k <= VID_BITS && o in net.sw
    requires Done(net, o, k, states, events, ph)
    requires Safe(net, states[ph.start]) && StableIn(net, o, k, states[ph.start])
    ensures Safe(net, states[ph.full]) && StableIn(net, o, k, states[ph.full]) && Settled(net, o, k, states[ph.full])
  {
    SubRun(net, states, events, ph.start, ph.full);
    var ss, es := states[ph.start..ph.full + 1], events[ph.start..ph.full];
    assert ss[|es|] == states[ph.full];
    TickedMeansSettled(net, o, k, ss, es);
    RunKeeps(net, o, k, ss, es, |es|);
  }

  /** A phase completes one more level of the subtree. */
  lemma PhaseConstructs(net: Net, o: Vid, k: nat, states: seq<State>, events: seq<Event>, ph: Phase)
    requires net.Valid() && LastingRun(net, states, events) && HOST_BITS < k <= VID_BITS && o in net.sw
    requires Done(net, o, k, states, events, ph)
    requires Safe(net, states[ph.start]) && StableIn(net, o, k, states[ph.start])
    requires forall x: Vid {:trigger Answerable(net, x, k)} :: Member(net, o, k, x) ==> Answerable(net, x, k)
    ensures Safe(net, states[ph.end]) && StableIn(net, o, k, states[ph.end])
    ensures forall x: Vid {:trigger StableAt(net, x, k, states[ph.end])} ::
              Member(net, o, k, x) ==> StableAt(net, x, k, states[ph.end])
  {
    PhaseSettles(net, o, k, states, events, ph);
    SubRun(net, states, events, ph.full, ph.end);
    var ss, es := states[ph.full..ph.end + 1], events[ph.full..ph.end];
    assert ss[|es|] == states[ph.end];
    assert forall x: Vid {:trigger Asked(net, es, k, x)} ::
        Member(net, o, k, x) && net.Inhabited(x, k) ==> Asked(net, es, k, x) && Answerable(net, x, k);
    AskedMeansComplete(net, o, k, ss, es);
    RunKeeps(net, o, k, ss, es, |es|);
  }

  /** A phase for every level of every subtree, after those of the levels below inside it. */
  ghost predicate Scheduled(net: Net, states: seq<State>, events: seq<Event>, sched: Schedule) {
    && (forall o: Vid, k: nat {:trigger sched(o, k)} ::
          o in net.sw && FIRST_QUERIED <= k <= LAST_QUERIED ==> Done(net, o, k, states, events, sched(o, k)))
    && (forall o: Vid, k: nat, x: Vid, j: nat {:trigger sched(o, k), sched(x, j)} ::
          Member(net, o, k, x) && FIRST_QUERIED <= j < k <= LAST_QUERIED ==> sched(x, j).end <= sched(o, k).start)
  }

  /** Whoever has no edge of their own out of a subtree can be answered there. */
  ghost predicate AllAnswerable(net: Net) {
    forall x: Vid, k: nat {:trigger Answerable(net, x, k)} ::
      x in net.sw && FIRST_QUERIED <= k <= LAST_QUERIED ==> Answerable(net, x, k)
  }

  /** Bucket k of o is complete from the end of its phase on, and level k settled. */
  lemma {:induction false} PhasesConstruct(net: Net, states: seq<State>, events: seq<Event>, sched: Schedule,
                                           o: Vid, k: nat, m: nat)
    requires net.Valid() && LastingRun(net, states, events) && Safe(net, states[0])
    requires Scheduled(net, states, events, sched) && AllAnswerable(net)
    requires o in net.sw && FIRST_QUERIED <= k <= LAST_QUERIED && sched(o, k).end <= m < |states|
    ensures StableAt(net, o, k, states[m])
    decreases k
  {
    var ph := sched(o, k);
    assert Done(net, o, k, states, events, ph);
    forall x: Vid, j: nat | Member(net, o, k, x) && HOST_BITS < j < k
      ensures StableAt(net, x, j, states[ph.start])
    {
      PhasesConstruct(net, states, events, sched, x, j, ph.start);
    }
    StaysSafe(net, states, events, ph.start);
    PhaseConstructs(net, o, k, states, events, ph);
    DeltaZero(o, o);
    assert StableAt(net, o, k, states[ph.end]);
    StaysStable(net, o, k, states, events, ph.end, m);
  }

  lemma StaysStable(net: Net, o: Vid, k: nat, states: seq<State>, events: seq<Event>, i: nat, j: nat)
    requires net.Valid() && LastingRun(net, states, events) && i <= j < |states| && o in net.sw && k > 0
    requires Safe(net, states[i]) && StableIn(net, o, k, states[i]) && StableAt(net, o, k, states[i])
    ensures StableAt(net, o, k, states[j])
  {
    SubRun(net, states, events, i, j);
    var ss, es := states[i..j + 1], events[i..j];
    assert ss[|es|] == states[j];
    var r: Vid :| Ready(net, o, k, r, states[i]);
    DeltaZero(o, o);
    RunKeepsReady(net, o, k, r, ss, es, |es|);
    RunKeepsComplete(net, o, k, r, ss, es, o, 0, |es|);
  }

  /** From empty tables, through the phases of all queried levels, to delivery: in every later
      state of the run a loop-free path of default hops leads from any interface to any other, if
      all distances above the queried levels are crossed by own edges, and these are published. */
  lemma Converges(net: Net, states: seq<State>, events: seq<Event>, sched: Schedule, m: nat, x: Vid, d: Vid, v: Vid)
    returns (path: seq<Vid>)
    requires net.Valid() && LastingRun(net, states, events) && states[0] == State(map[], map[], {})
    requires Scheduled(net, states, events, sched) && AllAnswerable(net) && m < |states|
    requires forall o: Vid, k: nat {:trigger sched(o, k)} ::
               o in net.sw && FIRST_QUERIED <= k <= LAST_QUERIED ==> sched(o, k).end <= m
    requires FarTicked(net, events[..m]) && FarEdges(net)
    requires x in net.sw && v in net.sw && Delta(v, d) <= HOST_BITS
    ensures DefaultPath(net, states[m].rt, d, path, x, v)
  {
    RunIsSafe(net, states, events, 0);
    forall o: Vid, k: nat | o in net.sw && HOST_BITS < k < LAST_QUERIED + 1
      ensures StableAt(net, o, k, states[m])
    {
      PhasesConstruct(net, states, events, sched, o, k, m);
    }
    SubRun(net, states, events, 0, m);
    FarCompleteExactly(net, states[..m + 1], events[..m]);
    path := ConvergedDelivers(net, states[m], x, d, v);
  }
}
