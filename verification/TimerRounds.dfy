/** Whole rounds of timer calls. In a run whose rounds each publish every edge and ask every question,
    two rounds complete one level of buckets: 32 rounds, from empty tables, complete them all. */
module TimerRounds {
  import opened VidBits
  import opened Network
  import opened Protocol
  import opened Construction
  import opened Levels
  import opened Exchange
  import opened FarLevels
  import opened Convergence
  import opened Timers

  const ROUNDS: nat := 32

  function LevelOf(p: Packet): nat {
    match p.body
    case Publish(y) => Delta(p.svid, y)
    case Query(k) => k
    case Reply(k, _) => k
  }

  /** From state i to state j everything is sent, all of it is gone at the end, and what was lost is
      of levels above k only. */
  ghost predicate Round(net: Net, k: nat, states: seq<State>, events: seq<Event>, i: nat, j: nat) {
    && i <= j < |states| == |events| + 1
    && states[i].flying == {} && states[j].flying == {}
    && AllSent(net, events[i..j])
    && forall h :: i <= h < j && events[h].Lose? ==> LevelOf(events[h].p) > k
  }

  /** Which level the i-th round is for: the first of two publishes it, the second asks. */
  function LevelAt(i: nat): nat {
    FIRST_QUERIED + i / 2
  }

  ghost predicate RoundAt(net: Net, states: seq<State>, events: seq<Event>, rounds: seq<nat>, i: nat)
    requires i + 1 < |rounds|
  {
    Round(net, LevelAt(i), states, events, rounds[i], rounds[i + 1])
  }

  /** Consecutive rounds, delimited by rounds[0], rounds[1], ... */
  ghost predicate RoundRun(net: Net, states: seq<State>, events: seq<Event>, rounds: seq<nat>) {
    forall i: nat {:trigger RoundAt(net, states, events, rounds, i)} ::
      i + 1 < |rounds| ==> RoundAt(net, states, events, rounds, i)
  }

  /** The two rounds of a level are the halves of a phase, for every subtree. */
  function PhaseOf(rounds: seq<nat>, k: nat): Phase {
    var i := if k < FIRST_QUERIED then 0 else 2 * (k - FIRST_QUERIED);
    if i + 2 < |rounds| then Phase(rounds[i], rounds[i + 1], rounds[i + 2]) else Phase(0, 0, 0)
  }

  function ScheduleOf(rounds: seq<nat>): Schedule {
    (o: Vid, k: nat) => PhaseOf(rounds, k)
  }

  lemma {:induction false} RoundsOrdered(net: Net, states: seq<State>, events: seq<Event>, rounds: seq<nat>, i: nat,
                                         j: nat)
    requires RoundRun(net, states, events, rounds) && i <= j < |rounds|
    ensures rounds[i] <= rounds[j]
  {
    if i < j {
      RoundsOrdered(net, states, events, rounds, i, j - 1);
      assert RoundAt(net, states, events, rounds, j - 1);
    }
  }

  lemma RoundSpares(net: Net, k: nat, states: seq<State>, events: seq<Event>, i: nat, j: nat, o: Vid)
    requires Round(net, k, states, events, i, j)
    ensures Spared(net, o, k, events[i..j])
    ensures CalmIn(net, o, k, states[i]) && CalmIn(net, o, k, states[j])
  {
    var es := events[i..j];
    forall h | 0 <= h < |es| && es[h].Lose?
      ensures !Control(net, o, k, es[h].p)
    {
      assert es[h] == events[i + h];
    }
  }

  lemma SentTicks(net: Net, o: Vid, k: nat, events: seq<Event>)
    requires AllSent(net, events)
    ensures AllTicked(net, o, k, events)
  {
    forall g: Vid, w: Vid | net.GatewayVia(o, k, g, w)
      ensures Ticked(events, g, w)
    {
    }
  }

  lemma SentAsks(net: Net, o: Vid, k: nat, events: seq<Event>)
    requires AllSent(net, events) && IsQueried(k)
    ensures AllAsked(net, o, k, events)
  {
    forall x: Vid | Member(net, o, k, x)
      ensures Asked(net, events, k, x)
    {
      if OwnEdge(net, x, k) {
        var w: Vid :| net.GatewayVia(x, k, x, w);
        assert Ticked(events, x, w);
      } else {
        assert Queried(events, k, x);
      }
    }
  }

  lemma TwoRoundsAreDone(net: Net, o: Vid, k: nat, states: seq<State>, events: seq<Event>, a: nat, b: nat, c: nat)
    requires IsQueried(k) && Round(net, k, states, events, a, b) && Round(net, k, states, events, b, c)
    ensures Done(net, o, k, states, events, Phase(a, b, c))
  {
    RoundSpares(net, k, states, events, a, b, o);
    RoundSpares(net, k, states, events, b, c, o);
    SentTicks(net, o, k, events[a..b]);
    SentAsks(net, o, k, events[b..c]);
  }

  lemma RoundsAreDone(net: Net, o: Vid, k: nat, states: seq<State>, events: seq<Event>, rounds: seq<nat>)
    requires IsQueried(k) && RoundRun(net, states, events, rounds) && 2 * (k - FIRST_QUERIED) + 2 < |rounds|
    ensures Done(net, o, k, states, events, PhaseOf(rounds, k))
  {
    var i: nat := 2 * (k - FIRST_QUERIED);
    assert RoundAt(net, states, events, rounds, i) && RoundAt(net, states, events, rounds, i + 1);
    assert LevelAt(i) == LevelAt(i + 1) == k;
    TwoRoundsAreDone(net, o, k, states, events, rounds[i], rounds[i + 1], rounds[i + 2]);
  }

  /** Whole rounds are a schedule of phases for all subtrees and levels. */
  lemma RoundsAreScheduled(net: Net, states: seq<State>, events: seq<Event>, rounds: seq<nat>)
    requires RoundRun(net, states, events, rounds) && |rounds| == ROUNDS + 1
    ensures Scheduled(net, states, events, ScheduleOf(rounds))
    ensures forall o: Vid, k: nat {:trigger ScheduleOf(rounds)(o, k)} ::
              IsQueried(k) ==> ScheduleOf(rounds)(o, k).end <= rounds[ROUNDS]
  {
    var sched := ScheduleOf(rounds);
    forall o: Vid, k: nat | o in net.sw && FIRST_QUERIED <= k <= LAST_QUERIED
      ensures Done(net, o, k, states, events, sched(o, k))
    {
      RoundsAreDone(net, o, k, states, events, rounds);
    }
    forall o: Vid, k: nat, x: Vid, j: nat | FIRST_QUERIED <= j < k <= LAST_QUERIED
      ensures sched(x, j).end <= sched(o, k).start
    {
      RoundsOrdered(net, states, events, rounds, 2 * (j - FIRST_QUERIED) + 2, 2 * (k - FIRST_QUERIED));
    }
    forall o: Vid, k: nat | IsQueried(k)
      ensures sched(o, k).end <= rounds[ROUNDS]
    {
      RoundsOrdered(net, states, events, rounds, 2 * (k - FIRST_QUERIED) + 2, ROUNDS);
    }
  }

  lemma TickedLater(events: seq<Event>, i: nat, j: nat, m: nat, g: Vid, w: Vid)
    requires i <= j <= m <= |events| && Ticked(events[i..j], g, w)
    ensures Ticked(events[..m], g, w)
  {
    var h :| 0 <= h < j - i && events[i..j][h].PublishTick? && events[i..j][h].x == g && events[i..j][h].y == w;
    assert events[..m][i + h] == events[i..j][h];
  }

  lemma RoundsTickFar(net: Net, states: seq<State>, events: seq<Event>, rounds: seq<nat>, m: nat)
    requires RoundRun(net, states, events, rounds) && |rounds| == ROUNDS + 1 && rounds[ROUNDS] <= m <= |events|
    ensures FarTicked(net, events[..m])
  {
    assert RoundAt(net, states, events, rounds, 0);
    RoundsOrdered(net, states, events, rounds, 1, ROUNDS);
    forall x: Vid, w: Vid | x in net.sw && w in net.sw && net.Edge(x, w)
      ensures Ticked(events[..m], x, w)
    {
      assert Ticked(events[rounds[0]..rounds[1]], x, w);
      TickedLater(events, rounds[0], rounds[1], m, x, w);
    }
  }

  /** Convergence by rounds: from empty tables, after 32 whole rounds in each of which every switch's
      timer has published and asked everything, and what was lost is above the round's level, a
      loop-free path of default hops leads from any interface to any other. */
  lemma RoundsConverge(net: Net, states: seq<State>, events: seq<Event>, rounds: seq<nat>, m: nat, x: Vid, d: Vid,
                       v: Vid)
    returns (path: seq<Vid>)
    requires net.Valid() && LastingRun(net, states, events) && states[0] == State(map[], map[], {})
    requires RoundRun(net, states, events, rounds) && |rounds| == ROUNDS + 1 && rounds[ROUNDS] <= m < |states|
    requires AllAnswerable(net) && FarEdges(net)
    requires x in net.sw && v in net.sw && Delta(v, d) <= HOST_BITS
    ensures DefaultPath(net, states[m].rt, d, path, x, v)
  {
    RoundsAreScheduled(net, states, events, rounds);
    RoundsTickFar(net, states, events, rounds, m);
    path := Converges(net, states, events, ScheduleOf(rounds), m, x, d, v);
  }
}
