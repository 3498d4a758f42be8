/** Runs as `TimerRounds` speaks of exist, and consist of whole timer calls: all switches' timers fire,
    then every packet of the levels built so far is brought to its handler, and its answer home,
    one after another; packets of higher levels, which may have nowhere to go, are lost. */
module Realization {
  import opened VidBits
  import opened Network
  import opened RendezvousTable
  import opened RendezvousAnswers
  import opened Protocol
  import opened Construction
  import opened Levels
  import opened Exchange
  import opened FarLevels
  import opened Arrival
  import opened Convergence
  import opened Timers
  import opened TimerRounds

  // ----- states from which every packet can be delivered

  /** The level-k control packets of o's subtree are where they should be. */
  ghost predicate Tidy(net: Net, o: Vid, k: nat, s: State) {
    exists r: Vid :: Rendezvous(net, o, k, r) && AllConfined(net, o, k, r, s)
  }

  ghost predicate Orderly(net: Net, k: nat, s: State) {
    && Safe(net, s) && InBuckets(s) && Stable(net, k, s)
    && forall o: Vid {:trigger Tidy(net, o, k, s)} :: o in net.sw ==> Tidy(net, o, k, s)
  }

  lemma StableEverywhere(net: Net, k: nat, s: State, o: Vid, j: nat)
    requires Stable(net, k, s) && j <= k
    ensures StableIn(net, o, j, s)
  {
    forall x: Vid, i: nat | Member(net, o, j, x) && HOST_BITS < i < j
      ensures StableAt(net, x, i, s)
    {
    }
  }

  lemma EverywhereStable(net: Net, k: nat, s: State)
    requires k > 0 && forall o: Vid {:trigger StableIn(net, o, k, s)} :: o in net.sw ==> StableIn(net, o, k, s)
    ensures Stable(net, k, s)
  {
    forall o: Vid, j: nat | o in net.sw && HOST_BITS < j < k
      ensures StableAt(net, o, j, s)
    {
      DeltaZero(o, o);
      assert StableIn(net, o, k, s);
    }
  }

  lemma TidyBelow(net: Net, k: nat, s: State, o: Vid, j: nat)
    requires Orderly(net, k, s) && o in net.sw && HOST_BITS < j <= k
    ensures Tidy(net, o, j, s)
  {
    if j < k {
      assert StableAt(net, o, j, s);
      var r: Vid :| Ready(net, o, j, r, s);
    }
  }

  lemma StepKeepsTidy(net: Net, k: nat, s: State, e: Event, s': State, o: Vid)
    requires net.Valid() && Orderly(net, k, s) && Step(net, s, e, s') && o in net.sw
    ensures Tidy(net, o, k, s')
  {
    StableEverywhere(net, k, s, o, k);
    StableIsComplete(net, o, k, s);
    assert Tidy(net, o, k, s);
    var r: Vid :| Rendezvous(net, o, k, r) && AllConfined(net, o, k, r, s);
    StepConfines(net, o, k, r, s, e, s');
  }

  lemma StepKeepsAllStable(net: Net, k: nat, s: State, e: Event, s': State)
    requires net.Valid() && Safe(net, s) && Stable(net, k, s) && Step(net, s, e, s') && Lasting(e) && k > 0
    ensures Stable(net, k, s')
  {
    forall o: Vid | o in net.sw
      ensures StableIn(net, o, k, s')
    {
      StableEverywhere(net, k, s, o, k);
      StepKeepsStable(net, o, k, s, e, s');
    }
    EverywhereStable(net, k, s');
  }

  lemma StepKeepsOrderly(net: Net, k: nat, s: State, e: Event, s': State)
    requires net.Valid() && Orderly(net, k, s) && Step(net, s, e, s') && Lasting(e) && k > 0
    ensures Orderly(net, k, s')
  {
    StepIsSafe(net, s, e, s');
    StepKeepsBuckets(net, s, e, s');
    StepKeepsAllStable(net, k, s, e, s');
    forall o: Vid | o in net.sw
      ensures Tidy(net, o, k, s')
    {
      StepKeepsTidy(net, k, s, e, s', o);
    }
  }

  lemma {:induction false} RunKeepsOrderly(net: Net, k: nat, states: seq<State>, events: seq<Event>, i: nat)
    requires net.Valid() && LastingRun(net, states, events) && Orderly(net, k, states[0]) && k > 0 && i < |states|
    ensures Orderly(net, k, states[i])
  {
    if i > 0 {
      RunKeepsOrderly(net, k, states, events, i - 1);
      assert Step(net, states[i - 1], events[i - 1], states[i]) && Lasting(events[i - 1]);
      StepKeepsOrderly(net, k, states[i - 1], events[i - 1], states[i]);
    }
  }

  lemma QuietIsOrderly(net: Net, k: nat, s: State)
    requires net.Valid() && Safe(net, s) && Stable(net, k, s) && s.flying == {} && HOST_BITS < k <= VID_BITS
    ensures Orderly(net, k, s)
  {
    assert InBuckets(s);
    forall o: Vid | o in net.sw
      ensures Tidy(net, o, k, s)
    {
      QuietIsTidy(net, k, s, o);
    }
  }

  lemma QuietIsTidy(net: Net, k: nat, s: State, o: Vid)
    requires net.Valid() && s.flying == {} && HOST_BITS < k <= VID_BITS && o in net.sw
    ensures Tidy(net, o, k, s)
  {
    var r := RendezvousExists(net, o, k);
    CalmConfines(net, o, k, r, s);
  }

  // ----- one packet

  /** Neither sent, nor lost, nor expired. */
  predicate Internal(e: Event) {
    !IsTick(e) && !e.Lose? && Lasting(e)
  }

  function OwnerOf(p: Packet): Vid {
    if p.body.Reply? then p.dvid else p.svid
  }

  /** Every packet is a control packet of its owner's subtree. */
  lemma PacketLevel(net: Net, s: State, p: Packet)
    requires net.Valid() && Safe(net, s) && InBuckets(s) && p in s.flying
    ensures OwnerOf(p) in net.sw && LevelOf(p) > HOST_BITS && Control(net, OwnerOf(p), LevelOf(p), p)
  {
    assert SafePacket(net, p) && HasQueriedLevel(p);
    DeltaZero(OwnerOf(p), OwnerOf(p));
    if p.body.Publish? {
      SwitchDeltaZero(p.svid, p.body.neighbor);
    }
  }

  /** A packet of a level built so far reaches its handler. */
  lemma Reaches(net: Net, k: nat, s: State, p: Packet) returns (states: seq<State>, events: seq<Event>, q: Packet)
    requires net.Valid() && Orderly(net, k, s) && p in s.flying && LevelOf(p) <= k
    ensures LastingRun(net, states, events) && states[0] == s && forall e <- events :: Internal(e)
    ensures Orderly(net, k, Last(states)) && q in Last(states).flying && Same(p, q) && Arrived(net, q)
    ensures Last(states).flying <= s.flying - {p} + {q}
  {
    var o, j := OwnerOf(p), LevelOf(p);
    PacketLevel(net, s, p);
    TidyBelow(net, k, s, o, j);
    var r: Vid :| Rendezvous(net, o, j, r) && AllConfined(net, o, j, r, s);
    StableEverywhere(net, k, s, o, j);
    StableIsComplete(net, o, j, s);
    states, events, q := CanArrive(net, o, j, r, s, p);
    MovesAreInternal(events);
    RunKeepsOrderly(net, k, states, events, |events|);
  }

  lemma MovesAreInternal(events: seq<Event>)
    requires forall e <- events :: Moves(e)
    ensures forall e <- events :: Internal(e)
  {
  }

  lemma PublishHandling(net: Net, s: State, q: Packet) returns (e: Event, s': State)
    requires q in s.flying && q.body.Publish? && Arrived(net, q)
    ensures Step(net, s, e, s') && Internal(e) && s'.flying == s.flying - {q}
  {
    var id := net.sw[q.at];
    e := HandlePublish(q);
    s' := State(s.rt, s.rdv[id := EdgesAt(s, id) + {Edge(q.svid, q.body.neighbor)}], s.flying - {q});
  }

  lemma QueryHandling(net: Net, s: State, q: Packet) returns (e: Event, s': State, out: set<Packet>)
    requires SafePacket(net, q) && q in s.flying && q.body.Query? && Arrived(net, q)
    ensures Step(net, s, e, s') && Internal(e) && s'.flying == s.flying - {q} + out
    ensures out == {} || exists a: Packet :: out == {a} && a.body.Reply? && LevelOf(a) == LevelOf(q)
  {
    var gws := AnsweredExactly(EdgesAt(s, net.sw[q.at]), q.body.bucket, q.svid);
    var a := AnswerPacket(net, q, gws);
    out := if gws == [] then {} else {a};
    e := HandleQuery(q, gws, a);
    s' := State(s.rt, s.rdv, s.flying - {q} + out);
    AnswerIsStep(net, s, q, gws, a, s');
  }

  lemma ReplyHandling(net: Net, s: State, q: Packet) returns (e: Event, s': State)
    requires q in s.flying && q.body.Reply? && Arrived(net, q)
    ensures Step(net, s, e, s') && Internal(e) && s'.flying == s.flying - {q}
  {
    var t := ApplyReply(TableOf(s, q.dvid), q.dvid, q.body.bucket, q.body.gws, 0);
    e := HandleReply(q);
    s' := State(s.rt[q.dvid := t], s.rdv, s.flying - {q});
  }

  /** It is handled; a query may leave an answer in the air. */
  lemma Handled(net: Net, s: State, q: Packet) returns (e: Event, s': State, out: set<Packet>)
    requires Safe(net, s) && q in s.flying && Arrived(net, q)
    ensures Step(net, s, e, s') && Internal(e) && s'.flying == s.flying - {q} + out
    ensures !q.body.Query? ==> out == {}
    ensures out == {} || exists a: Packet :: out == {a} && a.body.Reply? && LevelOf(a) == LevelOf(q)
  {
    assert SafePacket(net, q);
    out := {};
    if q.body.Publish? {
      e, s' := PublishHandling(net, s, q);
    } else if q.body.Query? {
      e, s', out := QueryHandling(net, s, q);
    } else {
      e, s' := ReplyHandling(net, s, q);
    }
  }

  /** Brought to its handler and handled. */
  lemma OneTrip(net: Net, k: nat, s: State, p: Packet)
    returns (states: seq<State>, events: seq<Event>, out: set<Packet>)
    requires net.Valid() && Orderly(net, k, s) && p in s.flying && LevelOf(p) <= k && k > 0
    ensures LastingRun(net, states, events) && states[0] == s && forall e <- events :: Internal(e)
    ensures Orderly(net, k, Last(states)) && out <= Last(states).flying <= s.flying - {p} + out
    ensures !p.body.Query? ==> out == {}
    ensures out == {} || exists a: Packet :: out == {a} && a.body.Reply? && LevelOf(a) == LevelOf(p)
  {
    var ss, es, q := Reaches(net, k, s, p);
    var e, s', o := Handled(net, Last(ss), q);
    NextStep(net, ss, es, e, s');
    StepKeepsOrderly(net, k, Last(ss), e, s');
    SameLevel(p, q);
    states, events, out := ss + [s'], es + [e], o;
  }

  lemma SameLevel(p: Packet, q: Packet)
    requires Same(p, q)
    ensures LevelOf(q) == LevelOf(p)
  {
  }

  /** A packet of a level built so far is brought to its handler, and its answer home. */
  lemma PacketTrip(net: Net, k: nat, s: State, p: Packet) returns (states: seq<State>, events: seq<Event>)
    requires net.Valid() && Orderly(net, k, s) && p in s.flying && LevelOf(p) <= k && k > 0
    ensures LastingRun(net, states, events) && states[0] == s && forall e <- events :: Internal(e)
    ensures Orderly(net, k, Last(states)) && Last(states).flying <= s.flying - {p}
  {
    var out;
    states, events, out := OneTrip(net, k, s, p);
    if out != {} {
      var a: Packet :| out == {a} && a.body.Reply? && LevelOf(a) == LevelOf(p);
      var ss, es, none := OneTrip(net, k, Last(states), a);
      JoinRuns(net, states, events, ss, es);
      AfterAnswer(s.flying, p, Last(states).flying, a, Last(ss).flying);
      states, events := states + ss[1..], events + es;
    }
  }

  lemma AfterAnswer(all: set<Packet>, p: Packet, mid: set<Packet>, a: Packet, end: set<Packet>)
    requires mid <= all - {p} + {a} && end <= mid - {a}
    ensures end <= all - {p}
  {
  }

  // ----- draining the network

  /** Losses are of levels above k. */
  predicate Spares(k: nat, e: Event) {
    e.Lose? ==> LevelOf(e.p) > k
  }

  lemma FewerLeft(a: set<Packet>, b: set<Packet>, p: Packet)
    requires a <= b - {p} && p in b
    ensures |a| < |b|
  {
    var rest := (b - {p}) - a;
    assert b == a + rest + {p};
  }

  /** All packets in flight end. */
  lemma {:induction false} Drain(net: Net, k: nat, s: State) returns (states: seq<State>, events: seq<Event>)
    requires net.Valid() && Orderly(net, k, s) && k > 0
    ensures LastingRun(net, states, events) && states[0] == s && Last(states).flying == {}
    ensures (forall e <- events :: !IsTick(e)) && (forall e <- events :: Spares(k, e))
    decreases |s.flying|
  {
    if s.flying == {} {
      states, events := [s], [];
    } else {
      var p :| p in s.flying;
      var ss, es := EndPacket(net, k, s, p);
      FewerLeft(Last(ss).flying, s.flying, p);
      var ss', es' := Drain(net, k, Last(ss));
      JoinRuns(net, ss, es, ss', es');
      states, events := ss + ss'[1..], es + es';
    }
  }

  lemma EndPacket(net: Net, k: nat, s: State, p: Packet) returns (states: seq<State>, events: seq<Event>)
    requires net.Valid() && Orderly(net, k, s) && k > 0 && p in s.flying
    ensures LastingRun(net, states, events) && states[0] == s
    ensures (forall e <- events :: !IsTick(e)) && (forall e <- events :: Spares(k, e))
    ensures Orderly(net, k, Last(states)) && Last(states).flying <= s.flying - {p}
  {
    if LevelOf(p) <= k {
      states, events := PacketTrip(net, k, s, p);
    } else {
      var s' := s.(flying := s.flying - {p});
      NextStep(net, [s], [], Lose(p), s');
      StepKeepsOrderly(net, k, s, Lose(p), s');
      states, events := [s] + [s'], [] + [Lose(p)];
    }
  }

  // ----- all timers fire

  /** Every edge and question of these switches is sent. */
  ghost predicate SentFrom(net: Net, ids: set<nat>, events: seq<Event>) {
    && (forall x: Vid, y: Vid {:trigger Ticked(events, x, y)} ::
          x in net.sw && net.sw[x] in ids && y in net.sw && net.Edge(x, y) ==> Ticked(events, x, y))
    && (forall x: Vid, k: nat {:trigger Queried(events, k, x)} ::
          x in net.sw && net.sw[x] in ids && IsQueried(k) ==> Queried(events, k, x))
  }

  lemma SentFromJoins(net: Net, ids: set<nat>, ids': set<nat>, es: seq<Event>, es': seq<Event>)
    requires SentFrom(net, ids, es) && SentFrom(net, ids', es')
    ensures SentFrom(net, ids + ids', es + es')
  {
    forall x: Vid, y: Vid | x in net.sw && net.sw[x] in ids + ids' && y in net.sw && net.Edge(x, y)
      ensures Ticked(es + es', x, y)
    {
      TickedJoins(es, es', x, y);
    }
    forall x: Vid, k: nat | x in net.sw && net.sw[x] in ids + ids' && IsQueried(k)
      ensures Queried(es + es', k, x)
    {
      QueriedJoins(es, es', k, x);
    }
  }

  lemma OneCall(net: Net, s: State, id: nat) returns (states: seq<State>, events: seq<Event>)
    requires net.Valid()
    ensures LastingRun(net, states, events) && states[0] == s && TimerCall(net, id, events)
    ensures SentFrom(net, {id}, events) && WholeCalls(net, events) && forall e <- events :: IsTick(e)
  {
    var order := ListEdges(net, id);
    var asks := ListQuestions(net, id);
    states, events := TimerRun(net, s, id, order, asks);
    CallIsWhole(net, id, events);
    forall e | e in events
      ensures IsTick(e)
    {
      assert SentBy(net, id, e);
    }
  }

  /** The timers of these switches fire one after another. */
  lemma {:induction false} Calls(net: Net, s: State, ids: set<nat>) returns (states: seq<State>, events: seq<Event>)
    requires net.Valid()
    ensures LastingRun(net, states, events) && states[0] == s
    ensures SentFrom(net, ids, events) && WholeCalls(net, events) && forall e <- events :: IsTick(e)
    decreases ids
  {
    if ids == {} {
      states, events := [s], [];
    } else {
      var id :| id in ids;
      var ss, es := OneCall(net, s, id);
      var ss', es' := Calls(net, Last(ss), ids - {id});
      JoinRuns(net, ss, es, ss', es');
      SentFromJoins(net, {id}, ids - {id}, es, es');
      WholeCallsJoin(net, es, es');
      assert {id} + (ids - {id}) == ids;
      states, events := ss + ss'[1..], es + es';
    }
  }

  // ----- rounds

  /** A whole round from a quiet state to a quiet state. */
  lemma OneRound(net: Net, k: nat, s: State) returns (states: seq<State>, events: seq<Event>)
    requires net.Valid() && Safe(net, s) && Stable(net, k, s) && s.flying == {} && IsQueried(k)
    ensures LastingRun(net, states, events) && states[0] == s && WholeCalls(net, events)
    ensures Round(net, k, states, events, 0, |events|)
  {
    QuietIsOrderly(net, k, s);
    var ss, es := Calls(net, s, net.sw.Values);
    RunKeepsOrderly(net, k, ss, es, |es|);
    var ss', es' := Drain(net, k, Last(ss));
    JoinRuns(net, ss, es, ss', es');
    NoTicksWhole(net, es');
    WholeCallsJoin(net, es, es');
    states, events := ss + ss'[1..], es + es';
    AllAreSent(net, es, es');
    assert events[0..|events|] == events;
    forall h | 0 <= h < |events| && events[h].Lose?
      ensures LevelOf(events[h].p) > k
    {
      assert h < |es| ==> IsTick(es[h]);
      assert h >= |es| ==> Spares(k, es'[h - |es|]);
    }
  }

  lemma AllAreSent(net: Net, es: seq<Event>, es': seq<Event>)
    requires SentFrom(net, net.sw.Values, es)
    ensures AllSent(net, es + es')
  {
    forall x: Vid, y: Vid | x in net.sw && y in net.sw && net.Edge(x, y)
      ensures Ticked(es + es', x, y)
    {
      TickedJoins(es, es', x, y);
    }
    forall x: Vid, k: nat | x in net.sw && IsQueried(k)
      ensures Queried(es + es', k, x)
    {
      QueriedJoins(es, es', k, x);
    }
  }

  lemma RoundEarlier(net: Net, k: nat, ss: seq<State>, es: seq<Event>, ss': seq<State>, es': seq<Event>, i: nat, j: nat)
    requires Round(net, k, ss, es, i, j) && |ss'| == |es'| + 1
    ensures Round(net, k, ss + ss'[1..], es + es', i, j)
  {
    assert (es + es')[i..j] == es[i..j];
  }

  lemma RoundLater(net: Net, k: nat, ss: seq<State>, es: seq<Event>, ss': seq<State>, es': seq<Event>, i: nat, j: nat)
    requires Round(net, k, ss', es', i, j) && |ss| == |es| + 1 && Last(ss) == ss'[0]
    ensures Round(net, k, ss + ss'[1..], es + es', |es| + i, |es| + j)
  {
    var n, states, events := |es|, ss + ss'[1..], es + es';
    assert events[n + i..n + j] == es'[i..j];
    assert states[n + i] == ss'[i] && states[n + j] == ss'[j];
    forall h | n + i <= h < n + j && events[h].Lose?
      ensures LevelOf(events[h].p) > k
    {
      assert events[h] == es'[h - n];
    }
  }

  /** Two rounds, and one more level is complete. */
  lemma LevelRun(net: Net, k: nat, s: State) returns (states: seq<State>, events: seq<Event>, full: nat)
    requires net.Valid() && Safe(net, s) && Stable(net, k, s) && s.flying == {} && IsQueried(k) && AllAnswerable(net)
    ensures LastingRun(net, states, events) && states[0] == s && WholeCalls(net, events)
    ensures Round(net, k, states, events, 0, full) && Round(net, k, states, events, full, |events|)
    ensures Safe(net, Last(states)) && Stable(net, k + 1, Last(states))
  {
    var ss, es := OneRound(net, k, s);
    KeepsAllStable(net, k, ss, es);
    var ss', es' := OneRound(net, k, Last(ss));
    JoinRuns(net, ss, es, ss', es');
    WholeCallsJoin(net, es, es');
    RoundEarlier(net, k, ss, es, ss', es', 0, |es|);
    RoundLater(net, k, ss, es, ss', es', 0, |es'|);
    states, events, full := ss + ss'[1..], es + es', |es|;
    LevelEnds(net, k, states, events, full);
  }

  lemma KeepsAllStable(net: Net, k: nat, states: seq<State>, events: seq<Event>)
    requires net.Valid() && LastingRun(net, states, events) && k > 0
    requires Safe(net, states[0]) && Stable(net, k, states[0])
    ensures Safe(net, Last(states)) && Stable(net, k, Last(states))
  {
    StaysSafe(net, states, events, |events|);
    forall o: Vid | o in net.sw
      ensures StableIn(net, o, k, Last(states))
    {
      StableEverywhere(net, k, states[0], o, k);
      RunKeeps(net, o, k, states, events, |events|);
    }
    EverywhereStable(net, k, Last(states));
  }

  lemma LevelEnds(net: Net, k: nat, states: seq<State>, events: seq<Event>, full: nat)
    requires net.Valid() && LastingRun(net, states, events) && IsQueried(k) && AllAnswerable(net)
    requires Safe(net, states[0]) && Stable(net, k, states[0])
    requires Round(net, k, states, events, 0, full) && Round(net, k, states, events, full, |events|)
    ensures Safe(net, Last(states)) && Stable(net, k + 1, Last(states))
  {
    KeepsAllStable(net, k, states, events);
    forall o: Vid, j: nat | o in net.sw && HOST_BITS < j < k + 1
      ensures StableAt(net, o, j, Last(states))
    {
      if j == k {
        LevelEndsAt(net, k, states, events, full, o);
      }
    }
  }

  lemma LevelEndsAt(net: Net, k: nat, states: seq<State>, events: seq<Event>, full: nat, o: Vid)
    requires net.Valid() && LastingRun(net, states, events) && IsQueried(k) && AllAnswerable(net) && o in net.sw
    requires Safe(net, states[0]) && Stable(net, k, states[0])
    requires Round(net, k, states, events, 0, full) && Round(net, k, states, events, full, |events|)
    ensures StableAt(net, o, k, Last(states))
  {
    var ph := Phase(0, full, |events|);
    TwoRoundsAreDone(net, o, k, states, events, 0, full, |events|);
    StableEverywhere(net, k, states[0], o, k);
    forall x: Vid | Member(net, o, k, x)
      ensures Answerable(net, x, k)
    {
    }
    PhaseConstructs(net, o, k, states, events, ph);
    DeltaZero(o, o);
  }

  lemma RoundsExtend(net: Net, ss: seq<State>, es: seq<Event>, rounds: seq<nat>, ss': seq<State>, es': seq<Event>,
                     k: nat, full: nat)
    requires RoundRun(net, ss, es, rounds) && |rounds| % 2 == 1 && k == FIRST_QUERIED + |rounds| / 2
    requires |ss| == |es| + 1 && |ss'| == |es'| + 1 && Last(ss) == ss'[0] && rounds[|rounds| - 1] == |es|
    requires Round(net, k, ss', es', 0, full) && Round(net, k, ss', es', full, |es'|)
    ensures RoundRun(net, ss + ss'[1..], es + es', rounds + [|es| + full, |es| + |es'|])
  {
    var all, n := rounds + [|es| + full, |es| + |es'|], |rounds|;
    RoundLater(net, k, ss, es, ss', es', 0, full);
    RoundLater(net, k, ss, es, ss', es', full, |es'|);
    forall i: nat | i + 1 < |all|
      ensures RoundAt(net, ss + ss'[1..], es + es', all, i)
    {
      if i + 1 < n {
        assert RoundAt(net, ss, es, rounds, i);
        RoundEarlier(net, LevelAt(i), ss, es, ss', es', rounds[i], rounds[i + 1]);
      } else {
        assert LevelAt(i) == k;
      }
    }
  }

  lemma {:induction false} LevelRuns(net: Net, n: nat)
    returns (states: seq<State>, events: seq<Event>, rounds: seq<nat>)
    requires net.Valid() && AllAnswerable(net) && n <= LAST_QUERIED + 1 - FIRST_QUERIED
    ensures LastingRun(net, states, events) && states[0] == State(map[], map[], {}) && WholeCalls(net, events)
    ensures RoundRun(net, states, events, rounds) && |rounds| == 2 * n + 1 && rounds[2 * n] == |events|
    ensures Safe(net, Last(states)) && Stable(net, FIRST_QUERIED + n, Last(states)) && Last(states).flying == {}
  {
    if n == 0 {
      states, events, rounds := [State(map[], map[], {})], [], [0];
    } else {
      var k := FIRST_QUERIED + (n - 1);
      var ss, es, before := LevelRuns(net, n - 1);
      var ss', es', full := LevelRun(net, k, Last(ss));
      JoinRuns(net, ss, es, ss', es');
      WholeCallsJoin(net, es, es');
      RoundsExtend(net, ss, es, before, ss', es', k, full);
      states, events, rounds := ss + ss'[1..], es + es', before + [|es| + full, |es| + |es'|];
    }
  }

  /** From empty tables there is a run of 32 whole rounds, in which nothing is published or asked but
      by whole timer calls, nothing expires, and losses are of levels not yet built. */
  lemma CanConverge(net: Net) returns (states: seq<State>, events: seq<Event>, rounds: seq<nat>)
    requires net.Valid() && AllAnswerable(net)
    ensures LastingRun(net, states, events) && states[0] == State(map[], map[], {})
    ensures RoundRun(net, states, events, rounds) && |rounds| == ROUNDS + 1 && rounds[ROUNDS] == |events|
    ensures WholeCalls(net, events)
  {
    states, events, rounds := LevelRuns(net, LAST_QUERIED + 1 - FIRST_QUERIED);
  }
}
