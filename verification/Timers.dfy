/** What one call of a switch's timer puts into a run: all its edges are published, then all its
    interfaces ask for all levels. */
module Timers {
  import opened VidBits
  import opened Network
  import opened RouteTable
  import opened Protocol
  import opened Construction
  import opened Levels
  import opened Exchange

  predicate At(net: Net, id: nat, x: Vid) {
    x in net.sw && net.sw[x] == id
  }

  /** A publish or query sent by this switch. */
  predicate SentBy(net: Net, id: nat, e: Event) {
    match e
    case PublishTick(x, _, _) => At(net, id, x)
    case QueryTick(x, _, _) => At(net, id, x)
    case _ => false
  }

  /** Exactly the packets of one call: nothing but publishes and queries of the switch, publishes
      first, every edge of its interfaces published, every level asked for by every interface. */
  ghost predicate TimerCall(net: Net, id: nat, events: seq<Event>) {
    && (forall e <- events :: SentBy(net, id, e))
    && (forall i, j :: 0 <= i < j < |events| && events[i].QueryTick? ==> events[j].QueryTick?)
    && (forall x: Vid, y: Vid {:trigger Ticked(events, x, y)} ::
          At(net, id, x) && y in net.sw && net.Edge(x, y) ==> Ticked(events, x, y))
    && (forall x: Vid, k: nat {:trigger Queried(events, k, x)} ::
          At(net, id, x) && FIRST_QUERIED <= k <= LAST_QUERIED ==> Queried(events, k, x))
  }

  // ----- runs without expiry, put together

  function Last(states: seq<State>): State
    requires states != []
  {
    states[|states| - 1]
  }

  lemma JoinRuns(net: Net, ss: seq<State>, es: seq<Event>, ss': seq<State>, es': seq<Event>)
    requires LastingRun(net, ss, es) && LastingRun(net, ss', es') && Last(ss) == ss'[0]
    ensures LastingRun(net, ss + ss'[1..], es + es')
    ensures Last(ss + ss'[1..]) == Last(ss') && (ss + ss'[1..])[0] == ss[0]
  {
    var states, events := ss + ss'[1..], es + es';
    forall i | 0 <= i < |events|
      ensures Step(net, states[i], events[i], states[i + 1])
    {
      if i >= |es| {
        assert states[i] == ss'[i - |es|] && states[i + 1] == ss'[i - |es| + 1];
      }
    }
  }

  lemma NextStep(net: Net, states: seq<State>, events: seq<Event>, e: Event, s': State)
    requires LastingRun(net, states, events) && Step(net, Last(states), e, s') && Lasting(e)
    ensures LastingRun(net, states + [s'], events + [e])
  {
    var ss, es := states + [s'], events + [e];
    forall i | 0 <= i < |es|
      ensures Step(net, ss[i], es[i], ss[i + 1])
    {
      if i < |events| {
        assert Step(net, states[i], events[i], states[i + 1]);
      }
    }
  }

  lemma TickedJoins(es: seq<Event>, es': seq<Event>, g: Vid, w: Vid)
    ensures Ticked(es, g, w) ==> Ticked(es + es', g, w)
    ensures Ticked(es', g, w) ==> Ticked(es + es', g, w)
  {
    if i :| 0 <= i < |es| && es[i].PublishTick? && es[i].x == g && es[i].y == w {
      assert (es + es')[i] == es[i];
    }
    if i :| 0 <= i < |es'| && es'[i].PublishTick? && es'[i].x == g && es'[i].y == w {
      assert (es + es')[|es| + i] == es'[i];
    }
  }

  lemma QueriedJoins(es: seq<Event>, es': seq<Event>, k: nat, x: Vid)
    ensures Queried(es, k, x) ==> Queried(es + es', k, x)
    ensures Queried(es', k, x) ==> Queried(es + es', k, x)
  {
    if i :| 0 <= i < |es| && es[i].QueryTick? && es[i].x == x && es[i].k == k {
      assert (es + es')[i] == es[i];
    }
    if i :| 0 <= i < |es'| && es'[i].QueryTick? && es'[i].x == x && es'[i].k == k {
      assert (es + es')[|es| + i] == es'[i];
    }
  }

  // ----- the call as steps

  /** The tables of x after the edges of a list were entered one after another. */
  function EnterAll(t: Inner, x: Vid, order: seq<(Vid, Vid)>): Inner {
    if order == [] then t
    else
      var n := |order| - 1;
      var t' := EnterAll(t, x, order[..n]);
      if order[n].0 == x then Update(t', Delta(x, order[n].1), order[n].1, x, true) else t'
  }

  /** Where level-k requests of x are aimed at first. */
  function Aim(x: Vid, k: nat): Vid {
    if 1 <= k <= VID_BITS then RdvPoint(x, k) else x
  }

  function PublishPacket(e: (Vid, Vid)): Packet {
    Packet(e.0, e.0, e.0, Aim(e.0, Delta(e.0, e.1)), Publish(e.1))
  }

  function QueryPacket(q: (Vid, nat)): Packet {
    Packet(q.0, q.0, q.0, Aim(q.0, q.1), Query(q.1))
  }

  predicate IsEdge(net: Net, id: nat, e: (Vid, Vid)) {
    At(net, id, e.0) && e.1 in net.sw && net.Edge(e.0, e.1) && e.0 != e.1
  }

  predicate IsQuestion(net: Net, id: nat, q: (Vid, nat)) {
    At(net, id, q.0) && FIRST_QUERIED <= q.1 <= LAST_QUERIED
  }

  function TickOf(e: (Vid, Vid)): Event {
    PublishTick(e.0, e.1, PublishPacket(e))
  }

  function QueryOf(q: (Vid, nat)): Event {
    QueryTick(q.0, q.1, QueryPacket(q))
  }

  ghost function PublishPackets(order: seq<(Vid, Vid)>): set<Packet> {
    set e <- order :: PublishPacket(e)
  }

  ghost function QueryPackets(asks: seq<(Vid, nat)>): set<Packet> {
    set q <- asks :: QueryPacket(q)
  }

  /** Every table of s' is that of s after the edges were entered. */
  ghost predicate Enters(s: State, s': State, order: seq<(Vid, Vid)>) {
    forall x: Vid {:trigger TableOf(s', x)} :: TableOf(s', x) == EnterAll(TableOf(s, x), x, order)
  }

  lemma PublishStep(net: Net, s: State, id: nat, e: (Vid, Vid)) returns (s': State)
    requires IsEdge(net, id, e)
    ensures Step(net, s, TickOf(e), s') && s'.rdv == s.rdv && s'.flying == s.flying + {PublishPacket(e)}
    ensures Enters(s, s', [e])
  {
    DeltaZero(e.0, e.1);
    var t := Update(TableOf(s, e.0), Delta(e.0, e.1), e.1, e.0, true);
    s' := State(s.rt[e.0 := t], s.rdv, s.flying + {PublishPacket(e)});
    forall x: Vid
      ensures TableOf(s', x) == EnterAll(TableOf(s, x), x, [e])
    {
      EnterNext(TableOf(s, x), x, [], e);
    }
  }

  lemma EnterNext(t: Inner, x: Vid, order: seq<(Vid, Vid)>, e: (Vid, Vid))
    ensures EnterAll(t, x, order + [e]) ==
            if e.0 == x then Update(EnterAll(t, x, order), Delta(x, e.1), e.1, x, true) else EnterAll(t, x, order)
  {
    assert (order + [e])[..|order|] == order;
    assert [] + [e] == [e];
  }

  lemma EntersNext(s: State, s1: State, s2: State, order: seq<(Vid, Vid)>, e: (Vid, Vid))
    requires Enters(s, s1, order) && Enters(s1, s2, [e])
    ensures Enters(s, s2, order + [e])
  {
    forall x: Vid
      ensures TableOf(s2, x) == EnterAll(TableOf(s, x), x, order + [e])
    {
      EnterNext(TableOf(s, x), x, order, e);
      EnterNext(TableOf(s1, x), x, [], e);
      assert TableOf(s1, x) == EnterAll(TableOf(s, x), x, order);
    }
  }

  /** A run from s that publishes the edges of the list in order. */
  ghost predicate Publishes(net: Net, s: State, order: seq<(Vid, Vid)>, states: seq<State>, events: seq<Event>) {
    && LastingRun(net, states, events) && states[0] == s
    && |events| == |order| && (forall i :: 0 <= i < |order| ==> events[i] == TickOf(order[i]))
    && Last(states).rdv == s.rdv && Last(states).flying == s.flying + PublishPackets(order)
    && Enters(s, Last(states), order)
  }

  lemma PublishesNone(net: Net, s: State)
    ensures Publishes(net, s, [], [s], [])
  {
  }

  lemma TicksNext(order: seq<(Vid, Vid)>, events: seq<Event>, e: (Vid, Vid), order': seq<(Vid, Vid)>)
    requires |events| == |order| && forall i :: 0 <= i < |order| ==> events[i] == TickOf(order[i])
    requires order' == order + [e]
    ensures forall i :: 0 <= i < |order'| ==> (events + [TickOf(e)])[i] == TickOf(order'[i])
    ensures PublishPackets(order') == PublishPackets(order) + {PublishPacket(e)}
  {
  }

  lemma PublishesNext(net: Net, s: State, order: seq<(Vid, Vid)>, states: seq<State>, events: seq<Event>, e: (Vid, Vid),
                      s': State, order': seq<(Vid, Vid)>)
    requires Publishes(net, s, order, states, events) && Step(net, Last(states), TickOf(e), s')
    requires s'.rdv == s.rdv && s'.flying == Last(states).flying + {PublishPacket(e)} && Enters(Last(states), s', [e])
    requires order' == order + [e]
    ensures Publishes(net, s, order', states + [s'], events + [TickOf(e)])
  {
    NextStep(net, states, events, TickOf(e), s');
    EntersNext(s, Last(states), s', order, e);
    TicksNext(order, events, e, order');
  }

  /** Publishing the edges of a list in order does to every table what entering them does. */
  lemma {:induction false} PublishRun(net: Net, s: State, id: nat, order: seq<(Vid, Vid)>)
    returns (states: seq<State>, events: seq<Event>)
    requires forall e <- order :: IsEdge(net, id, e)
    ensures Publishes(net, s, order, states, events)
  {
    if order == [] {
      states, events := [s], [];
      PublishesNone(net, s);
    } else {
      var n := |order| - 1;
      states, events := PublishRun(net, s, id, order[..n]);
      states, events := PublishMore(net, s, id, order[..n], states, events, order[n], order);
    }
  }

  lemma PublishMore(net: Net, s: State, id: nat, order: seq<(Vid, Vid)>, states: seq<State>, events: seq<Event>,
                    e: (Vid, Vid), order': seq<(Vid, Vid)>)
    returns (states': seq<State>, events': seq<Event>)
    requires Publishes(net, s, order, states, events) && e in order' && order' == order + [e]
    requires forall e <- order' :: IsEdge(net, id, e)
    ensures Publishes(net, s, order', states', events')
  {
    var s' := PublishStep(net, Last(states), id, e);
    PublishesNext(net, s, order, states, events, e, s', order');
    states', events' := states + [s'], events + [TickOf(e)];
  }

  lemma {:induction false} QueryRun(net: Net, s: State, id: nat, asks: seq<(Vid, nat)>)
    returns (states: seq<State>, events: seq<Event>)
    requires forall q <- asks :: IsQuestion(net, id, q)
    ensures LastingRun(net, states, events) && states[0] == s
    ensures |events| == |asks| && forall i :: 0 <= i < |asks| ==> events[i] == QueryOf(asks[i])
    ensures Last(states) == s.(flying := s.flying + QueryPackets(asks))
  {
    if asks == [] {
      states, events := [s], [];
    } else {
      var n := |asks| - 1;
      var q := asks[n];
      assert q in asks;
      var ss, es := QueryRun(net, s, id, asks[..n]);
      var s' := Last(ss).(flying := Last(ss).flying + {QueryPacket(q)});
      NextStep(net, ss, es, QueryOf(q), s');
      states, events := ss + [s'], es + [QueryOf(q)];
      assert asks == asks[..n] + [q];
      assert QueryPackets(asks) == QueryPackets(asks[..n]) + {QueryPacket(q)};
    }
  }

  /** Listed are all edges, or all questions, of the switch. */
  ghost predicate AllEdges(net: Net, id: nat, order: seq<(Vid, Vid)>) {
    forall e: (Vid, Vid) :: e in order <==> IsEdge(net, id, e)
  }

  ghost predicate AllQuestions(net: Net, id: nat, asks: seq<(Vid, nat)>) {
    forall q: (Vid, nat) :: q in asks <==> IsQuestion(net, id, q)
  }

  lemma {:induction false} ListOf<T>(all: set<T>) returns (l: seq<T>)
    ensures forall t :: t in l <==> t in all
    decreases all
  {
    if all == {} {
      l := [];
    } else {
      var t :| t in all;
      l := ListOf(all - {t});
      l := [t] + l;
    }
  }

  lemma ListEdges(net: Net, id: nat) returns (order: seq<(Vid, Vid)>)
    ensures AllEdges(net, id, order)
  {
    order := ListOf(set x: Vid, y: Vid | x in net.sw && y in net.sw && IsEdge(net, id, (x, y)) :: (x, y));
  }

  lemma ListQuestions(net: Net, id: nat) returns (asks: seq<(Vid, nat)>)
    ensures AllQuestions(net, id, asks)
  {
    asks := ListOf(set x: Vid, k: nat | x in net.sw && FIRST_QUERIED <= k <= LAST_QUERIED && At(net, id, x) :: (x, k));
  }

  lemma ListsAreCall(net: Net, id: nat, order: seq<(Vid, Vid)>, asks: seq<(Vid, nat)>, es: seq<Event>, es': seq<Event>)
    requires net.Valid() && AllEdges(net, id, order) && AllQuestions(net, id, asks)
    requires |es| == |order| && forall i :: 0 <= i < |order| ==> es[i] == TickOf(order[i])
    requires |es'| == |asks| && forall i :: 0 <= i < |asks| ==> es'[i] == QueryOf(asks[i])
    ensures TimerCall(net, id, es + es')
  {
    forall e | e in es + es'
      ensures SentBy(net, id, e)
    {
      var i :| 0 <= i < |es + es'| && (es + es')[i] == e;
      if i < |es| {
        assert order[i] in order;
      } else {
        assert asks[i - |es|] in asks;
      }
    }
    forall x: Vid, y: Vid | At(net, id, x) && y in net.sw && net.Edge(x, y)
      ensures Ticked(es + es', x, y)
    {
      assert IsEdge(net, id, (x, y));
      var i :| 0 <= i < |order| && order[i] == (x, y);
      assert (es + es')[i] == TickOf(order[i]);
    }
    forall x: Vid, k: nat | At(net, id, x) && FIRST_QUERIED <= k <= LAST_QUERIED
      ensures Queried(es + es', k, x)
    {
      assert IsQuestion(net, id, (x, k));
      var i :| 0 <= i < |asks| && asks[i] == (x, k);
      assert (es + es')[|es| + i] == QueryOf(asks[i]);
    }
  }

  /** The call: a run that enters and publishes all edges in the given order and then asks. */
  lemma TimerRun(net: Net, s: State, id: nat, order: seq<(Vid, Vid)>, asks: seq<(Vid, nat)>)
    returns (states: seq<State>, events: seq<Event>)
    requires net.Valid() && AllEdges(net, id, order) && AllQuestions(net, id, asks)
    ensures LastingRun(net, states, events) && states[0] == s && TimerCall(net, id, events)
    ensures Last(states).rdv == s.rdv
    ensures Last(states).flying == s.flying + PublishPackets(order) + QueryPackets(asks)
    ensures Enters(s, Last(states), order)
  {
    var ss, es := PublishRun(net, s, id, order);
    var ss', es' := QueryRun(net, Last(ss), id, asks);
    JoinRuns(net, ss, es, ss', es');
    ListsAreCall(net, id, order, asks, es, es');
    states, events := ss + ss'[1..], es + es';
    SameTablesEnter(s, Last(ss), Last(states), order);
  }

  lemma SameTablesEnter(s: State, s1: State, s2: State, order: seq<(Vid, Vid)>)
    requires Enters(s, s1, order) && s2.rt == s1.rt
    ensures Enters(s, s2, order)
  {
    forall x: Vid
      ensures TableOf(s2, x) == EnterAll(TableOf(s, x), x, order)
    {
      assert TableOf(s1, x) == TableOf(s2, x);
    }
  }

  // ----- whole rounds of calls

  /** Every edge published and every question asked: every switch's timer has fired. */
  ghost predicate AllSent(net: Net, events: seq<Event>) {
    && (forall x: Vid, y: Vid {:trigger Ticked(events, x, y)} ::
          x in net.sw && y in net.sw && net.Edge(x, y) ==> Ticked(events, x, y))
    && (forall x: Vid, k: nat {:trigger Queried(events, k, x)} ::
          x in net.sw && FIRST_QUERIED <= k <= LAST_QUERIED ==> Queried(events, k, x))
  }

  predicate IsTick(e: Event) {
    e.PublishTick? || e.QueryTick?
  }

  /** Event i belongs to an uninterrupted call of some switch's timer. */
  ghost predicate InCall(net: Net, events: seq<Event>, i: nat) {
    exists id: nat, a: nat, b: nat :: a <= i < b <= |events| && TimerCall(net, id, events[a..b])
  }

  /** Nothing is published or asked but by whole calls. */
  ghost predicate WholeCalls(net: Net, events: seq<Event>) {
    forall i: nat {:trigger InCall(net, events, i)} :: i < |events| && IsTick(events[i]) ==> InCall(net, events, i)
  }

  lemma CallIsWhole(net: Net, id: nat, events: seq<Event>)
    requires TimerCall(net, id, events)
    ensures WholeCalls(net, events)
  {
    assert events[0..|events|] == events;
  }

  lemma WholeCallsJoin(net: Net, es: seq<Event>, es': seq<Event>)
    requires WholeCalls(net, es) && WholeCalls(net, es')
    ensures WholeCalls(net, es + es')
  {
    var n, events := |es|, es + es';
    forall i: nat | i < |events| && IsTick(events[i])
      ensures InCall(net, events, i)
    {
      if i < n {
        assert InCall(net, es, i);
        var id: nat, a: nat, b: nat :| a <= i < b <= n && TimerCall(net, id, es[a..b]);
        assert events[a..b] == es[a..b];
      } else {
        assert InCall(net, es', i - n);
        var id: nat, a: nat, b: nat :| a <= i - n < b <= |es'| && TimerCall(net, id, es'[a..b]);
        assert events[n + a..n + b] == es'[a..b];
      }
    }
  }

  lemma NoTicksWhole(net: Net, events: seq<Event>)
    requires forall e <- events :: !IsTick(e)
    ensures WholeCalls(net, events)
  {
  }
}
