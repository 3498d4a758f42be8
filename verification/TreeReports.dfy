/** Topology reports on a converged tree: exactly those of switches at most 16 links away from the
    controller reach it. The others are dropped on the way, at time to live zero. */
module TreeReports {
  import opened SpanningTree

  /** Every switch has an entry, and its count is its distance plus one. */
  ghost predicate Converged(t: Topo, s: State)
    requires t.Valid()
  {
    && Safe(t, s)
    && forall u: Switch {:trigger Exact(t, s, u)} :: u in t.owner.Values ==> Exact(t, s, u)
  }

  ghost predicate Exact(t: Topo, s: State, u: Switch)
    requires t.Valid()
  {
    u in s.entries && s.entries[u].hops >= 1 && t.AtDistance(u, s.entries[u].hops - 1)
  }

  function Count(s: State, u: Switch): nat {
    if u in s.entries then s.entries[u].hops else 0
  }

  /** Advertisement rounds lead there: as many as the farthest switch is links away. */
  lemma RoundsReachConverged(t: Topo, states: seq<State>, events: seq<Event>, rounds: seq<nat>, r: nat)
    requires t.Valid() && Run(t, states, events) && states[0] == Initial(t) && Rounds(t, states, events, rounds)
    requires r < |rounds| && forall u: Switch {:trigger t.Within(u, r)} :: u in t.owner.Values ==> t.Within(u, r)
    ensures Converged(t, states[rounds[r]])
  {
    RunIsSafe(t, states, events, rounds[r]);
    forall u: Switch | u in t.owner.Values
      ensures Exact(t, states[rounds[r]], u)
    {
      assert t.Within(u, r);
      var d := Distance(t, u, r);
      RoundsConverge(t, states, events, rounds, r, d, u);
    }
  }

  lemma {:induction false} Distance(t: Topo, u: Switch, r: nat) returns (d: nat)
    requires t.Valid() && t.Within(u, r)
    ensures d <= r && t.AtDistance(u, d)
  {
    if r > 0 && t.Within(u, r - 1) {
      d := Distance(t, u, r - 1);
    } else {
      d := r;
    }
  }

  /** On a converged tree no step changes a count: parents change between equally good ones only. */
  lemma CountsStay(t: Topo, s: State, e: Event, s': State)
    requires t.Valid() && Converged(t, s) && Step(t, s, e, s')
    ensures Converged(t, s') && forall u: Switch :: Count(s', u) == Count(s, u)
  {
    StepIsSafe(t, s, e, s');
    forall u: Switch
      ensures Count(s', u) == Count(s, u)
      ensures u in t.owner.Values ==> Exact(t, s', u)
    {
      if e.Receive? && u == t.owner[e.n] {
        assert Exact(t, s, u);
        ReceiveOffers(t, s, e.ad, e.n);
        NeverTooLow(t, s', u, s.entries[u].hops - 1);
      } else if u in t.owner.Values {
        assert Exact(t, s, u);
      }
    }
  }

  lemma NextWithin(t: Topo, v: Switch, u: Switch, r: nat)
    requires t.Valid() && t.Adjacent(v, u) && r > 0 && t.Within(v, r - 1)
    ensures t.Within(u, r)
  {
    var m, n :| (m, n) in t.links && t.owner[m] == v && t.owner[n] == u;
  }

  /** The parent is exactly one link closer. */
  lemma ParentCloser(t: Topo, s: State, u: Switch)
    requires t.Valid() && Converged(t, s) && u in t.owner.Values && u != t.Root()
    ensures u in s.entries && s.entries[u].parent in t.owner
    ensures var v := t.owner[s.entries[u].parent]; v in s.entries && Count(s, v) + 1 == Count(s, u)
  {
    assert Exact(t, s, u) && SafeEntry(t, s, u);
    var v := t.owner[s.entries[u].parent];
    assert Exact(t, s, v);
    var h := s.entries[v].hops;
    NextWithin(t, v, u, h);
    if h < s.entries[u].hops - 1 {
      WithinGrows(t, u, h, s.entries[u].hops - 2);
    }
  }

  /** A report of v has been relayed once for each link it is closer to the controller than v. */
  ghost predicate OnPath(s: State, p: Report) {
    p.at in s.entries && p.relayed + Count(s, p.at) + 1 == Count(s, p.src) && p.ttl + p.relayed == MAX_TTL
  }

  ghost predicate AllOnPath(s: State, v: Switch) {
    forall p {:trigger OnPath(s, p)} :: p in s.reports && p.src == v ==> OnPath(s, p)
  }

  lemma StepKeepsOnPath(t: Topo, s: State, e: Event, s': State, v: Switch)
    requires t.Valid() && Converged(t, s) && Step(t, s, e, s') && v != t.Root() && AllOnPath(s, v)
    ensures AllOnPath(s', v)
  {
    CountsStay(t, s, e, s');
    forall p | p in s'.reports && p.src == v
      ensures OnPath(s', p)
    {
      if p in s.reports {
        assert OnPath(s, p);
        assert p.at in s'.entries;
      } else if e.Send? {
        EntryOwned(t, s, v);
        ParentCloser(t, s, v);
      } else {
        assert e.Relay? && OnPath(s, e.p);
        EntryOwned(t, s, e.p.at);
        ParentCloser(t, s, e.p.at);
      }
    }
  }

  lemma EntryOwned(t: Topo, s: State, u: Switch)
    requires t.Valid() && Safe(t, s) && u in s.entries
    ensures u in t.owner.Values
  {
    assert u in s.entries.Keys;
  }

  /** No report of v is in flight, and none has been delivered. */
  ghost predicate Silent(s: State, v: Switch) {
    v !in s.delivered && forall p :: p in s.reports ==> p.src != v
  }

  /** Reports of a switch more than 16 links away are never delivered, whatever else happens. */
  lemma {:induction false} FarNeverDelivered(t: Topo, states: seq<State>, events: seq<Event>, v: Switch, j: nat)
    requires t.Valid() && Run(t, states, events) && j < |states|
    requires Converged(t, states[0]) && Silent(states[0], v) && Count(states[0], v) > MAX_TTL + 2
    ensures Converged(t, states[j]) && Count(states[j], v) == Count(states[0], v)
    ensures AllOnPath(states[j], v) && v !in states[j].delivered
  {
    if j > 0 {
      FarNeverDelivered(t, states, events, v, j - 1);
      FarStep(t, states[j - 1], events[j - 1], states[j], v);
    }
  }

  lemma FarStep(t: Topo, s: State, e: Event, s': State, v: Switch)
    requires t.Valid() && Converged(t, s) && Step(t, s, e, s')
    requires Count(s, v) > MAX_TTL + 2 && AllOnPath(s, v) && v !in s.delivered
    ensures Converged(t, s') && Count(s', v) == Count(s, v) && AllOnPath(s', v) && v !in s'.delivered
  {
    CountsStay(t, s, e, s');
    assert SafeEntry(t, s, t.Root());
    StepKeepsOnPath(t, s, e, s', v);
    assert e.Deliver? && e.p.src == v ==> OnPath(s, e.p);
  }

  lemma {:induction false} CountsConstant(t: Topo, states: seq<State>, events: seq<Event>, v: Switch, j: nat)
    requires t.Valid() && Run(t, states, events) && j < |states| && Converged(t, states[0])
    ensures Converged(t, states[j]) && Count(states[j], v) == Count(states[0], v)
  {
    if j > 0 {
      CountsConstant(t, states, events, v, j - 1);
      CountsStay(t, states[j - 1], events[j - 1], states[j]);
    }
  }

  lemma DistanceUnique(t: Topo, u: Switch, d: nat, d': nat)
    requires t.Valid() && t.AtDistance(u, d) && t.AtDistance(u, d')
    ensures d == d'
  {
    if d < d' {
      WithinGrows(t, u, d, d' - 1);
    } else if d' < d {
      WithinGrows(t, u, d', d - 1);
    }
  }

  /** Exactly which reports arrive: on a converged tree a report that is sent, not lost, and not left
      in flight at the end has reached the controller if and only if its sender is at most 16 links
      away. */
  lemma DeliveredExactly(t: Topo, states: seq<State>, events: seq<Event>, i: nat, v: Switch, d: nat)
    requires t.Valid() && Run(t, states, events) && Converged(t, states[0])
    requires v in t.owner.Values && t.AtDistance(v, d) && Silent(states[0], v)
    requires i < |events| && events[i] == Send(v)
    requires forall h :: i < h < |events| && events[h].LoseReport? ==> events[h].p.src != v
    requires forall p :: p in states[|events|].reports ==> p.src != v
    ensures v in states[|events|].delivered <==> d <= MAX_TTL + 1
  {
    assert Exact(t, states[0], v);
    DistanceUnique(t, v, d, states[0].entries[v].hops - 1);
    if d <= MAX_TTL + 1 {
      CountsConstant(t, states, events, v, i);
      assert Exact(t, states[i], v);
      SentMeansDelivered(t, states, events, i, v);
    } else {
      FarNeverDelivered(t, states, events, v, |events|);
    }
  }

  // ----- such runs exist, for near and for far senders

  predicate Lossless(e: Event) {
    !e.LoseReport?
  }

  lemma ConsRun(t: Topo, s: State, e: Event, states: seq<State>, events: seq<Event>)
    requires t.Valid() && Run(t, states, events) && Step(t, s, e, states[0])
    ensures Run(t, [s] + states, [e] + events)
  {
  }

  /** The only report in flight is relayed until it is delivered or dropped. */
  lemma {:induction false} ReportEnds(t: Topo, s: State, p: Report) returns (states: seq<State>, events: seq<Event>)
    requires t.Valid() && Safe(t, s) && s.reports == {p}
    ensures Run(t, states, events) && states[0] == s && (forall e <- events :: Lossless(e))
    ensures states[|events|].reports == {}
    decreases p.ttl
  {
    assert SafeReport(s, p);
    var e, s';
    if p.at == t.Root() {
      e, s' := Deliver(p), s.(reports := {}, delivered := s.delivered + {p.src});
    } else if p.ttl < 1 {
      e, s' := DropReport(p), s.(reports := {});
    } else {
      ReportIsSafe(t, s, p.at);
      var q := Report(p.src, t.owner[s.entries[p.at].parent], p.ttl - 1, p.relayed + 1, p.bound);
      e, s' := Relay(p), s.(reports := {q});
      StepIsSafe(t, s, e, s');
      states, events := ReportEnds(t, s', q);
      ConsRun(t, s, e, states, events);
      states, events := [s] + states, [e] + events;
      return;
    }
    states, events := [s, s'], [e];
  }

  /** From a quiet converged tree any switch can send its report and see it end: at the controller if
      and only if it is at most 16 links away. */
  lemma ReportRun(t: Topo, s: State, v: Switch, d: nat) returns (states: seq<State>, events: seq<Event>)
    requires t.Valid() && Converged(t, s) && s.reports == {} && v !in s.delivered
    requires v in t.owner.Values && t.AtDistance(v, d)
    ensures Run(t, states, events) && states[0] == s && events != [] && events[0] == Send(v)
    ensures (forall e <- events :: Lossless(e)) && states[|events|].reports == {}
    ensures v in states[|events|].delivered <==> d <= MAX_TTL + 1
  {
    assert Exact(t, s, v);
    ReportIsSafe(t, s, v);
    var bound := if v == t.Root() then 1 else s.entries[v].hops - 1;
    var p := Report(v, t.owner[s.entries[v].parent], MAX_TTL, 0, bound);
    var s' := s.(reports := s.reports + {p});
    assert s'.reports == {p};
    StepIsSafe(t, s, Send(v), s');
    states, events := ReportEnds(t, s', p);
    ConsRun(t, s, Send(v), states, events);
    states, events := [s] + states, [Send(v)] + events;
    assert forall h :: 0 <= h < |events| ==> Lossless(events[h]);
    DeliveredExactly(t, states, events, 0, v, d);
  }

  // ----- a chain of 18 switches

  function UpTo(n: nat): set<nat> {
    if n == 0 then {0} else UpTo(n - 1) + {n}
  }

  function ChainLinks(n: nat): set<(Mac, Mac)> {
    if n == 0 then {} else ChainLinks(n - 1) + {(n - 1, n), (n, n - 1)}
  }

  /** Switches 0 to n in a row, each with one interface; the controller is at 0. */
  function Chain(n: nat): Topo {
    Topo(map m <- UpTo(n) :: m, ChainLinks(n), 0)
  }

  function ChainState(n: nat): State {
    State(map u <- UpTo(n) :: ParentEntry(if u == 0 then 0 else u - 1, u + 1), {}, {}, {})
  }

  lemma {:induction false} UpToIs(n: nat)
    ensures |UpTo(n)| == n + 1 && forall m: nat :: m in UpTo(n) <==> m <= n
  {
    if n > 0 {
      UpToIs(n - 1);
    }
  }

  lemma {:induction false} LinksAre(n: nat)
    ensures forall a: nat, b: nat :: (a, b) in ChainLinks(n) <==> a <= n && b <= n && (b == a + 1 || a == b + 1)
  {
    if n > 0 {
      LinksAre(n - 1);
    }
  }

  /** What is used of a chain. */
  ghost predicate IsChain(t: Topo, n: nat) {
    && t.vcc == 0 && t.owner.Keys == t.owner.Values && n < UINT16 - 1 && |t.owner.Values| == n + 1
    && (forall m: nat :: m in t.owner <==> m <= n)
    && (forall m: nat :: m in t.owner ==> t.owner[m] == m)
    && (forall a: nat, b: nat :: (a, b) in t.links <==> a <= n && b <= n && (b == a + 1 || a == b + 1))
  }

  lemma ChainIs(n: nat)
    requires n < UINT16 - 1
    ensures IsChain(Chain(n), n)
  {
    UpToIs(n);
    LinksAre(n);
    var t := Chain(n);
    forall m: nat | m in UpTo(n)
      ensures m in t.owner.Values
    {
      assert t.owner[m] == m;
    }
    assert t.owner.Values == UpTo(n) == t.owner.Keys;
  }

  lemma ChainValid(t: Topo, n: nat)
    requires IsChain(t, n)
    ensures t.Valid()
  {
  }

  lemma {:induction false} ChainWithin(t: Topo, n: nat, u: Switch, r: nat)
    requires IsChain(t, n) && t.Valid() && u <= n
    ensures t.Within(u, r) <==> u <= r
    decreases r
  {
    if r > 0 {
      ChainWithin(t, n, u, r - 1);
      forall m: nat | (m, u) in t.links
        ensures t.Within(t.owner[m], r - 1) <==> m <= r - 1
      {
        ChainWithin(t, n, m, r - 1);
      }
      if u == r {
        assert (u - 1, u) in t.links;
      }
    }
  }

  ghost predicate IsChainState(s: State, n: nat) {
    && s.ads == {} && s.reports == {} && s.delivered == {} && |s.entries| == n + 1
    && (forall u: nat :: u in s.entries <==> u <= n)
    && (forall u: nat :: u in s.entries ==> s.entries[u] == ParentEntry(if u == 0 then 0 else u - 1, u + 1))
  }

  lemma ChainStateIs(n: nat)
    ensures IsChainState(ChainState(n), n)
  {
    UpToIs(n);
    assert ChainState(n).entries.Keys == UpTo(n);
  }

  lemma ChainEntry(t: Topo, s: State, n: nat, u: Switch)
    requires IsChain(t, n) && t.Valid() && IsChainState(s, n) && u <= n
    ensures u in s.entries && SafeEntry(t, s, u) && Exact(t, s, u)
  {
    ChainWithin(t, n, u, u);
    if u > 0 {
      ChainWithin(t, n, u, u - 1);
      assert (u - 1, u) in t.links;
    }
  }

  lemma ChainSafe(t: Topo, s: State, n: nat)
    requires IsChain(t, n) && t.Valid() && IsChainState(s, n)
    ensures Safe(t, s)
  {
    forall u: Switch | u in s.entries
      ensures SafeEntry(t, s, u)
    {
      ChainEntry(t, s, n, u);
    }
    forall u | u in s.entries.Keys
      ensures u in t.owner.Keys
    {
    }
  }

  lemma ChainConverged(t: Topo, s: State, n: nat)
    requires IsChain(t, n) && t.Valid() && IsChainState(s, n)
    ensures Converged(t, s)
  {
    ChainSafe(t, s, n);
    forall u: Switch | u in t.owner.Values
      ensures Exact(t, s, u)
    {
      assert u in t.owner.Keys;
      ChainEntry(t, s, n, u);
    }
  }

  lemma ChainEnd(t: Topo, s: State, n: nat)
    requires IsChain(t, n) && t.Valid() && IsChainState(s, n)
    ensures n in t.owner.Values && t.AtDistance(n, n) && s.reports == {} && n !in s.delivered
  {
    assert n in t.owner.Keys;
    ChainEntry(t, s, n, n);
  }

  /** In a chain of n + 1 switches the one at the far end sends a report that is neither lost nor left
      in flight. With 18 switches or more the controller never gets it. */
  lemma ChainReport(n: nat) returns (states: seq<State>, events: seq<Event>)
    requires n < UINT16 - 1
    ensures Chain(n).Valid() && Run(Chain(n), states, events) && Converged(Chain(n), states[0])
    ensures events != [] && events[0] == Send(n) && (forall e <- events :: Lossless(e))
    ensures states[|events|].reports == {} && (n in states[|events|].delivered <==> n + 1 < 18)
  {
    ChainIs(n);
    ChainValid(Chain(n), n);
    ChainStateIs(n);
    ChainConverged(Chain(n), ChainState(n), n);
    ChainEnd(Chain(n), ChainState(n), n);
    states, events := ReportRun(Chain(n), ChainState(n), n, n);
  }
}
